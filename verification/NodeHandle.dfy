/** NodeHandle_ of ros/node_handle.h on the arrays and fields that the device has. */
module NodeHandle {
  import opened Bytes
  import opened Frames
  import opened CdrFlat
  import opened CdrCursor
  import opened CdrBuffer
  import opened Messages
  import opened Alignment
  import opened MessageCode
  import opened Outbox
  import opened Routing
  import opened Slots

  /** The sending half: publish, and the logging that it falls back to. */
  class Transmitter {
    const messageOut: array<byte>
    const outputCdr: UcdrBuffer
    var configured: bool

    /** Everything hardware_.write was given. */
    var wire: seq<byte>

    /** The CDR buffer is message_out behind its first seven bytes. */
    ghost predicate Valid()
      reads outputCdr
    {
      && Single(outputCdr) && outputCdr.endianness == MACHINE && outputCdr.origin == 0
      && outputCdr.regions == [Region(messageOut, 7, messageOut.Length)]
      && 7 <= messageOut.Length < 0x1_0000
    }

    ghost function Window(): (o: Out)
      requires messageOut.Length >= 7
      reads this`wire, messageOut
    {
      Out(messageOut[7..], wire)
    }

    /** initNode. */
    constructor (outputSize: nat)
      requires 7 <= outputSize < 0x1_0000
      ensures Valid() && fresh(messageOut) && fresh(outputCdr) && messageOut.Length == outputSize
      ensures !configured && wire == []
    {
      var out := new byte[outputSize](_ => 0);
      messageOut := out;
      outputCdr := new UcdrBuffer(out, 7, outputSize, 0, 0, MACHINE, []);
      configured, wire := false, [];
      new;
      assert outputCdr.regions == [outputCdr.regions[0]];
    }

    lemma WindowSize()
      requires Valid()
      ensures messageOut.Length >= 7 && |Window().mem| == messageOut.Length - 7 < 0x1_0000 - 7
    {
      hide Single;
    }

    lemma WindowWire()
      requires messageOut.Length >= 7
      ensures Window().wire == wire
    {
    }

    lemma WindowFlatly()
      requires Valid()
      ensures Flatly(outputCdr) == Flat(messageOut[7..], outputCdr.iterator_ - 7, outputCdr.offset, outputCdr.error)
      ensures outputCdr.init == 7
    {
      SingleFlatly(outputCdr);
      assert messageOut[7..messageOut.Length] == messageOut[7..];
    }

    /** ucdr_reset_buffer, serialize_encapsulation and the cdr_serialize of the message. */
    method Encode(ty: Ty, v: Val) returns (l: nat)
      requires Valid() && WellFormed(ty) && HasType(ty, v)
      modifies outputCdr, messageOut
      ensures Valid() && messageOut[..7] == old(messageOut[..7])
      ensures var f := Encoded(old(messageOut[7..]), ty, v);
              messageOut[7..] == f.mem && l == f.pos && outputCdr.error == f.error
    {
      hide Separate, Ser, SerHeader, WellFormed, HasType, UcdrBuffer.View, Flatly;
      OneArray(outputCdr, messageOut);
      OneMargin(outputCdr, messageOut);
      outputCdr.Reset(0);
      WindowFlatly();
      SerializeHeader(outputCdr);
      CdrSerialize(outputCdr, ty, v);
      WindowFlatly();
      OneMargin(outputCdr, messageOut);
      l := outputCdr.iterator_ - outputCdr.init;
    }

    /** The seven header bytes. */
    method WriteHeader(l: u16, topic: u16)
      requires messageOut.Length >= 7
      modifies messageOut
      ensures messageOut[..7] == Header(l, topic) && messageOut[7..] == old(messageOut[7..])
    {
      hide Complement;
      messageOut[0] := 0xff;
      messageOut[1] := 0xfe;
      messageOut[2] := l % 256;
      messageOut[3] := l / 256;
      messageOut[4] := Complement(messageOut[2] as nat + messageOut[3]);
      messageOut[5] := topic % 256;
      messageOut[6] := topic / 256;
    }

    /** The checksum loop over message_out[5..l). */
    method Checksum(l: nat) returns (chk: nat)
      requires 5 <= l <= messageOut.Length
      ensures chk == Sum(messageOut[5..l])
    {
      chk := 0;
      var i := 5;
      while i < l
        invariant 5 <= i <= l && chk == Sum(messageOut[5..i])
      {
        assert messageOut[5..i + 1] == messageOut[5..i] + [messageOut[i]];
        SumAppend(messageOut[5..i], [messageOut[i]]);
        assert Sum([messageOut[i]]) == messageOut[i];
        chk := chk + messageOut[i];
        i := i + 1;
      }
    }

    /** The end of publish: checksum byte and hardware_.write. */
    method Transmit(l: nat, topic: u16) returns (n: nat)
      requires 7 <= l < messageOut.Length < 0x1_0000 && messageOut[..7] == Header(l - 7, topic)
      modifies `wire, messageOut
      ensures n == l + 1
      ensures Window() == WithFrame(old(wire), topic, old(messageOut[7..]), l - 7)
    {
      hide Complement, Header, Sum;
      ghost var head, mem := messageOut[..7], messageOut[7..];
      ghost var payload := mem[..l - 7];
      TopicInHeader(l - 7, topic);
      assert messageOut[5..l] == head[5..] + payload;
      SumFromTopic(topic, messageOut[5..l], payload);
      var chk := Checksum(l);
      messageOut[l] := Complement(chk);
      n := l + 1;
      assert messageOut[..n] == head + payload + [messageOut[l]];
      assert messageOut[7..] == mem[l - 7 := messageOut[l]];
      wire := wire + messageOut[..n];
    }

    /** publish.  A message that does not leave room for the checksum byte is dropped and complained about;
        an error of the serializer alone is not noticed. */
    method Publish(id: int, ty: Ty, v: Val) returns (code: int)
      requires Valid() && WellFormed(ty) && HasType(ty, v) && Publishable(Window(), configured, id, ty, v)
      modifies `wire, outputCdr, messageOut
      ensures Valid()
      ensures (Window(), code) == Publishing(old(Window()), configured, id, ty, v)
      decreases Depth(messageOut[7..], ty, v)
    {
      hide Publishing, Depth, Encoded, Header, WithFrame, WellFormed, HasType, Complaining, Single,
           LOG, COMPLAINT, ID_LOG;
      ghost var o := Window();
      if id >= 100 && !configured {
        MuteIsPublished(o, id, ty, v);
        return 0;
      }
      if Encoded(o.mem, ty, v).pos < |o.mem| {
        ShortIsPublished(o, configured, id, ty, v, Encoded(o.mem, ty, v));
      } else {
        LongIsPublished(o, configured, id, ty, v, Encoded(o.mem, ty, v));
      }
      var l := Encode(ty, v);
      WriteHeader(l, TopicOf(id));
      if l + 7 < messageOut.Length {
        code := Transmit(l + 7, TopicOf(id));
      } else {
        ComplaintIsPublished(Window(), configured);
        var _ := Publish(ID_LOG, LOG, COMPLAINT);
        code := -1;
      }
    }
  }

  /** The announcement of one slot. */
  method AnnounceSlot(out: Transmitter, e: Registration, size: nat, ghost o: Out, ghost done: seq<Setup>)
    requires out.Valid() && size < 0x1_0000_0000 && AllNamed(done) && Named(e.Announcement())
    requires Sized(|o.mem|) && out.Window() == Announced(o, out.configured, done, size)
    modifies out`wire, out.outputCdr, out.messageOut
    ensures out.Valid() && AllNamed(done + [e.Announcement()])
    ensures out.Window() == Announced(o, out.configured, done + [e.Announcement()], size)
  {
    hide Single, Announced, Named, Endpoint, TOPIC_INFO, Publishing, WellFormed, HasType, InfoOf;
    var s := e.Announcement();
    AnnouncedOneMore(o, out.configured, done, s, size);
    var _ := out.Publish(Endpoint(e.role, e.kind), TOPIC_INFO, InfoOf(s, size));
  }

  /** One loop of negotiateTopics: a TopicInfo for every slot that is taken. */
  method AnnounceTable(out: Transmitter, t: Table, size: nat)
    requires out.Valid() && size < 0x1_0000_0000 && t.AllNamed() && Answers(out.messageOut.Length - 7)
    modifies out`wire, out.outputCdr, out.messageOut
    ensures out.Valid() && AllNamed(Listing(t.View()))
    ensures out.Window() == Announced(old(out.Window()), out.configured, Listing(t.View()), size)
  {
    hide Transmitter.Valid, Transmitter.Window, Single, Listing, Announced, Named, Table.View, Table.AllNamed, Answers;
    out.WindowSize();
    ghost var view, o := t.View(), out.Window();
    ghost var done: seq<Setup> := [];
    NothingListed(view);
    NothingAnnounced(o, out.configured, size);
    for i := 0 to t.slots.Length
      invariant out.Valid() && t.View() == view && t.AllNamed() && done == Listing(view[..i]) && AllNamed(done)
      invariant out.Window() == Announced(o, out.configured, done, size)
    {
      ListingMore(view, i);
      t.ViewAt(i);
      t.NamedAt(i);
      var e := t.slots[i];
      if e != null {
        AnnounceSlot(out, e, size, o, done);
        done := done + [e.Announcement()];
      }
    }
    assert view[..t.slots.Length] == view;
  }

  lemma TopicInHeader(n: u16, topic: u16)
    ensures Header(n, topic)[5..] == [Lo(topic), Hi(topic)]
  {
  }

  lemma SumFromTopic(topic: u16, s: seq<byte>, payload: seq<byte>)
    requires s == [Lo(topic), Hi(topic)] + payload
    ensures Sum(s) == BodySum(topic, payload)
  {
    SumAppend([Lo(topic), Hi(topic)], payload);
    assert [Lo(topic), Hi(topic)][1..] == [Hi(topic)];
  }

  lemma OneMargin(cdr: UcdrBuffer, a: array<byte>)
    requires Separate(cdr.regions) && cdr.regions == [Region(a, 7, a.Length)]
    ensures 7 <= a.Length && Margins(cdr.regions) == [(a[..7], a[a.Length..])]
  {
  }

  lemma OneArray(cdr: UcdrBuffer, a: array<byte>)
    requires |cdr.regions| == 1 && cdr.regions[0].a == a
    ensures Arrays(cdr.regions) == {a}
  {
    assert cdr.regions[0] in cdr.regions;
  }
}
