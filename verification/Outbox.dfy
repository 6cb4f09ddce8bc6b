/**
 What NodeHandle_::publish puts on the wire, as a function of the message and of what was in message_out
 before: padding bytes are whatever an earlier message left there.
 */
module Outbox {
  import opened Bytes
  import opened Frames
  import opened CdrFlat
  import opened Messages
  import opened Alignment

  // Topic ids of rosserial_msgs/msg/TopicInfo.
  const ID_PUBLISHER: u16 := 0
  const ID_SUBSCRIBER: u16 := 1
  const ID_SERVICE_SERVER: u16 := 2
  const ID_SERVICE_CLIENT: u16 := 4
  const ID_PARAMETER_REQUEST: u16 := 6
  const ID_LOG: u16 := 7
  const ID_TIME: u16 := 10
  const ID_TX_STOP: u16 := 11

  /** rosserial_msgs/msg/Log: a level and a text. */
  const LOG: Ty := Msg([Prim(1), Str])

  function LogRecord(level: byte, text: seq<byte>): Val { VMsg([VPrim([level]), VStr(text)]) }

  /** "Message from device dropped: message larger than buffer." */
  const DROPPED: seq<byte> := DROPPED_START + DROPPED_MIDDLE + DROPPED_END
  const DROPPED_START: seq<byte> := [77, 101, 115, 115, 97, 103, 101, 32, 102, 114, 111, 109, 32, 100, 101, 118, 105, 99, 101]
  const DROPPED_MIDDLE: seq<byte> := [32, 100, 114, 111, 112, 112, 101, 100, 58, 32, 109, 101, 115, 115, 97, 103, 101]
  const DROPPED_END: seq<byte> := [32, 108, 97, 114, 103, 101, 114, 32, 116, 104, 97, 110, 32, 98, 117, 102, 102, 101, 114, 46]

  const COMPLAINT: Val := LogRecord(3, DROPPED)

  /** The CDR buffer behind the seven header bytes after a message was serialized into it. */
  function Encoded(mem: seq<byte>, ty: Ty, v: Val): (r: Flat)
    requires WellFormed(ty) && HasType(ty, v)
    ensures r.Valid() && |r.mem| == |mem|
  {
    Ser(ty, v, MACHINE, SerHeader(MACHINE, Flat(mem, 0, 0, false)))
  }

  /** Message_out behind its header bytes, and all bytes written to the hardware so far. */
  datatype Out = Out(mem: seq<byte>, wire: seq<byte>)

  /** `n` bytes of payload go out in a frame; the checksum byte stays behind them in the buffer. */
  function WithFrame(wire: seq<byte>, topic: u16, mem: seq<byte>, n: nat): Out
    requires n < |mem| < 0x1_0000
  {
    var payload := mem[..n];
    Out(mem[n := Complement(BodySum(topic, payload))], wire + Frame(topic, payload))
  }

  /** The sizes of the CDR buffer for which the complaint goes out; see ComplaintIsSentIff. */
  predicate Answers(n: nat) { n >= 70 || 9 <= n <= 11 }

  predicate Sized(n: nat) { Answers(n) && n < 0x1_0000 }

  /** publish returns: it sends nothing, or the message, or else the complaint; see EndsIff. */
  predicate Publishable(o: Out, configured: bool, id: int, ty: Ty, v: Val)
    requires WellFormed(ty) && HasType(ty, v)
  {
    |o.mem| < 0x1_0000 && ((id >= 100 && !configured) || Encoded(o.mem, ty, v).pos < |o.mem| || Answers(|o.mem|))
  }

  function Complaining(o: Out): (r: Out)
    requires Sized(|o.mem|)
    ensures |r.mem| == |o.mem|
  {
    ComplaintIsSent(o.mem);
    var f := Encoded(o.mem, LOG, COMPLAINT);
    WithFrame(o.wire, ID_LOG, f.mem, f.pos)
  }

  /** publish past its `configured_` test: one frame, of the message or else of the complaint. */
  function Published(o: Out, topic: u16, ty: Ty, v: Val): (r: Out)
    requires WellFormed(ty) && HasType(ty, v)
    requires |o.mem| < 0x1_0000 && (Encoded(o.mem, ty, v).pos < |o.mem| || Answers(|o.mem|))
    ensures |r.mem| == |o.mem|
  {
    var f := Encoded(o.mem, ty, v);
    if f.pos < |o.mem| then WithFrame(o.wire, topic, f.mem, f.pos) else
    Complaining(Out(f.mem, o.wire))
  }

  /** A call of publish: what it leaves, and its result. */
  function Publishing(o: Out, configured: bool, id: int, ty: Ty, v: Val): (r: (Out, int))
    requires WellFormed(ty) && HasType(ty, v) && Publishable(o, configured, id, ty, v)
    ensures |r.0.mem| == |o.mem|
  {
    if id >= 100 && !configured then (o, 0) else
    var n := Encoded(o.mem, ty, v).pos;
    (Published(o, TopicOf(id), ty, v), if n < |o.mem| then 8 + n else -1)
  }

  /** How many more times publish calls itself. */
  function Depth(mem: seq<byte>, ty: Ty, v: Val): nat
    requires WellFormed(ty) && HasType(ty, v)
  {
    if Encoded(mem, ty, v).pos < |mem| then 0 else 1
  }

  datatype Item = Item(id: int, ty: Ty, v: Val) {
    ghost predicate Typed() { WellFormed(ty) && HasType(ty, v) }
  }

  /** Several calls one after the other. */
  ghost function PublishAll(o: Out, configured: bool, items: seq<Item>): (r: Out)
    requires Sized(|o.mem|) && forall m <- items :: m.Typed()
    ensures |r.mem| == |o.mem|
  {
    if items == [] then o else
    var m := items[|items| - 1];
    assert m in items && m.Typed();
    Publishing(PublishAll(o, configured, items[..|items| - 1]), configured, m.id, m.ty, m.v).0
  }

  lemma PublishOneMore(o: Out, configured: bool, items: seq<Item>, m: Item)
    requires Sized(|o.mem|) && (forall i <- items :: i.Typed()) && m.Typed()
    ensures (forall i <- items + [m] :: i.Typed())
    ensures PublishAll(o, configured, items + [m])
            == Publishing(PublishAll(o, configured, items), configured, m.id, m.ty, m.v).0
  {
    hide Publishing, Item.Typed;
    assert (items + [m])[..|items|] == items;
  }

  // ---- the wire as a stream of frames ----

  /** The frames that a call of publish sends, over what `mem` held: none while the node is not configured, else one, of
      exactly the bytes that were serialized, or of the complaint. */
  ghost function SentOne(mem: seq<byte>, configured: bool, m: Item): (r: seq<Sent>)
    requires Sized(|mem|) && m.Typed()
    ensures |r| <= 1
  {
    if m.id >= 100 && !configured then [] else
    var f := Encoded(mem, m.ty, m.v);
    if f.pos < |mem| then [Sent([], TopicOf(m.id), f.mem[..f.pos])] else
    ComplaintIsSent(f.mem);
    var g := Encoded(f.mem, LOG, COMPLAINT);
    [Sent([], ID_LOG, g.mem[..g.pos])]
  }

  lemma FrameStreams(mem: seq<byte>, n: nat, topic: u16, wire: seq<byte>, limit: nat)
    requires n < |mem| < 0x1_0000 && |mem| <= limit + 1
    ensures Sendable(Sent([], topic, mem[..n]), limit)
    ensures WithFrame(wire, topic, mem, n).wire == wire + Stream([Sent([], topic, mem[..n])], limit)
  {
    hide Frame, Complement, BodySum;
    assert Quiet([]);
    var ms, f := [Sent([], topic, mem[..n])], Frame(topic, mem[..n]);
    assert ms[1..] == [];
    assert Stream(ms, limit) == [] + f + [] == f;
  }

  /** Every call of publish adds a stream of well-formed frames, whatever became of its message. */
  lemma PublishingStreams(o: Out, configured: bool, m: Item, limit: nat)
    requires Sized(|o.mem|) && m.Typed() && |o.mem| <= limit + 1
    ensures (forall x <- SentOne(o.mem, configured, m) :: Sendable(x, limit))
    ensures Publishing(o, configured, m.id, m.ty, m.v).0.wire == o.wire + Stream(SentOne(o.mem, configured, m), limit)
  {
    hide Encoded, WithFrame, WellFormed, HasType, Stream, Sendable, LOG, COMPLAINT, Answers;
    var f := Encoded(o.mem, m.ty, m.v);
    if m.id >= 100 && !configured {
      NothingStreams(o.wire, limit);
    } else if f.pos < |o.mem| {
      FrameStreams(f.mem, f.pos, TopicOf(m.id), o.wire, limit);
    } else {
      ComplaintIsSent(f.mem);
      var g := Encoded(f.mem, LOG, COMPLAINT);
      FrameStreams(g.mem, g.pos, ID_LOG, o.wire, limit);
    }
  }

  lemma NothingStreams(wire: seq<byte>, limit: nat)
    ensures wire == wire + Stream([], limit)
  {
  }

  /** The frames of several calls, call by call, each over what the ones before it left in the buffer. */
  ghost function FramesOf(o: Out, configured: bool, items: seq<Item>): (r: seq<seq<Sent>>)
    requires Sized(|o.mem|) && forall m <- items :: m.Typed()
    ensures |r| == |items|
  {
    if items == [] then [] else
    var init, m := items[..|items| - 1], items[|items| - 1];
    assert m in items && m.Typed();
    FramesOf(o, configured, init) + [SentOne(PublishAll(o, configured, init).mem, configured, m)]
  }

  ghost predicate AllSendable(ms: seq<Sent>, limit: nat) { forall x <- ms :: Sendable(x, limit) }

  lemma {:induction false} StreamJoin(a: seq<Sent>, b: seq<Sent>, limit: nat)
    requires AllSendable(a, limit) && AllSendable(b, limit)
    ensures AllSendable(a + b, limit) && Stream(a + b, limit) == Stream(a, limit) + Stream(b, limit)
    decreases |a|
  {
    hide Sending, Sendable;
    if a == [] {
      assert a + b == b;
    } else {
      assert (a + b)[1..] == a[1..] + b;
      StreamJoin(a[1..], b, limit);
      Joined(Sending(a[0], limit), Stream(a[1..], limit), Stream(b, limit));
    }
  }

  lemma Joined(a: seq<byte>, b: seq<byte>, c: seq<byte>)
    ensures a + b + c == a + (b + c)
  {
  }

  /** The wire grows by a stream of well-formed frames. */
  ghost predicate Grows(before: seq<byte>, after: seq<byte>, limit: nat) {
    exists ms: seq<Sent> :: AllSendable(ms, limit) && after == before + Stream(ms, limit)
  }

  lemma GrowsNot(wire: seq<byte>, limit: nat)
    ensures Grows(wire, wire, limit)
  {
    NothingStreams(wire, limit);
    assert AllSendable([], limit);
  }

  lemma GrowsOn(a: seq<byte>, b: seq<byte>, c: seq<byte>, limit: nat)
    requires Grows(a, b, limit) && Grows(b, c, limit)
    ensures Grows(a, c, limit)
  {
    hide Sendable, Stream;
    var ms :| AllSendable(ms, limit) && b == a + Stream(ms, limit);
    var ns :| AllSendable(ns, limit) && c == b + Stream(ns, limit);
    StreamJoin(ms, ns, limit);
    Joined(a, Stream(ms, limit), Stream(ns, limit));
  }

  lemma GrowsIsPrefix(a: seq<byte>, b: seq<byte>, limit: nat)
    requires Grows(a, b, limit)
    ensures |a| <= |b| && b[..|a|] == a
  {
  }

  lemma PublishingGrows(o: Out, configured: bool, m: Item, limit: nat)
    requires Sized(|o.mem|) && m.Typed() && |o.mem| <= limit + 1
    ensures Grows(o.wire, Publishing(o, configured, m.id, m.ty, m.v).0.wire, limit)
  {
    hide Publishing, SentOne, Sendable, Stream, Item.Typed;
    PublishingStreams(o, configured, m, limit);
    assert AllSendable(SentOne(o.mem, configured, m), limit);
  }

  /** A whole run of publish calls. */
  lemma {:induction false} PublishAllStreams(o: Out, configured: bool, items: seq<Item>, limit: nat)
    requires Sized(|o.mem|) && (forall m <- items :: m.Typed()) && |o.mem| <= limit + 1
    ensures AllSendable(Flatten(FramesOf(o, configured, items)), limit)
    ensures PublishAll(o, configured, items).wire == o.wire + Stream(Flatten(FramesOf(o, configured, items)), limit)
    decreases |items|
  {
    hide Publishing, SentOne, Sendable, Stream, Item.Typed, Flatten;
    if items == [] {
      FlattenNothing<Sent>();
      NothingStreams(o.wire, limit);
    } else {
      var init, m := items[..|items| - 1], items[|items| - 1];
      assert m in items;
      PublishAllStreams(o, configured, init, limit);
      var p, frames := PublishAll(o, configured, init), FramesOf(o, configured, init);
      var one := SentOne(p.mem, configured, m);
      PublishingStreams(p, configured, m, limit);
      StreamJoin(Flatten(frames), one, limit);
      FlattenOneMore(frames, one);
      Joined(o.wire, Stream(Flatten(frames), limit), Stream(one, limit));
    }
  }

  lemma FlattenNothing<T>()
    ensures Flatten<T>([]) == []
  {
  }

  lemma FlattenOneMore<T>(ss: seq<seq<T>>, s: seq<T>)
    ensures Flatten(ss + [s]) == Flatten(ss) + s
  {
    FlattenAppend(ss, [s]);
    assert [s][1..] == [];
  }

  lemma PublishAllGrows(o: Out, configured: bool, items: seq<Item>, limit: nat)
    requires Sized(|o.mem|) && (forall m <- items :: m.Typed()) && |o.mem| <= limit + 1
    ensures Grows(o.wire, PublishAll(o, configured, items).wire, limit)
  {
    hide PublishAll, FramesOf, Stream, Item.Typed, AllSendable;
    PublishAllStreams(o, configured, items, limit);
  }

  /** What each call has sent. */
  lemma {:induction false} FramesAt(o: Out, configured: bool, items: seq<Item>, i: nat)
    requires Sized(|o.mem|) && (forall m <- items :: m.Typed()) && i < |items|
    ensures items[i].Typed() && (forall m <- items[..i] :: m.Typed())
    ensures FramesOf(o, configured, items)[i] == SentOne(PublishAll(o, configured, items[..i]).mem, configured, items[i])
    decreases |items|
  {
    hide PublishAll, SentOne, Item.Typed;
    assert items[i] in items;
    if i < |items| - 1 {
      var init := items[..|items| - 1];
      assert init[..i] == items[..i];
      FramesAt(o, configured, init, i);
    }
  }

  /** The recursive call: the complaint is one frame on topic ID_LOG. */
  lemma ComplaintIsPublished(o: Out, configured: bool)
    requires Sized(|o.mem|)
    ensures WellFormed(LOG) && HasType(LOG, COMPLAINT) && Depth(o.mem, LOG, COMPLAINT) == 0
    ensures Publishable(o, configured, ID_LOG, LOG, COMPLAINT)
    ensures Publishing(o, configured, ID_LOG, LOG, COMPLAINT).0 == Complaining(o)
  {
    assert ID_LOG < 100 && TopicOf(ID_LOG) == ID_LOG;
    hide *;
    ComplaintIsSent(o.mem);
    ShortIsPublished(o, configured, ID_LOG, LOG, COMPLAINT, Encoded(o.mem, LOG, COMPLAINT));
    ComplainingIs(o, LOG, COMPLAINT, Encoded(o.mem, LOG, COMPLAINT));
  }

  lemma ComplainingIs(o: Out, ty: Ty, v: Val, f: Flat)
    requires Sized(|o.mem|) && ty == LOG && v == COMPLAINT && WellFormed(ty) && HasType(ty, v)
    requires f == Encoded(o.mem, ty, v) && f.pos < |f.mem| < 0x1_0000
    ensures Complaining(o) == WithFrame(o.wire, ID_LOG, f.mem, f.pos)
  {
    hide WellFormed, HasType, Encoded, WithFrame;
  }

  /** The two bytes of the id that the header carries: the id itself, if it has no more. */
  function TopicOf(id: int): (t: u16)
    ensures 0 <= id < 0x1_0000 ==> t == id
  {
    id % 0x1_0000
  }

  lemma ShortIsPublished(o: Out, configured: bool, id: int, ty: Ty, v: Val, f: Flat)
    requires WellFormed(ty) && HasType(ty, v) && (id >= 100 ==> configured)
    requires f == Encoded(o.mem, ty, v) && f.pos < |f.mem| < 0x1_0000
    ensures Publishable(o, configured, id, ty, v) && Depth(o.mem, ty, v) == 0
    ensures WithFrame(o.wire, TopicOf(id), f.mem, f.pos) == Publishing(o, configured, id, ty, v).0
    ensures Publishing(o, configured, id, ty, v).1 == 8 + f.pos
  {
    hide WellFormed, HasType, Encoded, WithFrame;
  }

  lemma LongIsPublished(o: Out, configured: bool, id: int, ty: Ty, v: Val, f: Flat)
    requires WellFormed(ty) && HasType(ty, v) && Sized(|o.mem|) && (id >= 100 ==> configured)
    requires f == Encoded(o.mem, ty, v) && f.pos >= |f.mem| && Sized(|f.mem|)
    ensures Publishable(o, configured, id, ty, v) && Depth(o.mem, ty, v) == 1
    ensures Publishing(o, configured, id, ty, v) == (Complaining(Out(f.mem, o.wire)), -1)
  {
    hide WellFormed, HasType, Encoded, WithFrame, Complaining;
  }

  lemma SizedIsPublishable(o: Out, configured: bool, id: int, ty: Ty, v: Val)
    requires WellFormed(ty) && HasType(ty, v) && Sized(|o.mem|)
    ensures Publishable(o, configured, id, ty, v)
  {
    hide WellFormed, HasType, Encoded;
  }

  /** The result of publish: how many bytes were written for the message, or that it was dropped, or that nothing was sent. */
  lemma ResultIsLength(o: Out, configured: bool, id: int, ty: Ty, v: Val)
    requires WellFormed(ty) && HasType(ty, v) && Publishable(o, configured, id, ty, v)
    ensures var (r, code) := Publishing(o, configured, id, ty, v);
            && (id >= 100 && !configured ==> code == 0 && r.wire == o.wire)
            && ((id >= 100 ==> configured) && Encoded(o.mem, ty, v).pos < |o.mem| ==> |r.wire| == |o.wire| + code)
            && ((id >= 100 ==> configured) && Encoded(o.mem, ty, v).pos >= |o.mem| ==> code == -1)
  {
    hide WellFormed, HasType, Encoded, Frame, Complaining;
  }

  lemma MuteIsPublished(o: Out, id: int, ty: Ty, v: Val)
    requires WellFormed(ty) && HasType(ty, v) && |o.mem| < 0x1_0000 && id >= 100
    ensures Publishable(o, false, id, ty, v) && Publishing(o, false, id, ty, v) == (o, 0)
  {
  }

  lemma LogIsTyped(level: byte, text: seq<byte>)
    requires 0 !in text && |text| + 1 < 0x1_0000_0000
    ensures WellFormed(LOG) && HasType(LOG, LogRecord(level, text))
  {
    var v := LogRecord(level, text);
    assert HasType(Prim(1), v.vals[0]) && HasType(Str, v.vals[1]);
  }

  lemma HeaderThere(mem: seq<byte>)
    requires |mem| >= 4
    ensures var f := SerHeader(MACHINE, Flat(mem, 0, 0, false));
            f.pos == 4 && f.offset == 4 && !f.error && f.mem == HEADER + mem[4..]
  {
    HeaderBytes(MACHINE, Flat(mem, 0, 0, false));
    assert HEADER[..4] == HEADER;
  }

  lemma HeaderEnds(mem: seq<byte>)
    requires |mem| >= 4
    ensures var f := SerHeader(MACHINE, Flat(mem, 0, 0, false));
            f.Valid() && f.pos == 4 && f.offset == 4 && !f.error && |f.mem| == |mem|
  {
    hide SerHeader;
    HeaderThere(mem);
  }

  /** How far a message reaches: the layout of its fields behind the encapsulation header. */
  function Extent(ty: Ty, v: Val): nat
    requires WellFormed(ty) && HasType(ty, v)
  {
    Offsets(ty, v, 0, 4).1
  }

  /** The CDR error flag, which publish does not look at, is clear if and only if the message fits; then the
      payload reaches exactly to its end. */
  lemma CompleteIffFits(mem: seq<byte>, ty: Ty, v: Val)
    requires WellFormed(ty) && HasType(ty, v) && |mem| >= 4
    ensures var f := Encoded(mem, ty, v);
            && (!f.error <==> Extent(ty, v) <= |mem|)
            && (!f.error ==> f.pos == Extent(ty, v))
  {
    hide Ser, SerHeader, Offsets, WellFormed, HasType, Ahead;
    var h := SerHeader(MACHINE, Flat(mem, 0, 0, false));
    HeaderThere(mem);
    SerFits(ty, v, MACHINE, h);
    if !Encoded(mem, ty, v).error {
      SerFollowsLayout(ty, v, MACHINE, h);
      SerAhead(ty, v, MACHINE, h);
      AheadParts(h, Encoded(mem, ty, v));
    }
  }

  lemma AheadParts(f: Flat, r: Flat)
    requires Ahead(f, r)
    ensures r.pos - f.pos == r.offset - f.offset && f.pos <= r.pos && (f.error ==> r == f)
  {
  }

  // ---- when publish returns ----

  lemma HeaderShort(mem: seq<byte>)
    requires |mem| < 4
    ensures var f := SerHeader(MACHINE, Flat(mem, 0, 0, false)); f.error && f.pos == |mem| && |f.mem| == |mem|
  {
    hide Put, PutArray, Overwrite;
    var f := Flat(mem, 0, 0, false);
    PutByteIs(f, MACHINE, 0);
    var a := CopyIn(f, [0]);
    PutByteIs(a, MACHINE, 1);
    OptionsAre(CopyIn(a, [1]));
  }

  lemma OptionsAre(b: Flat)
    requires b.Valid()
    ensures PutArray(b, MACHINE, 1, [[0], [0]]) == CopyIn(b, [0, 0])
  {
    hide CopyIn;
    assert Flatten<byte>([[0], [0]]) == [0, 0] by {
      assert Flatten<byte>([[0], [0]]) == [0] + Flatten<byte>([[0]]);
    }
    assert Skip(b, Pad(b.offset, 1)) == b;
  }

  /** A text behind a level: where the serializer comes to rest, with room for it or without. */
  lemma TextRests(f: Flat, text: seq<byte>)
    requires f.Valid() && f.pos == f.offset == 5 && !f.error && |text| + 1 < 0x1_0000_0000
    ensures PutString(f, MACHINE, text).pos
            == if |f.mem| < 8 then |f.mem| else if |f.mem| < 12 then 8 else 12 + Min(|text| + 1, |f.mem| - 12)
  {
    hide Overwrite, PutString, LE32;
    PutStringIs(f, MACHINE, text);
    assert Pad(5, 4) == 3;
  }

  lemma LevelRests(f: Flat, level: byte)
    requires f.Valid() && f.pos == f.offset == 4 && !f.error
    ensures var g := Put(f, MACHINE, [level]);
            if |f.mem| == 4 then g == f.(error := true) else g.pos == g.offset == 5 && !g.error && |g.mem| == |f.mem|
  {
    PutByteIs(f, MACHINE, level);
    hide Put;
    assert Overwrite(f.mem, 4, []) == f.mem;
  }

  /** Where a log record comes to rest in a buffer of any size. */
  lemma LogRests(mem: seq<byte>, level: byte, text: seq<byte>)
    requires 0 !in text && |text| + 1 < 0x1_0000_0000
    ensures WellFormed(LOG) && HasType(LOG, LogRecord(level, text))
    ensures Encoded(mem, LOG, LogRecord(level, text)).pos
            == if |mem| < 8 then |mem| else if |mem| < 12 then 8 else 12 + Min(|text| + 1, |mem| - 12)
  {
    LogIsTyped(level, text);
    LogParts(level, text);
    FlatIsValid(mem);
    hide Ser, SerHeader, WellFormed, HasType;
    var h := SerHeader(MACHINE, Flat(mem, 0, 0, false));
    TwoFields(Prim(1), VPrim([level]), Str, VStr(text), h);
    if |mem| < 4 {
      HeaderShort(mem);
      SerAhead(LOG, LogRecord(level, text), MACHINE, h);
    } else {
      HeaderEnds(mem);
      LevelRests(h, level);
      var g := Put(h, MACHINE, [level]);
      SerParts(level, text, h, g);
      if |mem| == 4 { SerAhead(Str, VStr(text), MACHINE, g); } else { TextRests(g, text); }
    }
  }

  lemma LogParts(level: byte, text: seq<byte>)
    requires 0 !in text && |text| + 1 < 0x1_0000_0000
    ensures WellFormed(Prim(1)) && HasType(Prim(1), VPrim([level])) && WellFormed(Str) && HasType(Str, VStr(text))
  {
  }

  lemma SerParts(level: byte, text: seq<byte>, h: Flat, g: Flat)
    requires h.Valid() && g.Valid() && 0 !in text && |text| + 1 < 0x1_0000_0000
    ensures WellFormed(Prim(1)) && HasType(Prim(1), VPrim([level])) && WellFormed(Str) && HasType(Str, VStr(text))
    ensures Ser(Prim(1), VPrim([level]), MACHINE, h) == Put(h, MACHINE, [level])
    ensures Ser(Str, VStr(text), MACHINE, g) == PutString(g, MACHINE, text)
  {
  }

  /** The complaint itself goes out, whatever the buffer holds, if and only if its size is 70 or more, or 9 to 11: in
      buffers that small it goes out cut off.  The buffers of ros.h are large enough. */
  lemma ComplaintIsSentIff(mem: seq<byte>)
    ensures WellFormed(LOG) && HasType(LOG, COMPLAINT)
    ensures Encoded(mem, LOG, COMPLAINT).pos < |mem| <==> Answers(|mem|)
  {
    DroppedText();
    hide WellFormed, HasType, Encoded;
    LogRests(mem, 3, DROPPED);
  }

  lemma ComplaintIsSent(mem: seq<byte>)
    requires Answers(|mem|)
    ensures WellFormed(LOG) && HasType(LOG, COMPLAINT) && Encoded(mem, LOG, COMPLAINT).pos < |mem|
  {
    hide *;
    ComplaintIsSentIff(mem);
  }

  /** The buffer when publish has called itself `k` times: the message first, and then the complaint each time. */
  function Retried(mem: seq<byte>, ty: Ty, v: Val, k: nat): (r: seq<byte>)
    requires WellFormed(ty) && HasType(ty, v)
    ensures |r| == |mem|
  {
    if k == 0 then mem else
    ComplaintIsSentIff(mem);
    var before := Retried(mem, ty, v, k - 1);
    if k == 1 then Encoded(before, ty, v).mem else Encoded(before, LOG, COMPLAINT).mem
  }

  /** The call at that depth sends what it was called for, and so returns without calling itself. */
  predicate ReturnsAt(mem: seq<byte>, ty: Ty, v: Val, k: nat)
    requires WellFormed(ty) && HasType(ty, v)
  {
    ComplaintIsSentIff(mem);
    var m := Retried(mem, ty, v, k);
    if k == 0 then Encoded(m, ty, v).pos < |m| else Encoded(m, LOG, COMPLAINT).pos < |m|
  }

  /** A publish that is not silenced returns if and only if its message goes out or the complaint does; otherwise the
      complaint calls itself again and again, with a buffer of the same size. */
  lemma EndsIff(mem: seq<byte>, ty: Ty, v: Val)
    requires WellFormed(ty) && HasType(ty, v)
    ensures (exists k: nat :: ReturnsAt(mem, ty, v, k)) <==> Encoded(mem, ty, v).pos < |mem| || Answers(|mem|)
  {
    hide Answers, Encoded, WellFormed, HasType;
    forall k: nat ensures ReturnsAt(mem, ty, v, k) <==> if k == 0 then Encoded(mem, ty, v).pos < |mem| else Answers(|mem|) {
      ComplaintIsSentIff(Retried(mem, ty, v, k));
    }
    assert ReturnsAt(mem, ty, v, 0) <==> Encoded(mem, ty, v).pos < |mem|;
    assert ReturnsAt(mem, ty, v, 1) <==> Answers(|mem|);
  }

  lemma DroppedText()
    ensures 0 !in DROPPED && |DROPPED| == 56
  {
  }

  /** These bytes are the characters of a text. */
  predicate Spells(s: seq<byte>, text: string) {
    |s| == |text| && forall i :: 0 <= i < |s| ==> s[i] == text[i] as int
  }

  /** What the complaint says, and how urgently: ERROR is level 3. */
  lemma ComplaintSays()
    ensures Spells(DROPPED_START, "Message from device") && Spells(DROPPED_MIDDLE, " dropped: message")
    ensures Spells(DROPPED_END, " larger than buffer.")
    ensures COMPLAINT == VMsg([VPrim([3]), VStr(DROPPED_START + DROPPED_MIDDLE + DROPPED_END)])
  {
  }

  // ---- what the receiver makes of a payload ----

  lemma DesHeaderReads(mem: seq<byte>)
    requires |mem| >= 4 && mem[0] == 0
    ensures DesHeader(MACHINE, Flat(mem, 0, 0, false)) == (Flat(mem, 4, 4, false), true)
  {
    var f := Flat(mem, 0, 0, false);
    assert Get(f, MACHINE, 1) == (Flat(mem, 1, 1, false), mem[0..1]);
    assert Get(Flat(mem, 1, 1, false), MACHINE, 1).0 == Flat(mem, 2, 2, false);
  }

  /** A receiver that has the payload at the start of its buffer, whatever follows it there, reads the header
      and then exactly the value that was published, provided the error flag was clear. */
  lemma PayloadDecodes(mem: seq<byte>, ty: Ty, v: Val, received: seq<byte>)
    requires WellFormed(ty) && HasType(ty, v) && |mem| >= 4 && !Encoded(mem, ty, v).error
    requires var f := Encoded(mem, ty, v);
             f.pos <= |received| && received[..f.pos] == f.mem[..f.pos]
    ensures var f := Encoded(mem, ty, v);
            var (g, ok) := DesHeader(MACHINE, Flat(received, 0, 0, false));
            ok && Des(ty, MACHINE, g) == Read(Flat(received, f.pos, f.offset, false), v, true)
  {
    hide Ser, Des, SerHeader, DesHeader, WellFormed, HasType;
    var h, f := SerHeader(MACHINE, Flat(mem, 0, 0, false)), Encoded(mem, ty, v);
    HeaderThere(mem);
    SerAhead(ty, v, MACHINE, h);
    forall i | 0 <= i < f.pos ensures received[i] == f.mem[i] {
      assert received[i] == received[..f.pos][i] == f.mem[..f.pos][i];
    }
    assert received[0] == f.mem[0] == h.mem[0] == HEADER[0];
    DesHeaderReads(received);
    RoundTrip(ty, v, MACHINE, h, Flat(received, 4, 4, false));
  }

  // ---- the error that publish does not notice ----

  /** A text that leaves one byte, and then two bytes more: the last field is lost, the serializer has set its
      error flag, and the frame goes out all the same. */
  lemma TruncatedIsSent(mem: seq<byte>, text: seq<byte>, last: seq<byte>)
    requires 10 <= |mem| < 0x1_0000 && |mem| % 2 == 1 && |text| == |mem| - 10 && 0 !in text && |last| == 2
    ensures var ty, v := Msg([Str, Prim(2)]), VMsg([VStr(text), VPrim(last)]);
            && WellFormed(ty) && HasType(ty, v)
            && Encoded(mem, ty, v).error && Encoded(mem, ty, v).pos < |mem|
  {
    hide *;
    FlatIsValid(mem);
    var h := SerHeader(MACHINE, Flat(mem, 0, 0, false));
    HeaderEnds(mem);
    TextEnds(h, text);
    TwoIsPrimitive(last);
    OddIsEvenLess(|mem|);
    NoRoomForTwo(Ser(Str, VStr(text), MACHINE, h), last);
    TwoFields(Str, VStr(text), Prim(2), VPrim(last), h);
    EncodedIs(mem, Msg([Str, Prim(2)]), VMsg([VStr(text), VPrim(last)]));
  }

  lemma FlatIsValid(mem: seq<byte>)
    ensures Flat(mem, 0, 0, false).Valid()
  {
  }

  lemma OddIsEvenLess(n: nat)
    requires n % 2 == 1
    ensures (n - 1) % 2 == 0
  {
  }

  lemma EncodedIs(mem: seq<byte>, ty: Ty, v: Val)
    requires WellFormed(ty) && HasType(ty, v)
    ensures Encoded(mem, ty, v) == Ser(ty, v, MACHINE, SerHeader(MACHINE, Flat(mem, 0, 0, false)))
  {
    hide WellFormed, HasType, Ser, SerHeader;
  }

  lemma TwoIsPrimitive(last: seq<byte>)
    requires |last| == 2
    ensures WellFormed(Prim(2)) && HasType(Prim(2), VPrim(last))
  {
  }

  lemma TextEnds(h: Flat, text: seq<byte>)
    requires h.Valid() && !h.error && h.pos == h.offset == 4
    requires 9 + |text| <= |h.mem| && 0 !in text && |text| + 1 < 0x1_0000_0000
    ensures WellFormed(Str) && HasType(Str, VStr(text))
    ensures var f := Ser(Str, VStr(text), MACHINE, h); f.Valid() && !f.error && f.pos == f.offset == 9 + |text|
  {
    hide Ser, Ahead;
    var f := Ser(Str, VStr(text), MACHINE, h);
    SerFits(Str, VStr(text), MACHINE, h);
    SerFollowsLayout(Str, VStr(text), MACHINE, h);
    SerAhead(Str, VStr(text), MACHINE, h);
    AheadParts(h, f);
  }

  lemma NoRoomForTwo(f: Flat, last: seq<byte>)
    requires f.Valid() && !f.error && f.pos + 1 == |f.mem| && f.offset % 2 == 0 && |last| == 2
    ensures WellFormed(Prim(2)) && HasType(Prim(2), VPrim(last))
    ensures Ser(Prim(2), VPrim(last), MACHINE, f) == f.(error := true)
  {
    RemIsRemainder(f.offset, 2);
  }

  lemma TwoFields(t1: Ty, v1: Val, t2: Ty, v2: Val, h: Flat)
    requires h.Valid() && WellFormed(t1) && WellFormed(t2) && HasType(t1, v1) && HasType(t2, v2)
    ensures var ty, v := Msg([t1, t2]), VMsg([v1, v2]);
            && WellFormed(ty) && HasType(ty, v)
            && Ser(ty, v, MACHINE, h) == Ser(t2, v2, MACHINE, Ser(t1, v1, MACHINE, h))
  {
    assert [t1, t2][1..] == [t2] && [v1, v2][1..] == [v2];
    TwoTyped(t1, v1, t2, v2);
    hide Ser, WellFormed, HasType;
    OneField(t2, v2, Ser(t1, v1, MACHINE, h));
    SerMsg([t1, t2], [v1, v2], h);
  }

  lemma SerMsg(tys: seq<Ty>, vs: seq<Val>, h: Flat)
    requires h.Valid() && WellFormed(Msg(tys)) && HasType(Msg(tys), VMsg(vs))
    ensures (forall t <- tys :: WellFormed(t)) && HaveTypes(tys, vs)
    ensures Ser(Msg(tys), VMsg(vs), MACHINE, h) == SerFields(tys, vs, MACHINE, h)
  {
  }

  lemma OneField(t: Ty, v: Val, g: Flat)
    requires g.Valid() && WellFormed(t) && HasType(t, v)
    ensures HaveTypes([t], [v]) && SerFields([t], [v], MACHINE, g) == Ser(t, v, MACHINE, g)
  {
    hide Ser, WellFormed, HasType;
  }

  lemma TwoTyped(t1: Ty, v1: Val, t2: Ty, v2: Val)
    requires WellFormed(t1) && WellFormed(t2) && HasType(t1, v1) && HasType(t2, v2)
    ensures WellFormed(Msg([t1, t2])) && HasType(Msg([t1, t2]), VMsg([v1, v2]))
  {
    var tys, vs := [t1, t2], [v1, v2];
    assert forall i :: 0 <= i < 2 ==> HasType(tys[i], vs[i]);
  }
}
