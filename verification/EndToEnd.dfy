/**
 Both sides together: what one side publishes or writes, the other dispatches and reads, and the topic negotiation of a
 device, processed by the session, leaves the session's maps in agreement with the device's tables.
 */
module EndToEnd {
  import opened Bytes
  import opened Frames
  import opened CdrFlat
  import opened Messages
  import opened Alignment
  import opened Outbox
  import opened RosSide
  import opened ServerChain
  import opened Session
  import opened Routing
  import opened Slots
  import opened DeviceParser
  import opened SpinOnce

  // ---- device to server ----

  /** Whoever has the payload at the start of a buffer reads the value from it: the device's own code does, and rclcpp does
      unless the value has an 8-byte primitive. */
  ghost predicate Decodes(payload: seq<byte>, ty: Ty, v: Val)
    requires WellFormed(ty) && HasType(ty, v)
  {
    forall received: seq<byte> :: |payload| <= |received| && received[..|payload|] == payload ==> ReadByBoth(received, ty, v)
  }

  ghost predicate ReadByBoth(received: seq<byte>, ty: Ty, v: Val)
    requires WellFormed(ty) && HasType(ty, v)
  {
    DeviceReads(received, ty, v) && (!WritesEight(ty, v) ==> RosReads(received, ty, v))
  }

  lemma EncodedDecodes(mem: seq<byte>, ty: Ty, v: Val)
    requires WellFormed(ty) && HasType(ty, v) && |mem| >= 4 && !Encoded(mem, ty, v).error
    ensures var f := Encoded(mem, ty, v); Decodes(f.mem[..f.pos], ty, v)
  {
    hide Encoded, DeviceReads, RosReads, WellFormed, HasType, WritesEight;
    var f := Encoded(mem, ty, v);
    forall received: seq<byte> | |f.mem[..f.pos]| <= |received| && received[..|f.mem[..f.pos]|] == f.mem[..f.pos]
      ensures ReadByBoth(received, ty, v)
    {
      assert StartsWith(received, f);
      DeviceReadsDevice(mem, ty, v, received);
      if !WritesEight(ty, v) { RosReadsDevice(mem, ty, v, received); }
    }
  }

  /** One frame under the id of the message, with a payload that decodes to its value. */
  ghost predicate Carries(frames: seq<Sent>, m: Item)
    requires m.Typed()
  {
    |frames| == 1 && frames[0].topic == m.id % 0x1_0000 && Decodes(frames[0].payload, m.ty, m.v)
  }

  lemma TopicIs(id: int)
    ensures TopicOf(id) == id % 0x1_0000
    ensures 0 <= id < 0x1_0000 ==> id % 0x1_0000 == id
  {
  }

  /** What one call sends over `mem`: nothing while it is muted; the bytes that were serialized, as many as there are, under the
      id of the message; or something under the id of the log when there is no room for the checksum. */
  ghost predicate IsSent(frames: seq<Sent>, mem: seq<byte>, configured: bool, m: Item)
    requires m.Typed()
  {
    var f, muted := Encoded(mem, m.ty, m.v), m.id >= 100 && !configured;
    && (muted ==> frames == [])
    && (!muted ==> |frames| == 1 && frames[0].noise == [])
    && (!muted && f.pos < |mem| ==> frames[0].topic == m.id % 0x1_0000 && frames[0].payload == f.mem[..f.pos])
    && (!muted && f.pos >= |mem| ==> frames[0].topic == 7)
  }

  lemma SentOneIs(mem: seq<byte>, configured: bool, m: Item)
    requires Sized(|mem|) && m.Typed()
    ensures IsSent(SentOne(mem, configured, m), mem, configured, m)
  {
    TopicIs(m.id);
    hide Encoded, WellFormed, HasType, LOG, COMPLAINT, TopicOf, Answers;
    ComplaintIsSentIff(Encoded(mem, m.ty, m.v).mem);
  }

  /** A message is carried if it may be sent and fits. */
  lemma FittingIsCarried(mem: seq<byte>, configured: bool, m: Item)
    requires Sized(|mem|) && m.Typed() && (m.id >= 100 ==> configured) && Extent(m.ty, m.v) < |mem|
    ensures Carries(SentOne(mem, configured, m), m)
  {
    TopicIs(m.id);
    hide Encoded, Extent, Decodes, WellFormed, HasType, LOG, COMPLAINT, TopicOf;
    CompleteIffFits(mem, m.ty, m.v);
    EncodedDecodes(mem, m.ty, m.v);
  }

  /** Device to server.  Whatever the device publishes in a run, fitting or not, configured or not, the server chain
      dispatches exactly the frames that were sent, once each and in order: for each call what IsSent says, and for each message
      that fits one frame that carries it, under the message's own id if that has 16 bits. */
  lemma DeviceToServer(o: Out, configured: bool, items: seq<Item>, at: nat, capacity: nat)
    requires Sized(|o.mem|) && |o.mem| <= capacity && forall m <- items :: m.Typed()
    ensures var frames, wire := FramesOf(o, configured, items), PublishAll(o, configured, items).wire;
            && |o.wire| <= |wire| && wire[..|o.wire|] == o.wire
            && var r := Chain(SyncFirst, wire[|o.wire|..], at, capacity);
               r.stage == SyncFirst && r.left == [] && Contents(r.log) == Frames.Messages(Flatten(frames))
    ensures forall i :: 0 <= i < |items| ==> SentAt(o, configured, items, i)
  {
    hide FramesOf, PublishAll, Item.Typed, Stream, Sendable, Chain, Contents, Frames.Messages, SentAt;
    PublishAllStreams(o, configured, items, capacity - 1);
    var ms, wire := Flatten(FramesOf(o, configured, items)), PublishAll(o, configured, items).wire;
    assert wire[|o.wire|..] == Stream(ms, capacity - 1);
    ChainStream(ms, at, capacity, capacity - 1);
    forall i | 0 <= i < |items| ensures SentAt(o, configured, items, i) { EachIsSent(o, configured, items, i); }
  }

  /** What the call number `i` of a run has sent. */
  ghost predicate SentAt(o: Out, configured: bool, items: seq<Item>, i: nat)
    requires Sized(|o.mem|) && (forall m <- items :: m.Typed()) && i < |items|
  {
    var m, frames := items[i], FramesOf(o, configured, items)[i];
    && m.Typed() && (forall x <- items[..i] :: x.Typed())
    && IsSent(frames, PublishAll(o, configured, items[..i]).mem, configured, m)
    && ((m.id >= 100 ==> configured) && Extent(m.ty, m.v) < |o.mem| ==> Carries(frames, m))
  }

  lemma EachIsSent(o: Out, configured: bool, items: seq<Item>, i: nat)
    requires Sized(|o.mem|) && (forall m <- items :: m.Typed()) && i < |items|
    ensures SentAt(o, configured, items, i)
  {
    hide FramesOf, PublishAll, SentOne, IsSent, Carries, Extent, WellFormed, HasType;
    FramesAt(o, configured, items, i);
    var m := items[i];
    SentOneIs(PublishAll(o, configured, items[..i]).mem, configured, m);
    if (m.id >= 100 ==> configured) && Extent(m.ty, m.v) < |o.mem| {
      FittingIsCarried(PublishAll(o, configured, items[..i]).mem, configured, m);
    }
  }

  // ---- server to device ----

  /** Server to device.  What rclcpp serializes a value to, framed, reaches the handler for its topic exactly once, byte for
      byte, at the start of message_in; and the handler reads the value from there, whatever lies behind it, unless it has an
      8-byte primitive. */
  lemma ServerToDevice(p: Parser, topic: u16, mem: seq<byte>, ty: Ty, v: Val, at: nat)
    requires DeviceParser.Idle(p) && Dispatchable(p.maxSubscribers, topic)
    requires WellFormed(ty) && HasType(ty, v) && |mem| >= 4
    requires var f := RosEncoded(mem, ty, v); !f.error && f.pos <= |p.messageIn| && f.pos < 0x1_0000
    ensures var f := RosEncoded(mem, ty, v);
            var (q, log) := Feed(p, Frame(topic, f.mem[..f.pos]), at);
            && DeviceParser.Idle(q) && log == [Delivery(at + 8 + f.pos, topic, f.mem[..f.pos])]
            && StartsWith(q.messageIn, f)
            && (!WritesEight(ty, v) ==> DeviceReads(q.messageIn, ty, v))
  {
    hide Feed, RosEncoded, DeviceReads, Frame, Dispatchable, WellFormed, HasType, WritesEight;
    var f := RosEncoded(mem, ty, v);
    var payload := f.mem[..f.pos];
    FeedFrame(p, topic, payload, at);
    var q := Feed(p, Frame(topic, payload), at).0;
    assert StartsWith(q.messageIn, f);
    if !WritesEight(ty, v) { DeviceReadsRos(mem, ty, v, q.messageIn); }
  }

  /** A double with unequal halves, such as 1.0, is read from message_in as another one. */
  lemma DoubleIsMisdelivered(p: Parser, topic: u16, mem: seq<byte>, image: seq<byte>, at: nat)
    requires DeviceParser.Idle(p) && Dispatchable(p.maxSubscribers, topic)
    requires |mem| >= 12 && |p.messageIn| >= 16 && |image| == 8 && image[..4] != image[4..]
    ensures WellFormed(DOUBLE) && HasType(DOUBLE, DoubleVal(image))
    ensures var f := RosEncoded(mem, DOUBLE, DoubleVal(image));
            && f.pos == 12
            && !DeviceReads(Feed(p, Frame(topic, f.mem[..f.pos]), at).0.messageIn, DOUBLE, DoubleVal(image))
  {
    hide *;
    DoubleTyped(image);
    DoubleEnds(image);
    var v := DoubleVal(image);
    RosCompleteIffFits(mem, DOUBLE, v);
    MessageInStays(p, Frame(topic, RosEncoded(mem, DOUBLE, v).mem[..12]), at);
    ServerToDevice(p, topic, mem, DOUBLE, v, at);
    DoubleFromRos(mem, image, Feed(p, Frame(topic, RosEncoded(mem, DOUBLE, v).mem[..12]), at).0.messageIn);
  }

  lemma {:induction false} MessageInStays(p: Parser, s: seq<byte>, at: nat)
    ensures |Feed(p, s, at).0.messageIn| == |p.messageIn|
    decreases |s|
  {
    if s != [] { MessageInStays(Step(p, s[0], at).0, s[1..], at + 1); }
  }

  /** A subscriber of the session: rclcpp's serialized message goes to the device through write_message. */
  method Relay(mem: seq<byte>, ty: Ty, v: Val, topic: u16, ghost p: Parser, ghost at: nat) returns (wire: seq<byte>, thrown: bool)
    requires WellFormed(ty) && HasType(ty, v) && |mem| >= 4
    requires var f := RosEncoded(mem, ty, v); !f.error && f.pos < 0x1_0000
    requires DeviceParser.Idle(p) && Dispatchable(p.maxSubscribers, topic)
    ensures thrown <==> RosEncoded(mem, ty, v).pos + 8 >= 0x1_0000
    ensures !thrown && RosEncoded(mem, ty, v).pos <= |p.messageIn| ==>
              var (q, log) := Feed(p, wire, at);
              && |log| == 1 && log[0].topic == topic && StartsWith(q.messageIn, RosEncoded(mem, ty, v))
              && (!WritesEight(ty, v) ==> DeviceReads(q.messageIn, ty, v))
  {
    hide Feed, RosEncoded, DeviceReads, Frame, Dispatchable, WellFormed, HasType, WritesEight, StartsWith, DeviceParser.Idle;
    var f := RosEncoded(mem, ty, v);
    wire, thrown := WriteMessage(f.mem[..f.pos], topic);
    if !thrown && f.pos <= |p.messageIn| {
      ServerToDevice(p, topic, mem, ty, v, at);
    }
  }

  // ---- negotiation ----

  lemma {:induction false} PublishAllAppend(o: Out, configured: bool, a: seq<Item>, b: seq<Item>)
    requires Sized(|o.mem|) && (forall m <- a :: m.Typed()) && (forall m <- b :: m.Typed())
    ensures (forall m <- a + b :: m.Typed())
    ensures PublishAll(PublishAll(o, configured, a), configured, b) == PublishAll(o, configured, a + b)
    decreases |b|
  {
    hide Publishing, Item.Typed;
    if b == [] {
      assert a + b == a;
    } else {
      var init, m := b[..|b| - 1], b[|b| - 1];
      assert (a + b)[..|a + b| - 1] == a + init && (a + b)[|a + b| - 1] == m;
      PublishAllAppend(o, configured, a, init);
    }
  }

  /** The announcement of a slot fits the buffer. */
  ghost predicate Announceable(ss: seq<Setup>, size: nat, room: nat)
    requires size < 0x1_0000_0000
  {
    forall s <- ss :: Named(s) && InfoFits(s, size, room)
  }

  ghost predicate InfoFits(s: Setup, size: nat, room: nat)
    requires size < 0x1_0000_0000 && Named(s)
  {
    InfoIsTyped(s, size);
    Extent(TOPIC_INFO, InfoOf(s, size)) < room
  }

  lemma InfoHasNoEight(s: Setup, size: nat)
    requires Named(s) && size < 0x1_0000_0000
    ensures WellFormed(TOPIC_INFO) && HasType(TOPIC_INFO, InfoOf(s, size)) && !WritesEight(TOPIC_INFO, InfoOf(s, size))
  {
    InfoIsTyped(s, size);
    hide LE32;
    var tys, vs := TOPIC_INFO.fields, InfoOf(s, size).vals;
    forall i | 0 <= i < 5 ensures !WritesEight(tys[i], vs[i]) {
      if { case i == 0 => case i == 1 => case i == 2 => case i == 3 => case i == 4 => }
    }
  }

  /** What a setup handler deserializes, if that succeeds. */
  datatype Info = Nothing | Info(v: Val)

  function ReadInfo(payload: seq<byte>): (r: Info)
    ensures r.Info? ==> HasType(TOPIC_INFO, r.v)
  {
    if |payload| < 4 || payload[0] != 0 || payload[1] != 1 then Nothing else
    InfoIsWellFormed();
    var r := Des(TOPIC_INFO, MACHINE, Flat(payload, 4, 0, false));
    if r.ok && !r.f.error && HasType(TOPIC_INFO, r.v) then Info(r.v) else Nothing
  }

  lemma InfoIsWellFormed()
    ensures WellFormed(TOPIC_INFO)
  {
  }

  /** read_body hands a message to the callback of its topic; a setup handler reads the announcement and applies it, others
      leave the maps alone, and so does one that throws. */
  function Heard(m: Maps, d: Delivery): Maps {
    if 0 <= d.topic < 0x1_0000 && d.topic in m.callbacks && m.callbacks[d.topic].SetupOf? && ReadInfo(d.payload).Info? then
      Apply(m, Reported(m.callbacks[d.topic].role, m.callbacks[d.topic].kind, ReadInfo(d.payload).v))
    else m
  }

  function HeardAll(m: Maps, log: seq<Delivery>): Maps {
    if log == [] then m else Heard(HeardAll(m, log[..|log| - 1]), log[|log| - 1])
  }

  /** A message from which a session reads the announcement `s`. */
  predicate Tells(d: Delivery, s: Setup) {
    && d.topic == Endpoint(s.role, s.kind) && ReadInfo(d.payload).Info?
    && Reported(s.role, s.kind, ReadInfo(d.payload).v) == s
  }

  /** A message from which a session reads the size of the buffer behind an announcement. */
  predicate TellsSize(d: Delivery, size: nat) {
    ReadInfo(d.payload).Info? && ReportedSize(ReadInfo(d.payload).v) == size
  }

  predicate Told(log: seq<Delivery>, ss: seq<Setup>) {
    |log| == |ss| && forall i :: 0 <= i < |ss| ==> Tells(log[i], ss[i])
  }

  /** While the setup handlers are in place, processing such a message applies its announcement. */
  lemma TellsApplies(m: Maps, d: Delivery, s: Setup)
    requires Tells(d, s) && Endpoint(s.role, s.kind) in m.callbacks
    requires m.callbacks[Endpoint(s.role, s.kind)] == SetupOf(s.role, s.kind)
    ensures Heard(m, d) == Apply(m, s)
  {
    hide ReadInfo, Apply, Reported, Endpoint;
  }

  /** Processing what was dispatched applies the announcements, one after the other. */
  lemma {:induction false} ToldIsApplied(log: seq<Delivery>, ss: seq<Setup>)
    requires Told(log, ss) && forall s <- ss :: s.id >= 100
    ensures HeardAll(Start(), log) == ApplyAll(Start(), ss)
    decreases |log|
  {
    hide Heard, Apply, Tells, Start, Endpoint;
    if log != [] {
      var n := |log| - 1;
      assert forall s <- ss[..n] :: s in ss;
      ToldIsApplied(log[..n], ss[..n]);
      SetupsAreKept(ss[..n], ss[n].role, ss[n].kind);
      TellsApplies(ApplyAll(Start(), ss[..n]), log[n], ss[n]);
    }
  }

  /** The items of both tables, publishers first. */
  ghost function TableItems(pubs: seq<Setup>, subs: seq<Setup>, outputSize: nat, inputSize: nat): seq<Item>
    requires outputSize < 0x1_0000_0000 && inputSize < 0x1_0000_0000
  {
    Items(pubs, outputSize) + Items(subs, inputSize)
  }

  lemma NegotiatedIs(o: Out, configured: bool, pubs: seq<Setup>, subs: seq<Setup>, inputSize: nat)
    requires Sized(|o.mem|) && |o.mem| < 0x1_0000 - 7 && AllNamed(pubs) && AllNamed(subs) && inputSize < 0x1_0000_0000
    ensures forall m <- TableItems(pubs, subs, |o.mem| + 7, inputSize) :: m.Typed()
    ensures Negotiated(o, configured, pubs, subs, inputSize)
            == PublishAll(o, configured, TableItems(pubs, subs, |o.mem| + 7, inputSize))
  {
    hide PublishAll, Item.Typed, Items;
    ItemsAreTyped(pubs, |o.mem| + 7);
    ItemsAreTyped(subs, inputSize);
    PublishAllAppend(o, configured, Items(pubs, |o.mem| + 7), Items(subs, inputSize));
  }

  /** A frame that carries the announcement of a slot tells it to the session. */
  lemma CarriedTells(frames: seq<Sent>, s: Setup, size: nat, d: Delivery)
    requires size < 0x1_0000_0000 && Named(s) && ItemOf(s, size).Typed() && Carries(frames, ItemOf(s, size))
    requires d.topic == frames[0].topic && d.payload == frames[0].payload
    ensures Tells(d, s) && TellsSize(d, size)
  {
    TopicIs(Endpoint(s.role, s.kind));
    hide Des, DesHeader, WellFormed, HasType, InfoOf, Reported, ReportedSize, TOPIC_INFO, Endpoint, WritesEight;
    InfoHasNoEight(s, size);
    InfoIsReported(s, size);
    assert d.payload[..|d.payload|] == d.payload;
    assert ReadByBoth(d.payload, TOPIC_INFO, InfoOf(s, size));
  }

  lemma {:induction false} FlattenSingly<T>(ss: seq<seq<T>>)
    requires forall i :: 0 <= i < |ss| ==> |ss[i]| == 1
    ensures |Flatten(ss)| == |ss| && forall i :: 0 <= i < |ss| ==> Flatten(ss)[i] == ss[i][0]
  {
    if ss != [] { FlattenSingly(ss[1..]); }
  }

  /** What is dispatched of a negotiation in which every announcement fits. */
  lemma SentIsTold(o: Out, configured: bool, pubs: seq<Setup>, subs: seq<Setup>, inputSize: nat, log: seq<Delivery>)
    requires Sized(|o.mem|) && |o.mem| < 0x1_0000 - 7 && inputSize < 0x1_0000_0000
    requires Announceable(pubs, |o.mem| + 7, |o.mem|) && Announceable(subs, inputSize, |o.mem|)
    requires forall m <- TableItems(pubs, subs, |o.mem| + 7, inputSize) :: m.Typed()
    requires var items := TableItems(pubs, subs, |o.mem| + 7, inputSize);
             && Contents(log) == Frames.Messages(Flatten(FramesOf(o, configured, items)))
             && forall i :: 0 <= i < |items| ==> SentAt(o, configured, items, i)
    ensures Told(log, pubs + subs)
    ensures forall i :: 0 <= i < |log| ==> TellsSize(log[i], if i < |pubs| then |o.mem| + 7 else inputSize)
  {
    hide FramesOf, SentAt, Tells, TellsSize, Named, InfoFits, Flatten, Item.Typed, Carries;
    var ss, items := pubs + subs, TableItems(pubs, subs, |o.mem| + 7, inputSize);
    var frames := FramesOf(o, configured, items);
    forall i | 0 <= i < |ss| ensures items[i].Typed() && Carries(frames[i], items[i]) && |frames[i]| == 1 {
      AnnouncementIsCarried(o, configured, pubs, subs, inputSize, i);
    }
    FlattenSingly(frames);
    assert |log| == |Contents(log)| == |ss|;
    forall i | 0 <= i < |ss|
      ensures Tells(log[i], ss[i]) && TellsSize(log[i], if i < |pubs| then |o.mem| + 7 else inputSize)
    {
      assert Contents(log)[i] == Frames.Messages(Flatten(frames))[i];
      assert ss[i] in ss && Named(ss[i]);
      var size := if i < |pubs| then |o.mem| + 7 else inputSize;
      assert items[i] == ItemOf(ss[i], size);
      CarriedTells(frames[i], ss[i], size, log[i]);
    }
  }

  lemma AnnouncementIsCarried(o: Out, configured: bool, pubs: seq<Setup>, subs: seq<Setup>, inputSize: nat, i: nat)
    requires Sized(|o.mem|) && |o.mem| < 0x1_0000 - 7 && inputSize < 0x1_0000_0000 && i < |pubs| + |subs|
    requires Announceable(pubs, |o.mem| + 7, |o.mem|) && Announceable(subs, inputSize, |o.mem|)
    requires var items := TableItems(pubs, subs, |o.mem| + 7, inputSize);
             (forall m <- items :: m.Typed()) && SentAt(o, configured, items, i)
    ensures var items := TableItems(pubs, subs, |o.mem| + 7, inputSize);
            var frames := FramesOf(o, configured, items)[i];
            items[i].Typed() && Carries(frames, items[i]) && |frames| == 1
  {
    hide FramesOf, PublishAll, SentOne, Decodes, Named, Extent, WellFormed, HasType, TOPIC_INFO, InfoOf;
    var s := (pubs + subs)[i];
    var size := if i < |pubs| then |o.mem| + 7 else inputSize;
    assert if i < |pubs| then s in pubs else s in subs;
    assert Named(s) && InfoFits(s, size, |o.mem|);
    assert TableItems(pubs, subs, |o.mem| + 7, inputSize)[i] == ItemOf(s, size);
  }

  lemma FittingIsNamed(ss: seq<Setup>, size: nat, room: nat)
    requires size < 0x1_0000_0000 && Announceable(ss, size, room)
    ensures AllNamed(ss)
  {
    hide Named, InfoFits;
  }

  /** Negotiation, from the tables of the device to the maps of the session.  When every announcement fits the buffer, the
      session dispatches exactly the announcements of both tables, in order, and reads them as they were made; and when it has
      processed what it dispatched, every id of the tables is routed to the handler made for its slot, every service proxy
      replies to its subscriber slot, and the setup handlers are in place. */
  lemma NegotiationAgrees(o: Out, configured: bool, p: seq<Slot>, q: seq<Slot>, inputSize: nat, at: nat, capacity: nat, s: Setup)
    requires Sized(|o.mem|) && |o.mem| < 0x1_0000 - 7 && |o.mem| <= capacity && inputSize < 0x1_0000_0000
    requires Own(p, 100 + |q|, Pub) && Own(q, 100, Sub) && DistinctServices(p, q)
    requires Announceable(Listing(p), |o.mem| + 7, |o.mem|) && Announceable(Listing(q), inputSize, |o.mem|)
    requires Taken(s) in p || Taken(s) in q
    ensures AllNamed(Listing(p)) && AllNamed(Listing(q))
    ensures var wire := Negotiated(o, configured, Listing(p), Listing(q), inputSize).wire;
            && |o.wire| <= |wire| && wire[..|o.wire|] == o.wire
            && var r := Chain(SyncFirst, wire[|o.wire|..], at, capacity);
               && r.stage == SyncFirst && r.left == [] && Told(r.log, Listing(p) + Listing(q))
               && (forall i :: 0 <= i < |r.log| ==>
                     TellsSize(r.log[i], if i < |Listing(p)| then |o.mem| + 7 else inputSize))
               && Routed(HeardAll(Start(), r.log), s)
  {
    hide TellsSize, Named, InfoFits, Item.Typed, Items, PublishAll, Negotiated, Chain, Contents, Frames.Messages, FramesOf, SentAt,
         Told, Own, DistinctServices, ApplyAll, HeardAll, Start, Listing, Routed;
    var pubs, subs := Listing(p), Listing(q);
    var items := TableItems(pubs, subs, |o.mem| + 7, inputSize);
    FittingIsNamed(pubs, |o.mem| + 7, |o.mem|);
    FittingIsNamed(subs, inputSize, |o.mem|);
    NegotiatedIs(o, configured, pubs, subs, inputSize);
    DeviceToServer(o, configured, items, at, capacity);
    var wire := PublishAll(o, configured, items).wire;
    var r := Chain(SyncFirst, wire[|o.wire|..], at, capacity);
    SentIsTold(o, configured, pubs, subs, inputSize, r.log);
    TablesRoute(p, q, r.log, s);
  }

  /** Where the maps lead for a slot, and that they still take announcements. */
  predicate Routed(n: Maps, s: Setup) {
    && (s.role.Pub? ==> s.id in n.callbacks
                        && n.callbacks[s.id] == if s.kind.Topic? then ToTopic(s.name, s.ty) else ToService(s.kind, s.name))
    && (s.role.Sub? && s.kind.Topic? ==> s.id in n.subscribers && n.subscribers[s.id] == (s.name, s.ty))
    && (s.role.Sub? && !s.kind.Topic? ==> s.name in n.Services(s.kind) && n.Services(s.kind)[s.name] == s.id)
    && forall role, kind :: Endpoint(role, kind) in n.callbacks && n.callbacks[Endpoint(role, kind)] == SetupOf(role, kind)
  }

  lemma TablesRoute(p: seq<Slot>, q: seq<Slot>, log: seq<Delivery>, s: Setup)
    requires Own(p, 100 + |q|, Pub) && Own(q, 100, Sub) && DistinctServices(p, q)
    requires Taken(s) in p || Taken(s) in q
    requires Told(log, Listing(p) + Listing(q))
    ensures Routed(HeardAll(Start(), log), s)
  {
    hide Told, Own, DistinctServices, ApplyAll, HeardAll, Start, Listing;
    var ss := Listing(p) + Listing(q);
    forall t | t in ss ensures Taken(t) in p || Taken(t) in q {
      ListingHolds(p, t);
      ListingHolds(q, t);
    }
    TablesAreCoherent(p, q, ss);
    ToldIsApplied(log, ss);
    RoutingAgreement(p, q, [], s);
    assert ss + [] == ss;
  }

  // ---- who hears a message ----

  /** The session has a callback for the message, and it is this one. */
  predicate Meets(n: Maps, d: Delivery, h: Handler) {
    0 <= d.topic < 0x1_0000 && d.topic in n.callbacks && n.callbacks[d.topic] == h
  }

  /** What the session dispatches of one call of publish. */
  ghost function Dispatched(o: Out, configured: bool, m: Item, at: nat, capacity: nat): seq<Delivery>
    requires Sized(|o.mem|) && m.Typed() && capacity >= 5
  {
    SizedIsPublishable(o, configured, m.id, m.ty, m.v);
    var wire := Publishing(o, configured, m.id, m.ty, m.v).0.wire;
    if |o.wire| <= |wire| then Chain(SyncFirst, wire[|o.wire|..], at, capacity).log else []
  }

  lemma OneIsDispatched(o: Out, configured: bool, m: Item, at: nat, capacity: nat)
    requires Sized(|o.mem|) && m.Typed() && |o.mem| <= capacity && (m.id >= 100 ==> configured)
    ensures var log, frames := Dispatched(o, configured, m, at, capacity), SentOne(o.mem, configured, m);
            |log| == 1 == |frames| && log[0].topic == frames[0].topic && log[0].payload == frames[0].payload
  {
    hide Publishing, Sendable, Stream, SentOne, Encoded, Chain, WellFormed, HasType, Contents, Frames.Messages, Publishable;
    SizedIsPublishable(o, configured, m.id, m.ty, m.v);
    PublishingStreams(o, configured, m, capacity - 1);
    var ms := SentOne(o.mem, configured, m);
    SentOneIs(o.mem, configured, m);
    var wire := Publishing(o, configured, m.id, m.ty, m.v).0.wire;
    assert wire[|o.wire|..] == Stream(ms, capacity - 1);
    ChainStream(ms, at, capacity, capacity - 1);
    SameContents(Dispatched(o, configured, m, at, capacity), ms);
  }

  lemma SameContents(log: seq<Delivery>, ms: seq<Sent>)
    requires Contents(log) == Frames.Messages(ms) && |ms| == 1
    ensures |log| == 1 && log[0].topic == ms[0].topic && log[0].payload == ms[0].payload
  {
    assert |Contents(log)| == 1;
    assert Contents(log)[0] == Frames.Messages(ms)[0];
  }

  /** The time request of requestSyncTime meets the handler for the time, which reads 0x78563412 twice, after any run of
      announcements. */
  lemma TimeRequestIsHeard(o: Out, configured: bool, ss: seq<Setup>, at: nat, capacity: nat)
    requires Sized(|o.mem|) && 12 < |o.mem| <= capacity && forall s <- ss :: s.id >= 100
    ensures |o.wire| <= |Asked(o, configured).wire|
    ensures var log := Chain(SyncFirst, Asked(o, configured).wire[|o.wire|..], at, capacity).log;
            |log| == 1 && log[0].topic == 10 && Meets(ApplyAll(Start(), ss), log[0], HandleTime)
            && WellFormed(TIME) && HasType(TIME, REQUEST) && Decodes(log[0].payload, TIME, REQUEST)
            && !WritesEight(TIME, REQUEST)
  {
    RequestIsTyped();
    RequestExtent();
    HandlersAreKept(ss);
    assert ID_TIME == 10;
    hide Chain, ApplyAll, Start, Publishing, Publishable, SentOne, Extent, Decodes, WellFormed, HasType, TIME, REQUEST, WritesEight, Answers;
    var m := Item(10, TIME, REQUEST);
    SizedIsPublishable(o, configured, 10, TIME, REQUEST);
    AskedGrows(o, configured, capacity);
    GrowsIsPrefix(o.wire, Asked(o, configured).wire, capacity);
    OneIsDispatched(o, configured, m, at, capacity);
    FittingIsCarried(o.mem, configured, m);
  }

  lemma RequestExtent()
    ensures WellFormed(TIME) && HasType(TIME, REQUEST) && Extent(TIME, REQUEST) == 12 && !WritesEight(TIME, REQUEST)
  {
    RequestIsTyped();
    var tys, vs := TIME.fields, REQUEST.vals;
    assert Offsets(tys[0], vs[0], 0, 4).1 == 8;
    assert Offsets(tys[1], vs[1], 0, 8).1 == 12;
    assert tys[1..] == [tys[1]] && vs[1..] == [vs[1]];
    assert FieldOffsets(tys[1..][1..], vs[1..][1..], 0, 12).1 == 12;
    assert FieldOffsets(tys[1..], vs[1..], 0, 8).1 == 12;
    assert !WritesEight(tys[0], vs[0]) && !WritesEight(tys[1], vs[1]);
  }

  /** When a message does not leave room for the checksum, what is sent in its place meets the handler for the log. */
  lemma ComplaintIsHeard(o: Out, configured: bool, m: Item, ss: seq<Setup>, at: nat, capacity: nat)
    requires Sized(|o.mem|) && m.Typed() && |o.mem| <= capacity && (m.id >= 100 ==> configured) && forall s <- ss :: s.id >= 100
    requires Encoded(o.mem, m.ty, m.v).pos >= |o.mem|
    ensures var log := Dispatched(o, configured, m, at, capacity);
            |log| == 1 && log[0].topic == 7 && Meets(ApplyAll(Start(), ss), log[0], HandleLog)
            && (|o.mem| >= 70 ==> WellFormed(LOG) && HasType(LOG, COMPLAINT) && Decodes(log[0].payload, LOG, COMPLAINT))
  {
    HandlersAreKept(ss);
    hide Dispatched, ApplyAll, Start, SentOne, Encoded, Decodes, WellFormed, HasType, LOG, COMPLAINT;
    OneIsDispatched(o, configured, m, at, capacity);
    SentOneIs(o.mem, configured, m);
    if |o.mem| >= 70 { ComplaintDecodes(o.mem, configured, m); }
  }

  lemma ComplaintDecodes(mem: seq<byte>, configured: bool, m: Item)
    requires Sized(|mem|) && m.Typed() && (m.id >= 100 ==> configured) && |mem| >= 70
    requires Encoded(mem, m.ty, m.v).pos >= |mem|
    ensures WellFormed(LOG) && HasType(LOG, COMPLAINT)
    ensures var frames := SentOne(mem, configured, m); |frames| == 1 && Decodes(frames[0].payload, LOG, COMPLAINT)
  {
    DroppedText();
    hide Encoded, Decodes, WellFormed, HasType, LOG, COMPLAINT, Answers;
    var f := Encoded(mem, m.ty, m.v);
    ComplaintIsSentIff(f.mem);
    ComplaintFits();
    CompleteIffFits(f.mem, LOG, COMPLAINT);
    EncodedDecodes(f.mem, LOG, COMPLAINT);
  }

  lemma ComplaintFits()
    ensures WellFormed(LOG) && HasType(LOG, COMPLAINT) && Extent(LOG, COMPLAINT) == 69
  {
    DroppedText();
    LogEnds(3, DROPPED);
  }

  lemma LogEnds(level: byte, text: seq<byte>)
    requires 0 !in text && |text| + 1 < 0x1_0000_0000
    ensures WellFormed(LOG) && HasType(LOG, LogRecord(level, text)) && Extent(LOG, LogRecord(level, text)) == 13 + |text|
  {
    LogIsTyped(level, text);
    var tys, vs := LOG.fields, LogRecord(level, text).vals;
    assert Offsets(tys[0], vs[0], 0, 4).1 == 5;
    assert Offsets(tys[1], vs[1], 0, 5).1 == 13 + |text|;
    assert tys[1..] == [tys[1]] && vs[1..] == [vs[1]];
    assert FieldOffsets(tys[1..][1..], vs[1..][1..], 0, 13 + |text|).1 == 13 + |text|;
    assert FieldOffsets(tys[1..], vs[1..], 0, 5).1 == 13 + |text|;
  }

  /** A message of a registered publisher.  Once the session has processed the negotiation of the device, whatever that device
      publishes through the slot of `s`, if it fits, is dispatched once, under the id of the slot, to the callback that was made
      for that slot, and decodes to the value published. */
  lemma PublisherIsHeard(o: Out, configured: bool, p: seq<Slot>, q: seq<Slot>, inputSize: nat, at: nat, capacity: nat, s: Setup,
                         later: Out, ty: Ty, v: Val, at': nat)
    requires Sized(|o.mem|) && |o.mem| < 0x1_0000 - 7 && |o.mem| <= capacity && inputSize < 0x1_0000_0000
    requires Own(p, 100 + |q|, Pub) && Own(q, 100, Sub) && DistinctServices(p, q)
    requires Announceable(Listing(p), |o.mem| + 7, |o.mem|) && Announceable(Listing(q), inputSize, |o.mem|)
    requires Taken(s) in p && |later.mem| == |o.mem|
    requires WellFormed(ty) && HasType(ty, v) && Extent(ty, v) < |o.mem|
    ensures AllNamed(Listing(p)) && AllNamed(Listing(q))
    ensures var wire := Negotiated(o, configured, Listing(p), Listing(q), inputSize).wire;
            && |o.wire| <= |wire|
            && var n := HeardAll(Start(), Chain(SyncFirst, wire[|o.wire|..], at, capacity).log);
               var log := Dispatched(later, true, Item(s.id, ty, v), at', capacity);
               |log| == 1 && log[0].topic == s.id && Decodes(log[0].payload, ty, v)
               && Meets(n, log[0], if s.kind.Topic? then ToTopic(s.name, s.ty) else ToService(s.kind, s.name))
  {
    hide Own, DistinctServices, Announceable, Listing, Negotiated, Chain, HeardAll, Start, Told, Dispatched, SentOne, Decodes, Extent,
         WellFormed, HasType;
    NegotiationAgrees(o, configured, p, q, inputSize, at, capacity, s);
    TakenOwn(p, 100 + |q|, Pub, s);
    var m := Item(s.id, ty, v);
    OneIsDispatched(later, true, m, at', capacity);
    FittingIsCarried(later.mem, true, m);
    TopicIs(s.id);
  }

  /** What a session sends when it stops: an idle device dispatches it once, under the id for which spinOnce ends up not
      configured. */
  lemma StopIsHeard(p: Parser, at: nat)
    requires DeviceParser.Idle(p) && |p.messageIn| >= 1
    ensures var (q, log) := Feed(p, Frame(11, [0]), at); DeviceParser.Idle(q) && log == [Delivery(at + 9, 11, [0])]
  {
    hide Feed, Frame;
    FeedFrame(p, 11, [0], at);
  }
}
