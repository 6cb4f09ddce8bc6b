/** NodeHandle_::spinOnce on the fields of the node: the byte machine, its timeouts and what it dispatches to. */
module SpinOnce {
  import opened Bytes
  import opened Frames
  import opened CdrFlat
  import opened CdrBuffer
  import opened Messages
  import opened Alignment
  import opened MessageCode
  import opened Outbox
  import opened Routing
  import opened Slots
  import opened NodeHandle
  import opened DeviceParser

  const SPIN_OK := 0
  const SPIN_ERR := -1
  const SPIN_TIMEOUT := -2

  /** Milliseconds from `b` to `a` on a clock that wraps around. */
  function Elapsed(a: u32, b: u32): u32 { (a - b) % 0x1_0000_0000 }

  /** It is `d` milliseconds later on the clock of hardware_.time(). */
  predicate Later(now: u32, was: u32, d: u32) { now == (was + d) % 0x1_0000_0000 }

  /** Elapsed is how much later it is, across wraparound of the clock. */
  lemma ElapsedIs(now: u32, was: u32, d: u32)
    ensures Elapsed(now, was) == d <==> Later(now, was, d)
  {
    var q := (was + d) / 0x1_0000_0000;
    assert was + d == q * 0x1_0000_0000 + (was + d) % 0x1_0000_0000;
    assert q == 0 || q == 1;
  }

  lemma ElapsedSince(now: u32, was: u32)
    ensures forall d: u32 :: Later(now, was, d) ==> Elapsed(now, was) == d
  {
    forall d: u32 | Later(now, was, d) ensures Elapsed(now, was) == d { ElapsedIs(now, was, d); }
  }

  predicate Over(clock: nat -> u32, c: u32, j: nat, limit: u32) { Elapsed(clock(j), c) > limit }

  /** What hardware_.read() gives until it has nothing. */
  function Usable(input: seq<int>): (s: seq<byte>)
    ensures |s| <= |input| && forall i :: 0 <= i < |s| ==> s[i] == input[i]
    ensures |s| < |input| ==> !(0 <= input[|s|] <= 0xff)
  {
    if input == [] || !(0 <= input[0] <= 0xff) then [] else [input[0]] + Usable(input[1..])
  }

  /** builtin_interfaces/msg/Time and the value that requestSyncTime sends. */
  const TIME: Ty := Msg([Prim(4), Prim(4)])
  const REQUEST: Val := VMsg([VPrim([0x12, 0x34, 0x56, 0x78]), VPrim([0x12, 0x34, 0x56, 0x78])])

  /** Both fields of the request are 0x78563412. */
  lemma RequestSays()
    ensures REQUEST.VMsg? && |REQUEST.vals| == 2
    ensures forall i :: 0 <= i < 2 ==> REQUEST.vals[i].VPrim? && Counts(REQUEST.vals[i].image, 0x78563412)
  {
  }

  lemma RequestIsTyped()
    ensures WellFormed(TIME) && HasType(TIME, REQUEST)
  {
    assert HasType(TIME.fields[0], REQUEST.vals[0]) && HasType(TIME.fields[1], REQUEST.vals[1]);
  }

  /** What a byte led to. */
  datatype Event =
    | Going
    | Synced
    | Hunting
    | WrongVersion
    | WrongTopic
    | Complete(topic: int, payload: seq<byte>)

  /** How often the clock is read for an event: by requestSyncTime once, by syncTime and its setNow three times. */
  function Readings(e: Event, configured: bool): nat {
    match e
    case Hunting => 1
    case WrongVersion => if configured then 0 else 1
    case Complete(topic, _) => if topic == 0 then 1 else if topic == 10 then 3 else 0
    case _ => 0
  }

  function Delivered(e: Event, at: nat): seq<Delivery> {
    if e.Complete? then [Delivery(at + 1, e.topic, e.payload)] else []
  }

  class Device {
    const out: Transmitter
    const publishers: Table
    const subscribers: Table
    const messageIn: array<byte>

    var mode: Mode
    var bytes: int
    var topic: int
    var index: nat
    var checksum: nat

    var spinTimeout: u32
    var lastSyncTime: u32
    var lastSyncReceiveTime: u32
    var lastMsgTimeoutTime: u32
    var rtTime: u32
    var paramReceived: bool

    /** The subscribers whose callback was called. */
    var calls: seq<Registration>

    /** What was dispatched, and how many bytes were consumed. */
    var log: seq<Delivery>
    var consumed: nat

    ghost function View(): Parser
      reads this, messageIn
    {
      Parser(mode, bytes, topic, index, checksum, messageIn[..], subscribers.slots.Length, false)
    }

    ghost predicate Valid()
      reads out.outputCdr, publishers.slots, publishers.slots[..], subscribers.slots, subscribers.slots[..]
    {
      && out.Valid() && Answers(out.messageOut.Length - 7) && messageIn != out.messageOut && messageIn.Length < 0x1_0000_0000
      && publishers.Valid() && publishers.AllNamed() && publishers.base == 100 + subscribers.slots.Length && publishers.role.Pub?
      && subscribers.Valid() && subscribers.AllNamed() && subscribers.base == 100 && subscribers.role.Sub?
    }

    /** Since `wire`, nothing but whole frames was written. */
    ghost predicate GrownFrom(wire: seq<byte>)
      reads out`wire
    {
      Grows(wire, out.wire, out.messageOut.Length)
    }

    lemma NotGrown()
      ensures GrownFrom(out.wire)
    {
      GrowsNot(out.wire, out.messageOut.Length);
    }

    /** initNode. */
    constructor (maxSubscribers: nat, maxPublishers: nat, inputSize: nat, outputSize: nat)
      requires 100 + maxSubscribers + maxPublishers < 0x1_0000 && inputSize < 0x1_0000_0000
      requires 7 <= outputSize < 0x1_0000 && Answers(outputSize - 7)
      ensures Valid() && View().mode == FirstFF && log == [] && calls == [] && consumed == 0 && !out.configured && out.wire == []
      ensures publishers.slots.Length == maxPublishers && subscribers.slots.Length == maxSubscribers
      ensures messageIn.Length == inputSize && out.messageOut.Length == outputSize
    {
      messageIn := new byte[inputSize](_ => 0);
      out := new Transmitter(outputSize);
      publishers := new Table(100 + maxSubscribers, Pub, maxPublishers);
      subscribers := new Table(100, Sub, maxSubscribers);
      mode, bytes, topic, index, checksum := FirstFF, 0, 0, 0, 0;
      spinTimeout, lastSyncTime, lastSyncReceiveTime, lastMsgTimeoutTime, rtTime := 0, 0, 0, 0, 0;
      paramReceived, calls, log, consumed := false, [], [], 0;
    }

    /** Whom a message is for: the subscriber in the slot of its topic, if there is one. */
    function Callee(topic: int): seq<Registration>
      reads subscribers.slots
    {
      if 100 <= topic < 100 + subscribers.slots.Length && subscribers.slots[topic - 100] != null
      then [subscribers.slots[topic - 100]] else []
    }

    function Callees(news: seq<Delivery>): seq<Registration>
      reads subscribers.slots
    {
      if news == [] then [] else Callees(news[..|news| - 1]) + Callee(news[|news| - 1].topic)
    }

    lemma CalleesOfOne(e: Event, at: nat)
      ensures Callees(Delivered(e, at)) == if e.Complete? then Callee(e.topic) else []
      ensures e.Complete? ==> Delivered(e, at)[0] in Delivered(e, at)
    {
      assert e.Complete? ==> Delivered(e, at)[..0] == [];
    }

    lemma CalleesJoin(a: seq<Delivery>, d: seq<Delivery>)
      requires |d| <= 1
      ensures Callees(a + d) == Callees(a) + Callees(d)
    {
      if d == [] {
        assert a + d == a;
      } else {
        assert (a + d)[..|a|] == a && d[..0] == [];
      }
    }

    /** A message under the id of a registered subscriber is for that subscriber. */
    lemma SubscriberIsCalled(e: Registration)
      requires Valid() && subscribers.Mine(e)
      ensures Callee(e.id) == [e]
    {
      hide Table.Valid, Table.AllNamed, Transmitter.Valid;
    }

    /** One byte through the machine.  The caller sees to it that the frame fits message_in and that a topic below
        100 is one of the special ids. */
    method Take(data: byte) returns (e: Event)
      requires !Step(View(), data, consumed).0.fault
      modifies `mode, `bytes, `topic, `index, `checksum, `consumed, messageIn
      ensures (View(), Delivered(e, old(consumed))) == Step(old(View()), data, old(consumed))
      ensures consumed == old(consumed) + 1
      ensures e.Synced? <==> old(mode) == FirstFF && data == 0xff
      ensures e.Hunting? <==> old(mode) == FirstFF && data != 0xff
      ensures e.WrongVersion? <==> old(mode) == ProtocolVer && data != 0xfe
      ensures e.WrongTopic? <==> old(mode) == TopicH && mode == FirstFF
      ensures e.Complete? ==> Special(e.topic) || e.topic >= 100
    {
      e := Going;
      consumed := consumed + 1;
      checksum := checksum + data;
      match mode {
        case Message =>
          messageIn[index] := data;
          index := index + 1;
          bytes := bytes - 1;
          if bytes == 0 { mode := MsgChecksum; }
        case FirstFF =>
          if data == 0xff {
            mode := ProtocolVer;
            e := Synced;
          } else {
            e := Hunting;
          }
        case ProtocolVer =>
          if data == 0xfe {
            mode := SizeL;
          } else {
            mode := FirstFF;
            e := WrongVersion;
          }
        case SizeL => bytes, index, mode, checksum := data, 0, SizeH, data;
        case SizeH => bytes, mode := bytes + 256 * data as int, SizeChecksum;
        case SizeChecksum => mode := if checksum % 256 == 255 then TopicL else FirstFF;
        case TopicL => topic, mode, checksum := data, TopicH, data;
        case TopicH =>
          topic := topic + 256 * data as int;
          if 0 <= topic < subscribers.slots.Length + 100 {
            mode := if bytes == 0 then MsgChecksum else Message;
          } else {
            mode := FirstFF;
            e := WrongTopic;
          }
        case MsgChecksum =>
          mode := FirstFF;
          if checksum % 256 == 255 { e := Complete(topic, messageIn[..index]); }
      }
    }

    /** requestSyncTime; `now` is what the clock shows after the publish. */
    method RequestSyncTime(now: u32)
      requires Valid()
      modifies `rtTime, out`wire, out.outputCdr, out.messageOut
      ensures Valid() && out.Window() == Asked(old(out.Window()), out.configured) && rtTime == now
      ensures GrownFrom(old(out.wire))
    {
      hide Grows, Single, Publishing, Table.Valid, Table.AllNamed, WellFormed, HasType, TIME, REQUEST, Transmitter.Valid,
           Transmitter.Window, Answers, Publishable, Depth, Encoded;
      RequestIsTyped();
      out.WindowSize();
      out.WindowWire();
      ghost var o := out.Window();
      AskedGrows(o, out.configured, out.messageOut.Length);
      SizedIsPublishable(o, out.configured, ID_TIME, TIME, REQUEST);
      var _ := out.Publish(ID_TIME, TIME, REQUEST);
      out.WindowWire();
      rtTime := now;
    }

    /** negotiateTopics. */
    method NegotiateTopics()
      requires Valid()
      modifies out`configured, out`wire, out.outputCdr, out.messageOut
      ensures Valid() && out.configured && Announces(old(out.Window()), old(out.configured))
      ensures GrownFrom(old(out.wire))
    {
      hide Grows, Single, Announced, Table.Valid, Table.AllNamed, Table.View, Listing, AllNamed;
      ghost var o, size := out.Window(), out.messageOut.Length;
      AnnounceTable(out, publishers, out.messageOut.Length);
      ghost var half := out.Window();
      AnnouncedGrows(o, out.configured, Listing(publishers.View()), size, size);
      AnnounceTable(out, subscribers, messageIn.Length);
      AnnouncedGrows(half, out.configured, Listing(subscribers.View()), messageIn.Length, size);
      GrowsOn(o.wire, half.wire, out.wire, size);
      out.configured := true;
    }

    /** The message under way has timed out. */
    predicate Late(c: u32)
      reads `mode, `lastMsgTimeoutTime
    {
      mode != FirstFF && c > lastMsgTimeoutTime
    }

    /** A message whose first sync byte came in a call that began at `c0` is given up by a call that begins at `c` if and only
        if that is more than 20 ms later, as long as the clock has not wrapped around since. */
    lemma LateIff(c0: u32, c: u32)
      requires mode != FirstFF && lastMsgTimeoutTime == (c0 + 20) % 0x1_0000_0000 && c0 + 20 < 0x1_0000_0000
      ensures Late(c) <==> c > c0 + 20
    {
    }

    /** In the last 20 ms before the clock wraps around, every message is given up by the next call, however soon it comes. */
    lemma LateBeforeWrap(c0: u32, c: u32)
      requires mode != FirstFF && lastMsgTimeoutTime == (c0 + 20) % 0x1_0000_0000 && c0 + 20 >= 0x1_0000_0000
      ensures c0 <= c ==> Late(c)
    {
    }

    /** spinOnce.  `input` is what hardware_.read() gives, one byte at a time, and `clock` what hardware_.time() shows
        at each reading.  The machine does to the bytes consumed what the pure one does; they are all there is unless
        the topics were asked for or the time is up. */
    method SpinOnce(input: seq<int>, clock: nat -> u32)
      returns (code: int, ghost call: Call, ghost news: seq<Delivery>)
      requires Valid() && !Feed(Begin(View(), Late(clock(0))), Usable(input), consumed).0.fault
      modifies `mode, `bytes, `topic, `index, `checksum, `consumed, messageIn, `log, `lastSyncTime, `lastSyncReceiveTime,
               `lastMsgTimeoutTime, `rtTime, `paramReceived, `calls, out`configured, out`wire, out.outputCdr, out.messageOut
      ensures Valid() && code in {0, -1, -2} && SPIN_OK == 0 && SPIN_ERR == -1 && SPIN_TIMEOUT == -2
      ensures code == SPIN_TIMEOUT ==> TimeIsUp(clock, clock(0))
      ensures call.timedOut == old(Late(clock(0))) && |call.consumed| <= |Usable(input)|
      ensures call.consumed == Usable(input)[..|call.consumed|]
      ensures (View(), news) == Feed(Begin(old(View()), call.timedOut), call.consumed, old(consumed))
      ensures log == old(log) + news && consumed == old(consumed) + |call.consumed|
      ensures calls == old(calls) + Callees(news)
      ensures code == SPIN_OK ==> call.consumed == Usable(input)
      ensures code == SPIN_ERR <==> exists d <- news :: d.topic == 0
      ensures GrownFrom(old(out.wire))
      ensures code == SPIN_ERR ==>
                exists o, was :: Renegotiated(clock(0), o, was) && Grows(old(out.wire), o.wire, out.messageOut.Length)
      ensures code != SPIN_ERR && out.configured ==>
                && old(out.configured) && Elapsed(clock(0), old(lastSyncReceiveTime)) <= 4400
                && forall d <- news :: d.topic != 11
    {
      hide Feed, Usable, Valid, Renegotiated, Elapsed, Begin, View, GrownFrom, Grows, Callees, Transmitter.Window;
      var c := clock(0);
      ghost var wire := out.wire;
      call := Call(Late(c), []);
      Enter(c);
      ghost var taken;
      var k;
      code, k, taken, news := Work(input, c, clock);
      call := call.(consumed := taken);
      if code == SPIN_OK {
        ghost var half := out.wire;
        GrownTo(wire);
        Leave(c, clock(k));
        GrowOn(wire, half);
      }
    }

    lemma GrowOn(wire: seq<byte>, half: seq<byte>)
      requires Grows(wire, half, out.messageOut.Length) && GrownFrom(half)
      ensures GrownFrom(wire)
    {
      hide Grows;
      GrowsOn(wire, half, out.wire, out.messageOut.Length);
    }

    lemma GrownTo(wire: seq<byte>)
      requires GrownFrom(wire)
      ensures Grows(wire, out.wire, out.messageOut.Length)
    {
    }

    /** The timeouts at the start. */
    method Enter(c: u32)
      requires Valid()
      modifies `mode, out`configured
      ensures Valid() && View() == Begin(old(View()), old(Late(c)))
      ensures out.configured == (old(out.configured) && Elapsed(c, lastSyncReceiveTime) <= 4400)
      ensures forall d: u32 :: Later(c, lastSyncReceiveTime, d) ==> out.configured == (old(out.configured) && d <= 4400)
    {
      ElapsedSince(c, lastSyncReceiveTime);
      hide Elapsed, Later, Table.Valid, Table.AllNamed, Transmitter.Valid;
      if Elapsed(c, lastSyncReceiveTime) > 4400 { out.configured := false; }
      if mode != FirstFF {
        if c > lastMsgTimeoutTime { mode := FirstFF; }
      }
    }

    /** The time is asked for now and then. */
    method Leave(c: u32, now: u32)
      requires Valid()
      modifies `lastSyncTime, `rtTime, out`wire, out.outputCdr, out.messageOut
      ensures Valid() && View() == old(View())
      ensures var due := out.configured && Elapsed(c, old(lastSyncTime)) > 2000;
              && out.Window() == (if due then Asked(old(out.Window()), true) else old(out.Window()))
              && lastSyncTime == if due then c else old(lastSyncTime)
      ensures forall d: u32 :: Later(c, old(lastSyncTime), d) ==>
                out.Window() == if out.configured && d > 2000 then Asked(old(out.Window()), true) else old(out.Window())
      ensures GrownFrom(old(out.wire))
    {
      NotGrown();
      ElapsedSince(c, lastSyncTime);
      hide Grows, GrownFrom, Elapsed, Later, Asked, Table.Valid, Table.AllNamed, Transmitter.Valid, Transmitter.Window;
      if out.configured && Elapsed(c, lastSyncTime) > 2000 {
        RequestSyncTime(now);
        lastSyncTime := c;
      }
    }

    /** A reading of the clock was later than what spinOnce may take: 2000 ms, or what was set. */
    ghost predicate TimeIsUp(clock: nat -> u32, c: u32)
      reads `spinTimeout
    {
      exists j: nat :: Over(clock, c, j, 2000) || (spinTimeout > 0 && Over(clock, c, j, spinTimeout))
    }

    /** The loop. */
    method Work(input: seq<int>, c: u32, clock: nat -> u32)
      returns (code: int, k: nat, ghost taken: seq<byte>, ghost news: seq<Delivery>)
      requires Valid() && !Feed(View(), Usable(input), consumed).0.fault
      modifies `mode, `bytes, `topic, `index, `checksum, `consumed, messageIn, `log, `lastSyncTime, `lastSyncReceiveTime,
               `lastMsgTimeoutTime, `rtTime, `paramReceived, `calls, out`configured, out`wire, out.outputCdr, out.messageOut
      ensures Valid() && code in {SPIN_OK, SPIN_ERR, SPIN_TIMEOUT}
      ensures |taken| <= |Usable(input)| && taken == Usable(input)[..|taken|]
      ensures (View(), news) == Feed(old(View()), taken, old(consumed))
      ensures log == old(log) + news && consumed == old(consumed) + |taken|
      ensures calls == old(calls) + Callees(news)
      ensures code == SPIN_OK ==> taken == Usable(input)
      ensures code == SPIN_ERR <==> exists d <- news :: d.topic == 0
      ensures code == SPIN_TIMEOUT ==> TimeIsUp(clock, c)
      ensures GrownFrom(old(out.wire))
      ensures code == SPIN_ERR ==>
                exists o, was :: Renegotiated(c, o, was) && Grows(old(out.wire), o.wire, out.messageOut.Length)
      ensures code != SPIN_ERR && out.configured ==> old(out.configured) && forall d <- news :: d.topic != 11
    {
      NotGrown();
      hide Feed, Step, Usable, Valid, Renegotiated, Elapsed, View, GrownFrom, Grows, Transmitter.Window;
      ghost var wire := out.wire;
      ghost var at0, s, p := consumed, Usable(input), View();
      FeedNothing(p, at0);
      taken, news := [], [];
      var i := 0;
      k, code := 1, SPIN_OK;
      while true
        invariant Valid() && i <= |s| && consumed == at0 + i && taken == s[..i]
        invariant (View(), news) == Feed(p, s[..i], at0) && log == old(log) + news
        invariant calls == old(calls) + Callees(news)
        invariant code == SPIN_OK && forall d <- news :: d.topic != 0
        invariant GrownFrom(wire)
        invariant out.configured ==> old(out.configured) && forall d <- news :: d.topic != 11
        decreases |s| - i
      {
        if spinTimeout > 0 {
          k := k + 1;
          if Elapsed(clock(k - 1), c) > spinTimeout {
            assert Over(clock, c, k - 1, spinTimeout);
            return SPIN_TIMEOUT, k, taken, news;
          }
        }
        if i == |input| || !(0 <= input[i] <= 0xff) { break; }
        NextByte(p, s, i, at0);
        ghost var d, before, half := [], news, out.wire;
        GrownTo(wire);
        ghost var j := k;
        k, code, d := Turn(input[i], c, clock, k);
        GrowOn(wire, half);
        assert code == SPIN_TIMEOUT ==> Over(clock, c, j, 2000);
        i := i + 1;
        LogMore(old(log), before, d);
        CalleesJoin(before, d);
        CallsMore(old(calls), Callees(before), Callees(d));
        taken, news := s[..i], before + d;
        if code != SPIN_OK { return; }
      }
    }

    /** One byte: the machine, and what follows from it. */
    method Turn(data: byte, c: u32, clock: nat -> u32, k: nat) returns (k': nat, code: int, ghost d: seq<Delivery>)
      requires Valid() && !Step(View(), data, consumed).0.fault
      modifies `mode, `bytes, `topic, `index, `checksum, `consumed, messageIn, `log, `lastSyncTime, `lastSyncReceiveTime,
               `lastMsgTimeoutTime, `rtTime, `paramReceived, `calls, out`configured, out`wire, out.outputCdr, out.messageOut
      ensures Valid() && code in {SPIN_OK, SPIN_ERR, SPIN_TIMEOUT}
      ensures (View(), d) == Step(old(View()), data, old(consumed))
      ensures log == old(log) + d && consumed == old(consumed) + 1 && |d| <= 1
      ensures calls == old(calls) + Callees(d)
      ensures code == SPIN_ERR <==> exists x <- d :: x.topic == 0
      ensures GrownFrom(old(out.wire))
      ensures code == SPIN_TIMEOUT ==> Over(clock, c, k, 2000)
      ensures code == SPIN_ERR ==> exists o, was :: Renegotiated(c, o, was) && o.wire == old(out.wire)
      ensures code != SPIN_ERR && out.configured ==> old(out.configured) && forall x <- d :: x.topic != 11
    {
      hide Step, Renegotiated, GrownFrom, Grows, Callee, Callees, Elapsed, Table.Valid, Table.AllNamed, Transmitter.Valid, Transmitter.Window;
      var e := Take(data);
      d := Delivered(e, consumed - 1);
      CalleesOfOne(e, consumed - 1);
      out.WindowSize();
      out.WindowWire();
      k', code := Handle(e, c, clock, k);
    }

    /** What spinOnce does about a byte besides the machine.  `c` is the time at which spinOnce was entered and
        `clock` the readings of the clock after that, the next one number `k`.  What the callbacks of
        subscribers do is not part of the model; neither is the arithmetic of syncTime here. */
    method Handle(e: Event, c: u32, clock: nat -> u32, k: nat) returns (k': nat, code: int)
      requires Valid() && consumed > 0 && (e.Complete? ==> Special(e.topic) || e.topic >= 100)
      modifies `log, `lastSyncTime, `lastSyncReceiveTime, `lastMsgTimeoutTime, `rtTime, `paramReceived, `calls,
               out`configured, out`wire, out.outputCdr, out.messageOut
      ensures Valid() && log == old(log) + Delivered(e, consumed - 1)
      ensures calls == old(calls) + if e.Complete? then Callee(e.topic) else []
      ensures code == SPIN_ERR <==> e.Complete? && e.topic == 0
      ensures code == SPIN_TIMEOUT <==> e.Hunting? && Elapsed(clock(k), c) > 2000
      ensures forall d: u32 :: Later(clock(k), c, d) ==> (code == SPIN_TIMEOUT <==> e.Hunting? && d > 2000)
      ensures k' == k + Readings(e, old(out.configured))
      ensures e.WrongVersion? && !old(out.configured) ==> rtTime == clock(k)
      ensures code == SPIN_OK || code == SPIN_ERR || code == SPIN_TIMEOUT
      ensures code == SPIN_ERR ==> Renegotiated(c, old(out.Window()), old(out.configured))
      ensures code != SPIN_ERR ==>
                out.configured == (old(out.configured) && code == SPIN_OK && !e.WrongTopic? && !(e.Complete? && e.topic == 11))
      ensures code != SPIN_ERR ==>
                out.Window() == if e.WrongVersion? && !old(out.configured) then Asked(old(out.Window()), false) else old(out.Window())
      ensures lastMsgTimeoutTime == if e.Synced? then (c + 20) % 0x1_0000_0000 else old(lastMsgTimeoutTime)
      ensures e.Complete? && e.topic == 10 ==> lastSyncReceiveTime == clock(k + 2)
      ensures paramReceived == (old(paramReceived) || (e.Complete? && e.topic == 6))
      ensures GrownFrom(old(out.wire))
    {
      NotGrown();
      ElapsedSince(clock(k), c);
      hide Grows, GrownFrom, Elapsed, Later, Asked, Negotiated, Publishing, Table.Valid, Table.AllNamed, Transmitter.Valid, Transmitter.Window;
      k', code := k, SPIN_OK;
      match e {
        case Going =>
        case Synced => lastMsgTimeoutTime := (c + 20) % 0x1_0000_0000;
        case Hunting =>
          k' := k + 1;
          if Elapsed(clock(k), c) > 2000 {
            out.configured := false;
            code := SPIN_TIMEOUT;
          }
        case WrongVersion =>
          if !out.configured {
            RequestSyncTime(clock(k));
            k' := k + 1;
          }
        case WrongTopic => out.configured := false;
        case Complete(topic, payload) =>
          log := log + [Delivery(consumed, topic, payload)];
          k', code := Dispatch(topic, c, clock, k);
      }
    }

    /** The branch for ID_PUBLISHER. */
    method AnswerRequest(c: u32, now: u32)
      requires Valid()
      modifies `lastSyncTime, `lastSyncReceiveTime, `rtTime, out`configured, out`wire, out.outputCdr, out.messageOut
      ensures Valid() && Renegotiated(c, old(out.Window()), old(out.configured)) && GrownFrom(old(out.wire))
    {
      hide Grows, GrownFrom, Asked, Announces, Table.Valid, Table.AllNamed, Single, Transmitter.Valid, Transmitter.Window;
      out.WindowSize();
      ghost var wire := out.wire;
      RequestSyncTime(now);
      ghost var half := out.wire;
      GrownTo(wire);
      NegotiateTopics();
      GrowOn(wire, half);
      lastSyncTime := c;
      lastSyncReceiveTime := c;
    }

    /** The branches for a message whose checksum is right. */
    method Dispatch(topic: int, c: u32, clock: nat -> u32, k: nat) returns (k': nat, code: int)
      requires Valid() && (Special(topic) || topic >= 100)
      modifies `lastSyncTime, `lastSyncReceiveTime, `rtTime, `paramReceived, `calls,
               out`configured, out`wire, out.outputCdr, out.messageOut
      ensures Valid() && code == if topic == 0 then SPIN_ERR else SPIN_OK
      ensures calls == old(calls) + Callee(topic)
      ensures k' == k + (if topic == 0 then 1 else if topic == 10 then 3 else 0)
      ensures topic == 0 ==> Renegotiated(c, old(out.Window()), old(out.configured))
      ensures topic != 0 ==>
                out.Window() == old(out.Window()) && out.configured == (old(out.configured) && topic != 11)
      ensures topic == 10 ==> lastSyncReceiveTime == clock(k + 2)
      ensures paramReceived == (old(paramReceived) || topic == 6)
      ensures GrownFrom(old(out.wire))
    {
      NotGrown();
      hide Grows, GrownFrom, Renegotiated, Table.Valid, Table.AllNamed, Transmitter.Valid, Transmitter.Window;
      k', code := k, SPIN_OK;
      if topic == ID_PUBLISHER {
        AnswerRequest(c, clock(k));
        k', code := k + 1, SPIN_ERR;
      } else if topic == ID_TIME {
        lastSyncReceiveTime := clock(k + 2);
        k' := k + 3;
      } else if topic == ID_PARAMETER_REQUEST {
        paramReceived := true;
      } else if topic == ID_TX_STOP {
        out.configured := false;
      } else if 0 <= topic < subscribers.slots.Length + 100 {
        var e := subscribers.slots[topic - 100];
        if e != null { calls := calls + [e]; }
      }
    }

    /** Both tables were announced in full, after `o`. */
    ghost predicate Announces(o: Out, configured: bool)
      reads out`wire, out.messageOut, publishers.slots, publishers.slots[..], subscribers.slots, subscribers.slots[..]
    {
      && AllNamed(Listing(publishers.View())) && AllNamed(Listing(subscribers.View()))
      && 7 <= out.messageOut.Length && messageIn.Length < 0x1_0000_0000 && Sized(|o.mem|) && |o.mem| < 0x1_0000 - 7
      && out.Window() == Negotiated(o, configured, Listing(publishers.View()), Listing(subscribers.View()), messageIn.Length)
    }

    /** A request for topics was answered: the time was asked for, then the tables were announced. */
    ghost predicate Renegotiated(c: u32, o: Out, configured: bool)
      reads `lastSyncTime, `lastSyncReceiveTime, out`configured, out`wire, out.messageOut,
            publishers.slots, publishers.slots[..], subscribers.slots, subscribers.slots[..]
    {
      && out.configured && lastSyncTime == c && lastSyncReceiveTime == c
      && Sized(|o.mem|) && |o.mem| < 0x1_0000 - 7 && Announces(Asked(o, configured), configured)
    }
  }

  lemma CallsMore(a: seq<Registration>, b: seq<Registration>, d: seq<Registration>)
    ensures a + b + d == a + (b + d)
  {
  }

  lemma LogMore(a: seq<Delivery>, b: seq<Delivery>, d: seq<Delivery>)
    ensures a + b + d == a + (b + d)
  {
  }

  /** One byte more, still without a fault. */
  lemma NextByte(p: Parser, s: seq<byte>, i: nat, at: nat)
    requires i < |s| && !Feed(p, s, at).0.fault
    ensures var (q, d) := Feed(p, s[..i], at);
            var (q', e) := Step(q, s[i], at + i);
            !q'.fault && Feed(p, s[..i + 1], at) == (q', d + e)
  {
    hide Feed, Step;
    var (q, d) := Feed(p, s[..i], at);
    assert s[..i + 1] == s[..i] + [s[i]];
    assert s == s[..i + 1] + s[i + 1..];
    FeedAppend(p, s[..i], [s[i]], at);
    FeedOne(q, s[i], at + i);
    FeedAppend(p, s[..i + 1], s[i + 1..], at);
    var q' := Feed(p, s[..i + 1], at).0;
    if q'.fault { FaultStays(q', s[i + 1..], at + i + 1); }
  }

  lemma FeedOne(q: Parser, b: byte, at: nat)
    ensures Feed(q, [b], at) == Step(q, b, at)
  {
    hide Step;
    assert [b][1..] == [];
    var (r, d) := Step(q, b, at);
    assert d + [] == d;
  }

  /** The wire after a time request. */
  ghost function Asked(o: Out, configured: bool): (r: Out)
    requires Sized(|o.mem|)
    ensures |r.mem| == |o.mem|
  {
    RequestIsTyped();
    Publishing(o, configured, ID_TIME, TIME, REQUEST).0
  }

  /** The wire after the announcement of both tables, publishers first. */
  ghost function Negotiated(o: Out, configured: bool, pubs: seq<Setup>, subs: seq<Setup>, inputSize: nat): (r: Out)
    requires Sized(|o.mem|) && |o.mem| < 0x1_0000 - 7 && AllNamed(pubs) && AllNamed(subs) && inputSize < 0x1_0000_0000
    ensures |r.mem| == |o.mem|
  {
    Announced(Announced(o, configured, pubs, |o.mem| + 7), configured, subs, inputSize)
  }

  lemma AskedGrows(o: Out, configured: bool, limit: nat)
    requires Sized(|o.mem|) && |o.mem| <= limit + 1
    ensures Grows(o.wire, Asked(o, configured).wire, limit)
  {
    RequestIsTyped();
    hide Grows, WellFormed, HasType, Publishing, TIME, REQUEST;
    PublishingGrows(o, configured, Item(ID_TIME, TIME, REQUEST), limit);
  }

  lemma AnnouncedGrows(o: Out, configured: bool, ss: seq<Setup>, size: nat, limit: nat)
    requires Sized(|o.mem|) && |o.mem| <= limit + 1 && size < 0x1_0000_0000 && AllNamed(ss)
    ensures Grows(o.wire, Announced(o, configured, ss, size).wire, limit)
  {
    hide Grows, PublishAll, Items, Item.Typed;
    ItemsAreTyped(ss, size);
    PublishAllGrows(o, configured, Items(ss, size), limit);
  }
}
