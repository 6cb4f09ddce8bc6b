/** The byte machine of NodeHandle_::spinOnce (ros/node_handle.h), as a function of one byte. */
module DeviceParser {
  import opened Bytes
  import opened Frames

  datatype Mode =
    | FirstFF | ProtocolVer | SizeL | SizeH | SizeChecksum | TopicL | TopicH | Message | MsgChecksum

  /** The state machine variables, message_in, and MAX_SUBSCRIBERS.  `fault` says that the C++ code has
      left defined behaviour: a write behind message_in, or a subscriber slot below zero. */
  datatype Parser = Parser(
    mode: Mode, bytes: int, topic: int, index: nat, checksum: nat,
    messageIn: seq<byte>, maxSubscribers: nat, fault: bool)
  {
    predicate TopicValid() { 0 <= topic < maxSubscribers + 100 }
  }

  /** ID_PUBLISHER, ID_PARAMETER_REQUEST, ID_TIME and ID_TX_STOP of TopicInfo. */
  predicate Special(topic: int) { topic == 0 || topic == 6 || topic == 10 || topic == 11 }

  /** A topic with a handler: special, or a subscriber slot. */
  predicate Dispatchable(maxSubscribers: nat, topic: int) {
    Special(topic) || 100 <= topic < maxSubscribers + 100
  }

  /** One byte.  The second result holds the message if this byte completed one. */
  function Step(p: Parser, data: byte, at: nat): (Parser, seq<Delivery>) {
    var q := p.(checksum := p.checksum + data);
    if q.fault then (q, []) else
    match q.mode
    case Message =>
      if q.index >= |q.messageIn| then (q.(fault := true), []) else
      (q.(messageIn := q.messageIn[q.index := data], index := q.index + 1, bytes := q.bytes - 1,
          mode := if q.bytes - 1 == 0 then MsgChecksum else Message), [])
    case FirstFF => (if data == 0xff then q.(mode := ProtocolVer) else q, [])
    case ProtocolVer => (q.(mode := if data == 0xfe then SizeL else FirstFF), [])
    case SizeL => (q.(bytes := data, index := 0, mode := SizeH, checksum := data), [])
    case SizeH => (q.(bytes := q.bytes + 256 * data as int, mode := SizeChecksum), [])
    case SizeChecksum => (q.(mode := if q.checksum % 256 == 255 then TopicL else FirstFF), [])
    case TopicL => (q.(topic := data, mode := TopicH, checksum := data), [])
    case TopicH =>
      var t := q.(topic := q.topic + 256 * data as int);
      (t.(mode := if !t.TopicValid() then FirstFF else if t.bytes == 0 then MsgChecksum else Message), [])
    case MsgChecksum =>
      var r := q.(mode := FirstFF);
      if q.checksum % 256 != 255 then (r, [])
      else if q.index > |q.messageIn| || !(Special(q.topic) || q.topic >= 100) then (r.(fault := true), [])
      else (r, [Delivery(at + 1, q.topic, q.messageIn[..q.index])])
  }

  /** A run of bytes; `at` counts those consumed before. */
  function Feed(p: Parser, s: seq<byte>, at: nat): (Parser, seq<Delivery>)
    decreases |s|
  {
    if s == [] then (p, []) else
    var (q, d) := Step(p, s[0], at);
    var (r, ds) := Feed(q, s[1..], at + 1);
    (r, d + ds)
  }

  lemma {:induction false} FeedAppend(p: Parser, a: seq<byte>, b: seq<byte>, at: nat)
    ensures var (q, d) := Feed(p, a, at);
            var (r, e) := Feed(q, b, at + |a|);
            Feed(p, a + b, at) == (r, d + e)
    decreases |a|
  {
    hide Step;
    if a == [] {
      assert a + b == b;
      var e := Feed(p, b, at).1;
      assert [] + e == e;
    } else {
      var (q, d) := Step(p, a[0], at);
      FeedAppend(q, a[1..], b, at + 1);
      assert (a + b)[1..] == a[1..] + b;
      var (m, d') := Feed(q, a[1..], at + 1);
      var e := Feed(m, b, at + |a|).1;
      assert d + (d' + e) == d + d' + e;
    }
  }

  // ---- soundness ----

  /** The bytes of the frame that the machine is in the middle of. */
  function Partial(p: Parser): seq<byte>
    requires 0 <= p.index + p.bytes < 0x1_0000 && 0 <= p.topic < 0x1_0000 && p.index <= |p.messageIn|
  {
    var h := Header(p.index + p.bytes, p.topic);
    match p.mode
    case FirstFF => []
    case ProtocolVer => h[..1]
    case SizeL => h[..2]
    case SizeH => h[..3]
    case SizeChecksum => h[..4]
    case TopicL => h[..5]
    case TopicH => h[..6]
    case Message => h + p.messageIn[..p.index]
    case MsgChecksum => h + p.messageIn[..p.index]
  }

  predicate InFrame(p: Parser) {
    && 0 <= p.index + p.bytes < 0x1_0000 && 0 <= p.topic < 0x1_0000 && p.index <= |p.messageIn|
    && (p.mode in {SizeH, SizeChecksum, TopicL, TopicH} ==> p.index == 0)
    && match p.mode
       case FirstFF => true
       case ProtocolVer => true
       case SizeL => true
       case SizeH => p.bytes < 256 && p.checksum == p.bytes
       case SizeChecksum => p.checksum == Lo(p.bytes) as nat + Hi(p.bytes)
       case TopicL => true
       case TopicH => p.topic < 256 && p.checksum == p.topic
       case Message => p.bytes > 0 && p.checksum == BodySum(p.topic, p.messageIn[..p.index])
       case MsgChecksum => p.bytes == 0 && p.checksum == BodySum(p.topic, p.messageIn[..p.index])
  }

  /** The machine is where the bytes consumed so far have put it.  In MODE_MESSAGE in particular, bytes_ is
      positive and index_ + bytes_ is the length declared by the header at the end of the history. */
  predicate Inv(h: seq<byte>, p: Parser, floor: nat) {
    p.fault || (InFrame(p) && EndsWith(h, Partial(p)) && floor + |Partial(p)| <= |h|)
  }

  lemma Extend(h: seq<byte>, p: Parser, q: Parser, b: byte, floor: nat)
    requires !p.fault && Inv(h, p, floor) && InFrame(q) && Partial(q) == Partial(p) + [b]
    ensures Inv(h + [b], q, floor)
  {
    hide Partial;
    EndsWithMore(h, Partial(p), [b]);
  }

  lemma Restart(h: seq<byte>, q: Parser, floor: nat)
    requires InFrame(q) && q.mode == FirstFF && floor <= |h|
    ensures Inv(h, q, floor)
  {
    assert h[|h|..] == [];
  }

  /** How the header grows byte by byte, and what its first bytes do not depend on. */
  lemma HeaderGrows(n: u16, t: u16, n': u16, t': u16)
    ensures var h, h' := Header(n, t), Header(n', t');
            && h[..1] == [0xff] == h'[..1] && h[..2] == h[..1] + [0xfe] == h'[..2]
            && h[..3] == h[..2] + [Lo(n)] && h[..4] == h[..3] + [Hi(n)]
            && h[..5] == h[..4] + [Complement(Lo(n) as nat + Hi(n))]
            && (n == n' ==> h[..5] == h'[..5])
            && h[..6] == h[..5] + [Lo(t)] && h == h[..6] + [Hi(t)]
  {
    hide Lo, Hi, Complement;
  }

  lemma StepSyncInv(h: seq<byte>, p: Parser, b: byte, floor: nat)
    requires !p.fault && Inv(h, p, floor) && p.mode in {FirstFF, ProtocolVer}
    ensures Inv(h + [b], Step(p, b, |h|).0, floor)
  {
    hide EndsWith, Header, Hi, Lo, Complement;
    var q := Step(p, b, |h|).0;
    if q.mode == FirstFF {
      Restart(h + [b], q, floor);
    } else {
      HeaderGrows(q.index + q.bytes, q.topic, p.index + p.bytes, p.topic);
      assert [0xff as byte] == [] + [0xff];
      Extend(h, p, q, b, floor);
    }
  }

  lemma StepSizeLInv(h: seq<byte>, p: Parser, b: byte, floor: nat)
    requires !p.fault && Inv(h, p, floor) && p.mode == SizeL
    ensures Inv(h + [b], Step(p, b, |h|).0, floor)
  {
    hide EndsWith, Header, Hi, Complement;
    var q := Step(p, b, |h|).0;
    HeaderGrows(b, q.topic, p.index + p.bytes, p.topic);
    Extend(h, p, q, b, floor);
  }

  lemma StepSizeInv(h: seq<byte>, p: Parser, b: byte, floor: nat)
    requires !p.fault && Inv(h, p, floor) && p.mode in {SizeH, SizeChecksum}
    ensures Inv(h + [b], Step(p, b, |h|).0, floor)
  {
    hide EndsWith, Header, Complement;
    var q := Step(p, b, |h|).0;
    HeaderGrows(q.bytes, q.topic, p.bytes, p.topic);
    if p.mode == SizeH {
      FromLoHi(p.bytes, b);
      HeaderGrows(p.bytes, p.topic, q.bytes, q.topic);
      Extend(h, p, q, b, floor);
    } else {
      ComplementIsUnique(p.checksum, b);
      if q.mode == FirstFF {
        Restart(h + [b], q, floor);
      } else {
        Extend(h, p, q, b, floor);
      }
    }
  }

  lemma StepTopicInv(h: seq<byte>, p: Parser, b: byte, floor: nat)
    requires !p.fault && Inv(h, p, floor) && p.mode in {TopicL, TopicH}
    ensures Inv(h + [b], Step(p, b, |h|).0, floor)
  {
    hide EndsWith, Header, Complement;
    var q := Step(p, b, |h|).0;
    HeaderGrows(q.bytes, q.topic, p.bytes, p.topic);
    if p.mode == TopicH {
      FromLoHi(p.topic, b);
      HeaderGrows(p.bytes, p.topic, q.bytes, q.topic);
    }
    assert q.messageIn[..0] == [];
    if q.mode == FirstFF {
      Restart(h + [b], q, floor);
    } else {
      assert Header(q.bytes, q.topic) + [] == Header(q.bytes, q.topic);
      Extend(h, p, q, b, floor);
    }
  }

  lemma StepMessageInv(h: seq<byte>, p: Parser, b: byte, floor: nat)
    requires !p.fault && Inv(h, p, floor) && p.mode == Message
    ensures Inv(h + [b], Step(p, b, |h|).0, floor)
  {
    hide EndsWith;
    var q := Step(p, b, |h|).0;
    if !q.fault {
      assert q.messageIn[..q.index] == p.messageIn[..p.index] + [b];
      SumAppend(p.messageIn[..p.index], [b]);
      assert Sum([b]) == b;
      Extend(h, p, q, b, floor);
    }
  }

  lemma StepChecksumInv(h: seq<byte>, p: Parser, b: byte, floor: nat)
    requires !p.fault && Inv(h, p, floor) && p.mode == MsgChecksum
    ensures var (q, d) := Step(p, b, |h|);
            Inv(h + [b], q, LastAt(d, floor)) && Backed(d, h + [b], floor)
  {
    hide EndsWith, Header, Complement, Lo, Hi, Sum;
    var (q, d) := Step(p, b, |h|);
    if d != [] {
      var payload := p.messageIn[..p.index];
      ComplementIsUnique(p.checksum, b);
      EndsWithMore(h, Partial(p), [b]);
      assert Partial(p) + [b] == Frame(p.topic, payload);
      EndSlice(h + [b], Frame(p.topic, payload));
      OneBacked(d[0], h + [b], floor);
      assert d == [d[0]];
    }
    if !q.fault { Restart(h + [b], q, LastAt(d, floor)); }
  }

  lemma StepInv(h: seq<byte>, p: Parser, b: byte, floor: nat)
    requires Inv(h, p, floor)
    ensures var (q, d) := Step(p, b, |h|);
            Inv(h + [b], q, LastAt(d, floor)) && Backed(d, h + [b], floor)
  {
    hide Inv, Backed;
    if p.fault {
      FaultInv(h, p, b, floor);
    } else {
      match p.mode
      case Message => StepMessageInv(h, p, b, floor); NothingBacked(h + [b], floor);
      case MsgChecksum => StepChecksumInv(h, p, b, floor);
      case TopicL => StepTopicInv(h, p, b, floor); NothingBacked(h + [b], floor);
      case TopicH => StepTopicInv(h, p, b, floor); NothingBacked(h + [b], floor);
      case SizeL => StepSizeLInv(h, p, b, floor); NothingBacked(h + [b], floor);
      case SizeH => StepSizeInv(h, p, b, floor); NothingBacked(h + [b], floor);
      case SizeChecksum => StepSizeInv(h, p, b, floor); NothingBacked(h + [b], floor);
      case _ => StepSyncInv(h, p, b, floor); NothingBacked(h + [b], floor);
    }
  }

  lemma FaultInv(h: seq<byte>, p: Parser, b: byte, floor: nat)
    requires p.fault
    ensures var (q, d) := Step(p, b, |h|); Inv(h + [b], q, floor) && d == [] && Backed(d, h + [b], floor)
  {
  }

  /** In every run of bytes, whatever came before, a message is dispatched only when the last 8+n
      bytes consumed are one well-formed frame for its topic and payload. */
  lemma {:induction false} FeedSound(h: seq<byte>, p: Parser, s: seq<byte>, floor: nat)
    requires Inv(h, p, floor)
    ensures var (q, log) := Feed(p, s, |h|);
            Inv(h + s, q, LastAt(log, floor)) && Backed(log, h + s, floor)
    decreases |s|
  {
    hide Inv, Backed, Step;
    if s == [] {
      assert h + s == h;
      NothingBacked(h, floor);
    } else {
      var (q, d) := Step(p, s[0], |h|);
      StepInv(h, p, s[0], floor);
      FeedSound(h + [s[0]], q, s[1..], LastAt(d, floor));
      var ds := Feed(q, s[1..], |h| + 1).1;
      assert h + [s[0]] + s[1..] == h + s;
      BackedLonger(d, h + [s[0]], s[1..], floor);
      BackedJoin(d, ds, h + s, floor);
    }
  }

  // ---- completeness ----

  /** Waiting for a frame, with nothing broken. */
  predicate Idle(p: Parser) { p.mode == FirstFF && !p.fault }

  /** The same node: buffer size and slot count do not change. */
  predicate SameNode(p: Parser, q: Parser) {
    |q.messageIn| == |p.messageIn| && q.maxSubscribers == p.maxSubscribers
  }

  lemma FeedStep(p: Parser, b: byte, rest: seq<byte>, at: nat)
    requires Step(p, b, at).1 == []
    ensures Feed(p, [b] + rest, at) == Feed(Step(p, b, at).0, rest, at + 1)
  {
    hide Step;
    assert ([b] + rest)[1..] == rest;
    var ds := Feed(Step(p, b, at).0, rest, at + 1).1;
    assert [] + ds == ds;
  }

  lemma {:induction false} FeedQuiet(p: Parser, noise: seq<byte>, at: nat)
    requires Idle(p) && Quiet(noise)
    ensures var (q, log) := Feed(p, noise, at); Idle(q) && SameNode(p, q) && log == []
    decreases |noise|
  {
    if noise != [] {
      assert noise == [noise[0]] + noise[1..];
      FeedStep(p, noise[0], noise[1..], at);
      var q := Step(p, noise[0], at).0;
      if noise[0] != 0xff {
        FeedQuiet(q, noise[1..], at + 1);
      } else {
        assert noise[1..] == [noise[1]] + noise[2..];
        FeedStep(q, noise[1], noise[2..], at + 1);
        FeedQuiet(Step(q, noise[1], at + 1).0, noise[2..], at + 2);
      }
    }
  }

  /** A header brings an idle machine to the body of its frame. */
  lemma FeedHeader(p: Parser, n: u16, topic: u16, rest: seq<byte>, at: nat)
    requires Idle(p) && topic < p.maxSubscribers + 100
    ensures var q := p.(mode := if n == 0 then MsgChecksum else Message, bytes := n, topic := topic, index := 0,
                        checksum := BodySum(topic, []));
            Feed(p, Header(n, topic) + rest, at) == Feed(q, rest, at + 7)
  {
    hide Feed, Complement;
    var c := Complement(Lo(n) as nat + Hi(n));
    var r5: seq<byte> := [Lo(topic), Hi(topic)] + rest;
    FeedSizes(p, n, r5, at);
    assert Header(n, topic) + rest == [0xff, 0xfe, Lo(n), Hi(n), c] + r5;
    var p5 := p.(mode := TopicL, bytes := n, index := 0, checksum := Lo(n) as nat + Hi(n) + c);
    assert r5 == [Lo(topic)] + ([Hi(topic)] + rest);
    FeedStep(p5, Lo(topic), [Hi(topic)] + rest, at + 5);
    var p6 := Step(p5, Lo(topic), at + 5).0;
    LoHi(topic);
    FeedStep(p6, Hi(topic), rest, at + 6);
  }

  lemma FeedSizes(p: Parser, n: u16, rest: seq<byte>, at: nat)
    requires Idle(p)
    ensures var c := Complement(Lo(n) as nat + Hi(n));
            Feed(p, [0xff, 0xfe, Lo(n), Hi(n), c] + rest, at) ==
            Feed(p.(mode := TopicL, bytes := n, index := 0, checksum := Lo(n) as nat + Hi(n) + c), rest, at + 5)
  {
    hide Complement, Feed;
    var l, h := Lo(n), Hi(n);
    var c := Complement(l as nat + h);
    var p1 := Step(p, 0xff, at).0;
    var p2 := Step(p1, 0xfe, at + 1).0;
    var p3 := Step(p2, l, at + 2).0;
    var p4 := Step(p3, h, at + 3).0;
    LoHi(n);
    ComplementIsUnique(l as nat + h, c);
    var r4: seq<byte> := [c] + rest;
    var r3: seq<byte> := [h] + r4;
    var r2: seq<byte> := [l] + r3;
    var r1: seq<byte> := [0xfe] + r2;
    assert [0xff, 0xfe, l, h, c] + rest == [0xff] + r1;
    FeedStep(p, 0xff, r1, at);
    FeedStep(p1, 0xfe, r2, at + 1);
    FeedStep(p2, l, r3, at + 2);
    FeedStep(p3, h, r4, at + 3);
    FeedStep(p4, c, rest, at + 4);
  }

  /** The machine in MODE_MESSAGE after the bytes it is waiting for. */
  function Received(p: Parser, data: seq<byte>): Parser
    requires p.index + |data| <= |p.messageIn|
  {
    p.(mode := MsgChecksum, bytes := p.bytes - |data|, index := p.index + |data|,
       checksum := p.checksum + Sum(data), messageIn := Overwrite(p.messageIn, p.index, data))
  }

  lemma OverwriteOneByOne(m: seq<byte>, at: nat, data: seq<byte>)
    requires data != [] && at + |data| <= |m|
    ensures Overwrite(m[at := data[0]], at + 1, data[1..]) == Overwrite(m, at, data)
  {
    assert m[at := data[0]][..at + 1] == m[..at] + [data[0]];
    assert m[at := data[0]][at + |data|..] == m[at + |data|..];
    assert [data[0]] + data[1..] == data;
  }

  lemma {:induction false} FeedPayload(p: Parser, data: seq<byte>, rest: seq<byte>, at: nat)
    requires p.mode == Message && !p.fault && p.bytes == |data| > 0 && p.index + |data| <= |p.messageIn|
    ensures Feed(p, data + rest, at) == Feed(Received(p, data), rest, at + |data|)
    decreases |data|
  {
    hide Overwrite, Feed;
    var b := data[0];
    var q := Step(p, b, at).0;
    assert data + rest == [b] + (data[1..] + rest);
    FeedStep(p, b, data[1..] + rest, at);
    OverwriteOneByOne(p.messageIn, p.index, data);
    if |data| == 1 {
      OverwriteNothing(q.messageIn, q.index);
      assert data[1..] == [] && data[1..] + rest == rest;
    } else {
      FeedPayload(q, data[1..], rest, at + 1);
    }
  }

  lemma OverwriteNothing(m: seq<byte>, at: nat)
    requires at <= |m|
    ensures Overwrite(m, at, []) == m
  {
  }

  /** A whole frame is dispatched once, byte for byte, and the machine is idle again. */
  lemma FeedFrame(p: Parser, topic: u16, payload: seq<byte>, at: nat)
    requires Idle(p) && Dispatchable(p.maxSubscribers, topic) && |payload| <= |p.messageIn| && |payload| < 0x1_0000
    ensures var (q, log) := Feed(p, Frame(topic, payload), at);
            && Idle(q) && SameNode(p, q) && q.messageIn[..|payload|] == payload
            && log == [Delivery(at + 8 + |payload|, topic, payload)]
  {
    hide Step, Header, Feed, Overwrite, Complement, Lo, Hi;
    var n := |payload|;
    var c := [Complement(BodySum(topic, payload))];
    var p7 := p.(mode := if n == 0 then MsgChecksum else Message, bytes := n, topic := topic, index := 0,
                 checksum := BodySum(topic, []));
    assert Frame(topic, payload) == Header(n, topic) + (payload + c);
    FeedHeader(p, n, topic, payload + c, at);
    if n == 0 {
      assert payload == [] && payload + c == c && p7.messageIn[..0] == [];
      FeedChecksum(p7, payload, at + 7);
    } else {
      FeedPayload(p7, payload, c, at + 7);
      var q := Received(p7, payload);
      assert q.messageIn[..q.index] == q.messageIn[0..|payload|] == payload;
      FeedChecksum(q, payload, at + 7 + n);
    }
  }

  lemma FeedChecksum(p: Parser, payload: seq<byte>, at: nat)
    requires p.mode == MsgChecksum && !p.fault && 0 <= p.topic < 0x1_0000 && Dispatchable(p.maxSubscribers, p.topic)
    requires p.index <= |p.messageIn| && p.messageIn[..p.index] == payload
    requires p.checksum == BodySum(p.topic, payload)
    ensures var (q, log) := Feed(p, [Complement(BodySum(p.topic, payload))], at);
            && Idle(q) && SameNode(p, q) && q.messageIn == p.messageIn
            && log == [Delivery(at + 1, p.topic, payload)]
  {
    var c := Complement(BodySum(p.topic, payload));
    ComplementIsUnique(p.checksum, c);
    assert [c][1..] == [];
  }

  lemma FeedSent(p: Parser, m: Sent, at: nat)
    requires Idle(p) && Sendable(m, |p.messageIn|) && Dispatchable(p.maxSubscribers, m.topic)
    ensures var (q, log) := Feed(p, Sending(m, |p.messageIn|), at);
            && Idle(q) && SameNode(p, q)
            && |log| == 1 && (log[0].topic, log[0].payload) == (m.topic, m.payload)
  {
    hide Feed, Frame, Quiet, Dispatchable;
    FeedQuiet(p, m.noise, at);
    var p1 := Feed(p, m.noise, at).0;
    FeedFrame(p1, m.topic, m.payload, at + |m.noise|);
    FeedAppend(p, m.noise, Frame(m.topic, m.payload), at);
  }

  /** Any sequence of frames, with quiet noise between them, is dispatched exactly once each, in order,
      byte for byte. */
  lemma {:induction false} FeedStream(p: Parser, ms: seq<Sent>, at: nat)
    requires Idle(p)
    requires forall m <- ms :: Sendable(m, |p.messageIn|) && Dispatchable(p.maxSubscribers, m.topic)
    ensures var (q, log) := Feed(p, Stream(ms, |p.messageIn|), at);
            Idle(q) && SameNode(p, q) && Contents(log) == Messages(ms)
    decreases |ms|
  {
    hide Step, Sending, Contents, Messages, Sendable, Dispatchable;
    if ms == [] {
      NothingSent();
    } else {
      hide Feed;
      var m, cap := ms[0], |p.messageIn|;
      assert Sendable(m, cap) && Dispatchable(p.maxSubscribers, m.topic);
      var head, rest := Sending(m, cap), Stream(ms[1..], cap);
      FeedSent(p, m, at);
      var (q, one) := Feed(p, head, at);
      FeedStream(q, ms[1..], at + |head|);
      var log := Feed(q, rest, at + |head|).1;
      FeedAppend(p, head, rest, at);
      assert one == [one[0]];
      ContentsJoin(one[0], log);
      MessagesSplit(ms);
    }
  }

  // ---- why the noise must be quiet ----

  /** After noise without a sync pair, the sync bytes of a frame are recognised if and only if the noise
      is quiet; otherwise they are used up and the machine is hunting again inside the frame. */
  lemma {:induction false} SyncFoundIffQuiet(p: Parser, noise: seq<byte>, at: nat)
    requires Idle(p) && Syncless(noise)
    ensures var (q, log) := Feed(p, noise + [0xff, 0xfe], at);
            && (q.mode == SizeL <==> Quiet(noise)) && (!Quiet(noise) ==> Idle(q)) && log == []
    decreases |noise|
  {
    var sync: seq<byte> := [0xff, 0xfe];
    if noise == [] {
      assert noise + sync == [0xff] + [0xfe] && [0xfe as byte] + [] == [0xfe];
      FeedStep(p, 0xff, [0xfe], at);
      FeedStep(Step(p, 0xff, at).0, 0xfe, [], at + 1);
    } else {
      var q := Step(p, noise[0], at).0;
      assert noise + sync == [noise[0]] + (noise[1..] + sync);
      FeedStep(p, noise[0], noise[1..] + sync, at);
      if noise[0] != 0xff {
        SyncFoundIffQuiet(q, noise[1..], at + 1);
      } else if |noise| == 1 {
        assert noise[1..] + sync == [0xff] + ([0xfe] + []);
        FeedStep(q, 0xff, [0xfe] + [], at + 1);
        FeedStep(Step(q, 0xff, at + 1).0, 0xfe, [], at + 2);
      } else {
        assert noise[1..] + sync == [noise[1]] + (noise[2..] + sync);
        FeedStep(q, noise[1], noise[2..] + sync, at + 1);
        SyncFoundIffQuiet(Step(q, noise[1], at + 1).0, noise[2..], at + 2);
      }
    }
  }

  /** After a bad length checksum the machine hunts from the very next byte on. */
  lemma AfterBadLength(p: Parser, l: byte, h: byte, c: byte, rest: seq<byte>, at: nat)
    requires Idle(p) && c != Complement(l as nat + h)
    ensures var q := p.(bytes := l as int + 256 * h as int, index := 0, checksum := l as nat + h + c);
            Idle(q) && Feed(p, [0xff, 0xfe, l, h, c] + rest, at) == Feed(q, rest, at + 5)
  {
    hide Complement, Feed;
    var p1 := Step(p, 0xff, at).0;
    var p2 := Step(p1, 0xfe, at + 1).0;
    var p3 := Step(p2, l, at + 2).0;
    var p4 := Step(p3, h, at + 3).0;
    ComplementIsUnique(l as nat + h, c);
    var r4: seq<byte> := [c] + rest;
    var r3: seq<byte> := [h] + r4;
    var r2: seq<byte> := [l] + r3;
    var r1: seq<byte> := [0xfe] + r2;
    assert [0xff, 0xfe, l, h, c] + rest == [0xff] + r1;
    FeedStep(p, 0xff, r1, at);
    FeedStep(p1, 0xfe, r2, at + 1);
    FeedStep(p2, l, r3, at + 2);
    FeedStep(p3, h, r4, at + 3);
    FeedStep(p4, c, rest, at + 4);
  }

  // ---- when a frame leaves defined behaviour ----

  lemma {:induction false} FeedOverflow(p: Parser, data: seq<byte>, rest: seq<byte>, at: nat)
    requires p.mode == Message && !p.fault && p.bytes == |data| > 0 && p.index + |data| > |p.messageIn|
    ensures Feed(p, data + rest, at).0.fault
    decreases |data|
  {
    hide Feed;
    var b := data[0];
    var q := Step(p, b, at).0;
    assert data + rest == [b] + (data[1..] + rest);
    FeedStep(p, b, data[1..] + rest, at);
    if q.fault { FaultStays(q, data[1..] + rest, at + 1); } else { FeedOverflow(q, data[1..], rest, at + 1); }
  }

  lemma ChecksumFaultsIff(p: Parser, at: nat)
    requires p.mode == MsgChecksum && !p.fault && 0 <= p.topic < 0x1_0000 && p.index <= |p.messageIn|
    requires p.checksum == BodySum(p.topic, p.messageIn[..p.index])
    ensures Feed(p, [Complement(BodySum(p.topic, p.messageIn[..p.index]))], at).0.fault
            <==> !(Special(p.topic) || p.topic >= 100)
  {
    hide BodySum;
    var c := Complement(BodySum(p.topic, p.messageIn[..p.index]));
    ComplementIsUnique(p.checksum, c);
    assert [c][1..] == [];
  }

  lemma SpecialIs(topic: int)
    ensures Special(topic) <==> topic in {0, 6, 10, 11}
  {
  }

  /** A frame for a topic that passes isTopicValid takes an idle machine out of defined behaviour if and only if its payload
      does not fit message_in, or its topic has neither a branch of its own nor a subscriber slot. */
  lemma FrameFaultsIff(p: Parser, topic: u16, payload: seq<byte>, at: nat)
    requires Idle(p) && topic < p.maxSubscribers + 100 && |payload| < 0x1_0000
    ensures Feed(p, Frame(topic, payload), at).0.fault
            <==> |payload| > |p.messageIn| || (topic < 100 && topic !in {0, 6, 10, 11})
  {
    SpecialIs(topic);
    hide Step, Header, Feed, Special;
    var n := |payload|;
    var c := [Complement(BodySum(topic, payload))];
    var p7 := p.(mode := if n == 0 then MsgChecksum else Message, bytes := n, topic := topic, index := 0,
                 checksum := BodySum(topic, []));
    assert Frame(topic, payload) == Header(n, topic) + (payload + c);
    FeedHeader(p, n, topic, payload + c, at);
    if n == 0 {
      assert payload == [] && payload + c == c && p7.messageIn[..0] == [];
      ChecksumFaultsIff(p7, at + 7);
    } else if n <= |p.messageIn| {
      FeedPayload(p7, payload, c, at + 7);
      var q := Received(p7, payload);
      assert q.messageIn[..q.index] == q.messageIn[0..|payload|] == payload;
      ChecksumFaultsIff(q, at + 7 + n);
    } else {
      FeedOverflow(p7, payload, c, at + 7);
    }
  }

  // ---- spinOnce calls ----

  /** One call of spinOnce: whether the running message had timed out, and the bytes it consumed. */
  datatype Call = Call(timedOut: bool, consumed: seq<byte>)

  function Begin(p: Parser, timedOut: bool): Parser { if timedOut then p.(mode := FirstFF) else p }

  function Spin(p: Parser, calls: seq<Call>, at: nat): (Parser, seq<Delivery>)
    decreases |calls|
  {
    if calls == [] then (p, []) else
    var (q, d) := Feed(Begin(p, calls[0].timedOut), calls[0].consumed, at);
    var (r, ds) := Spin(q, calls[1..], at + |calls[0].consumed|);
    (r, d + ds)
  }

  function Consumed(calls: seq<Call>): seq<byte> {
    if calls == [] then [] else calls[0].consumed + Consumed(calls[1..])
  }

  lemma BeginInv(h: seq<byte>, p: Parser, timedOut: bool, floor: nat)
    requires Inv(h, p, floor) && floor <= |h|
    ensures Inv(h, Begin(p, timedOut), floor)
  {
    if timedOut && !p.fault { Restart(h, Begin(p, timedOut), floor); }
  }

  lemma {:induction false} FloorStays(log: seq<Delivery>, h: seq<byte>, floor: nat)
    requires Backed(log, h, floor) && floor <= |h|
    ensures LastAt(log, floor) <= |h|
    decreases |log|
  {
    hide Frame;
    if log != [] { FloorStays(log[1..], h, log[0].at); }
  }

  /** Soundness over every run of spinOnce calls, timeouts included: each dispatch is backed by one
      well-formed frame among the bytes consumed, and no byte serves two dispatches. */
  lemma {:induction false} SpinSound(h: seq<byte>, p: Parser, calls: seq<Call>, floor: nat)
    requires Inv(h, p, floor) && floor <= |h|
    ensures var (q, log) := Spin(p, calls, |h|);
            Inv(h + Consumed(calls), q, LastAt(log, floor)) && Backed(log, h + Consumed(calls), floor)
    decreases |calls|
  {
    hide Inv, Backed, Feed, Begin;
    if calls == [] {
      assert h + Consumed(calls) == h;
      NothingBacked(h, floor);
    } else {
      var c, rest := calls[0], Consumed(calls[1..]);
      BeginInv(h, p, c.timedOut, floor);
      var b := Begin(p, c.timedOut);
      FeedSound(h, b, c.consumed, floor);
      var (q, d) := Feed(b, c.consumed, |h|);
      FloorStays(d, h + c.consumed, floor);
      SpinSound(h + c.consumed, q, calls[1..], LastAt(d, floor));
      assert h + c.consumed + rest == h + Consumed(calls);
      BackedLonger(d, h + c.consumed, rest, floor);
      BackedJoin(d, Spin(q, calls[1..], |h| + |c.consumed|).1, h + Consumed(calls), floor);
    }
  }

  /** How the bytes are split over calls does not matter as long as no message times out. */
  lemma {:induction false} SplitIsInvisible(p: Parser, calls: seq<Call>, at: nat)
    requires forall c <- calls :: !c.timedOut
    ensures Spin(p, calls, at) == Feed(p, Consumed(calls), at)
    decreases |calls|
  {
    hide Feed;
    if calls == [] {
      FeedNothing(p, at);
    } else {
      var c := calls[0];
      assert !c.timedOut;
      SplitIsInvisible(Feed(p, c.consumed, at).0, calls[1..], at + |c.consumed|);
      FeedAppend(p, c.consumed, Consumed(calls[1..]), at);
    }
  }

  lemma FeedNothing(p: Parser, at: nat)
    ensures Feed(p, [], at) == (p, [])
  {
  }

  /** Completeness over calls: frames with quiet noise between them, split over spinOnce calls in any way
      without a timeout, are dispatched exactly once each, in order, byte for byte. */
  lemma SpinComplete(p: Parser, ms: seq<Sent>, calls: seq<Call>, at: nat)
    requires Idle(p) && forall c <- calls :: !c.timedOut
    requires forall m <- ms :: Sendable(m, |p.messageIn|) && Dispatchable(p.maxSubscribers, m.topic)
    requires Consumed(calls) == Stream(ms, |p.messageIn|)
    ensures var (q, log) := Spin(p, calls, at); Idle(q) && Contents(log) == Messages(ms)
  {
    hide Feed, Spin, Contents, Messages;
    SplitIsInvisible(p, calls, at);
    FeedStream(p, ms, at);
  }

  /** In particular with noise that is free of 0xff. */
  lemma SpinCompletePlain(p: Parser, ms: seq<Sent>, calls: seq<Call>, at: nat)
    requires Idle(p) && forall c <- calls :: !c.timedOut
    requires forall m <- ms :: 0xff !in m.noise && |m.payload| <= |p.messageIn| && |m.payload| < 0x1_0000
                               && 0 <= m.topic < 0x1_0000 && Dispatchable(p.maxSubscribers, m.topic)
    ensures forall m <- ms :: Sendable(m, |p.messageIn|)
    ensures Consumed(calls) == Stream(ms, |p.messageIn|) ==>
              var (q, log) := Spin(p, calls, at); Idle(q) && Contents(log) == Messages(ms)
  {
    hide Spin, Contents, Messages, Stream, Consumed, Quiet;
    forall m | m in ms ensures Sendable(m, |p.messageIn|) { NoSyncByteIsQuiet(m.noise); }
    if Consumed(calls) == Stream(ms, |p.messageIn|) { SpinComplete(p, ms, calls, at); }
  }

  lemma {:induction false} FaultStays(p: Parser, s: seq<byte>, at: nat)
    requires p.fault
    ensures Feed(p, s, at).0.fault
    decreases |s|
  {
    if s != [] { FaultStays(Step(p, s[0], at).0, s[1..], at + 1); }
  }
}
