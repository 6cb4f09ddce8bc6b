/**
 The read chain of rosserial_server's Session: read_sync_first, read_sync_second, read_id_length and
 read_body, each a callback on a fixed number of bytes.
 */
module ServerChain {
  import opened Bytes
  import opened Frames

  /** Which callback waits for bytes. */
  datatype Stage = SyncFirst | SyncSecond | IdLength | Body(topic: u16, n: nat) | Stopped

  /** How many bytes it has asked for. */
  function Need(st: Stage): nat {
    match st
    case SyncFirst => 1
    case SyncSecond => 1
    case IdLength => 5
    case Body(_, n) => n
    case Stopped => 0
  }

  predicate Waiting(st: Stage, capacity: nat) {
    st.Stopped? || (1 <= Need(st) <= capacity && Need(st) <= 0x1_0000)
  }

  /** Session::checksum of a 16-bit value. */
  function Checksum16(v: u16): byte { (Hi(v) as nat + v) % 256 }

  lemma Checksum16Is(v: u16)
    ensures Checksum16(v) == (Lo(v) as nat + Hi(v)) % 256
  {
  }

  /** A callback on the bytes it asked for.  A length that does not fit the read buffer makes the read
      fail; the resync that read_failed attempts is refused as a second pending read, which stops the
      session. */
  function React(st: Stage, s: seq<byte>, at: nat, capacity: nat): (r: (Stage, seq<Delivery>))
    requires capacity >= 5 && Waiting(st, capacity) && !st.Stopped? && |s| == Need(st)
    ensures Waiting(r.0, capacity)
  {
    match st
    case SyncFirst => (if s[0] == 0xff then SyncSecond else SyncFirst, [])
    case SyncSecond => (if s[0] == 0xfe then IdLength else SyncFirst, [])
    case IdLength =>
      FromLoHi(s[0], s[1]);
      FromLoHi(s[3], s[4]);
      var length: u16 := s[0] as int + 256 * s[1] as int;
      var topic: u16 := s[3] as int + 256 * s[4] as int;
      if s[2] as nat + Checksum16(length) != 0xff then (SyncFirst, [])
      else if length + 1 > capacity then (Stopped, [])
      else (Body(topic, length + 1), [])
    case Body(topic, n) =>
      if (Sum(s) % 256 + Checksum16(topic) as nat) % 256 != 0xff then (SyncFirst, [])
      else (SyncFirst, [Delivery(at + n, topic, s[..n - 1])])
  }

  /** The chain on a queue of bytes: where it stops, what is left in the queue, what it dispatched. */
  datatype Outcome = Outcome(stage: Stage, left: seq<byte>, log: seq<Delivery>)

  function Chain(st: Stage, fifo: seq<byte>, at: nat, capacity: nat): (r: Outcome)
    requires capacity >= 5 && Waiting(st, capacity)
    ensures Waiting(r.stage, capacity) && |r.left| <= |fifo|
    ensures r.stage.Stopped? || |r.left| < Need(r.stage)
    decreases |fifo|
  {
    var n := Need(st);
    if st.Stopped? || |fifo| < n then Outcome(st, fifo, []) else
    var (st', d) := React(st, fifo[..n], at, capacity);
    var r := Chain(st', fifo[n..], at + n, capacity);
    Outcome(r.stage, r.left, d + r.log)
  }

  /** An outcome after earlier dispatches. */
  function Then(log: seq<Delivery>, r: Outcome): Outcome { Outcome(r.stage, r.left, log + r.log) }

  lemma ThenNothing(r: Outcome)
    ensures Then([], r) == r
  {
    assert [] + r.log == r.log;
  }

  lemma ThenThen(a: seq<Delivery>, b: seq<Delivery>, r: Outcome)
    ensures Then(a, Then(b, r)) == Then(a + b, r)
  {
    assert a + (b + r.log) == a + b + r.log;
  }

  lemma ChainStep(st: Stage, s: seq<byte>, rest: seq<byte>, at: nat, capacity: nat)
    requires capacity >= 5 && Waiting(st, capacity) && !st.Stopped? && |s| == Need(st)
    ensures var (st', d) := React(st, s, at, capacity);
            Chain(st, s + rest, at, capacity) == Then(d, Chain(st', rest, at + |s|, capacity))
  {
    hide React;
    assert (s + rest)[..|s|] == s && (s + rest)[|s|..] == rest;
  }

  /** A step that dispatches nothing. */
  lemma ChainSilentStep(st: Stage, s: seq<byte>, rest: seq<byte>, at: nat, capacity: nat)
    requires capacity >= 5 && Waiting(st, capacity) && !st.Stopped? && |s| == Need(st)
    requires React(st, s, at, capacity).1 == []
    ensures Chain(st, s + rest, at, capacity) == Chain(React(st, s, at, capacity).0, rest, at + |s|, capacity)
  {
    hide React, Chain;
    ChainStep(st, s, rest, at, capacity);
    ThenNothing(Chain(React(st, s, at, capacity).0, rest, at + |s|, capacity));
  }

  /** Where the hardware happens to cut the byte stream does not matter: going on with what was left
      and the next bytes gives what the whole queue gives. */
  lemma {:induction false} ChunksAreInvisible(st: Stage, a: seq<byte>, b: seq<byte>, at: nat, capacity: nat)
    requires capacity >= 5 && Waiting(st, capacity)
    ensures var r := Chain(st, a, at, capacity);
            Chain(st, a + b, at, capacity)
            == Then(r.log, Chain(r.stage, r.left + b, at + |a| - |r.left|, capacity))
    decreases |a|
  {
    hide React, Then, Chain;
    var n := Need(st);
    if st.Stopped? || |a| < n {
      ChainShort(st, a, at, capacity);
      ThenNothing(Chain(st, a + b, at, capacity));
    } else {
      var s, u := a[..n], a[n..];
      var (st', d) := React(st, s, at, capacity);
      var r, w := Chain(st', u, at + n, capacity), Chain(st, a, at, capacity);
      assert s + u == a && s + (u + b) == a + b;
      ChainStep(st, s, u, at, capacity);
      ChainStep(st, s, u + b, at, capacity);
      ThenParts(d, r);
      ChunksAreInvisible(st', u, b, at + n, capacity);
      assert at + n + |u| - |r.left| == at + |a| - |w.left|;
      ThenThen(d, r.log, Chain(r.stage, r.left + b, at + |a| - |w.left|, capacity));
    }
  }

  lemma ChainShort(st: Stage, a: seq<byte>, at: nat, capacity: nat)
    requires capacity >= 5 && Waiting(st, capacity) && (st.Stopped? || |a| < Need(st))
    ensures Chain(st, a, at, capacity) == Outcome(st, a, [])
  {
  }

  lemma ThenParts(log: seq<Delivery>, r: Outcome)
    ensures var t := Then(log, r); t.stage == r.stage && t.left == r.left && t.log == log + r.log
  {
  }

  // ---- soundness ----

  function Pending(st: Stage): seq<byte>
    requires Need(st) <= 0x1_0000 && (st.Body? ==> st.n > 0)
  {
    match st
    case SyncFirst => []
    case SyncSecond => [0xff]
    case IdLength => [0xff, 0xfe]
    case Body(topic, n) => Header(n - 1, topic)
    case Stopped => []
  }

  predicate Inv(h: seq<byte>, st: Stage, floor: nat) {
    && Need(st) <= 0x1_0000 && (st.Body? ==> st.n > 0)
    && EndsWith(h, Pending(st)) && floor + |Pending(st)| <= |h|
  }

  lemma Idle(h: seq<byte>, st: Stage, floor: nat)
    requires (st.SyncFirst? || st.Stopped?) && floor <= |h|
    ensures Inv(h, st, floor)
  {
    assert h[|h|..] == [];
  }

  lemma ReactIdInv(h: seq<byte>, s: seq<byte>, floor: nat, capacity: nat)
    requires capacity >= 5 && Inv(h, IdLength, floor) && |s| == 5
    ensures var (st', d) := React(IdLength, s, |h|, capacity); d == [] && Inv(h + s, st', floor)
  {
    hide EndsWith, Checksum16;
    var (st', d) := React(IdLength, s, |h|, capacity);
    if st'.Body? {
      FromLoHi(s[0], s[1]);
      FromLoHi(s[3], s[4]);
      Checksum16Is(st'.n - 1);
      EndsWithMore(h, [0xff, 0xfe], s);
      assert [0xff, 0xfe] + s == Header(st'.n - 1, st'.topic);
    } else {
      Idle(h + s, st', floor);
    }
  }

  lemma ReactBodyInv(h: seq<byte>, st: Stage, s: seq<byte>, floor: nat, capacity: nat)
    requires capacity >= 5 && Waiting(st, capacity) && st.Body? && Inv(h, st, floor) && |s| == st.n
    ensures var (st', d) := React(st, s, |h|, capacity);
            Inv(h + s, st', LastAt(d, floor)) && Backed(d, h + s, floor)
  {
    hide EndsWith, Checksum16, Header;
    var (st', d) := React(st, s, |h|, capacity);
    if d != [] {
      var payload, c := s[..st.n - 1], s[st.n - 1];
      assert s == payload + [c];
      BodyChecksum(st.topic, payload, c);
      EndsWithMore(h, Pending(st), s);
      assert Pending(st) + s == Frame(st.topic, payload);
      EndSlice(h + s, Frame(st.topic, payload));
      OneBacked(d[0], h + s, floor);
      assert d == [d[0]];
    }
    Idle(h + s, st', LastAt(d, floor));
  }

  /** The body test accepts exactly the checksum byte of the frame. */
  lemma BodyChecksum(topic: u16, payload: seq<byte>, c: byte)
    ensures (Sum(payload + [c]) % 256 + Checksum16(topic) as nat) % 256 == 0xff
            <==> c == Complement(BodySum(topic, payload))
  {
    SumAppend(payload, [c]);
    assert Sum([c]) == c;
    Checksum16Is(topic);
    var x, y := Sum(payload) + c, Lo(topic) as nat + Hi(topic);
    ModOfSum(x, y);
    ComplementIsUnique(BodySum(topic, payload), c);
    assert x + y == BodySum(topic, payload) + c;
  }

  lemma ModOfSum(x: nat, y: nat)
    ensures (x % 256 + y % 256) % 256 == (x + y) % 256
  {
    var p, q := x / 256, y / 256;
    assert x + y == 256 * (p + q) + (x % 256 + y % 256);
  }

  lemma ReactInv(h: seq<byte>, st: Stage, s: seq<byte>, floor: nat, capacity: nat)
    requires capacity >= 5 && Waiting(st, capacity) && !st.Stopped? && Inv(h, st, floor) && |s| == Need(st)
    ensures var (st', d) := React(st, s, |h|, capacity);
            Inv(h + s, st', LastAt(d, floor)) && Backed(d, h + s, floor)
  {
    match st
    case Body(_, _) => ReactBodyInv(h, st, s, floor, capacity);
    case IdLength => ReactIdInv(h, s, floor, capacity);
    case SyncFirst =>
      assert s == [s[0]];
      if s[0] == 0xff {
        EndsWithMore(h, [], s);
        assert [] + s == [0xff];
      } else {
        Idle(h + s, SyncFirst, floor);
      }
    case SyncSecond =>
      assert s == [s[0]];
      if s[0] == 0xfe {
        EndsWithMore(h, [0xff], s);
        assert [0xff] + s == [0xff, 0xfe];
      } else {
        Idle(h + s, SyncFirst, floor);
      }
  }

  /** On every byte stream, each message the chain dispatches is backed by one well-formed frame, and no
      byte serves two messages. */
  lemma {:induction false} ChainSound(h: seq<byte>, st: Stage, fifo: seq<byte>, floor: nat, capacity: nat)
    requires capacity >= 5 && Waiting(st, capacity) && Inv(h, st, floor)
    ensures Backed(Chain(st, fifo, |h|, capacity).log, h + fifo, floor)
    decreases |fifo|
  {
    hide React, Inv, Backed;
    var n := Need(st);
    if st.Stopped? || |fifo| < n {
      NothingBacked(h + fifo, floor);
    } else {
      var s, rest := fifo[..n], fifo[n..];
      assert s + rest == fifo && h + s + rest == h + fifo;
      var (st', d) := React(st, s, |h|, capacity);
      ReactInv(h, st, s, floor, capacity);
      ChainSound(h + s, st', rest, LastAt(d, floor), capacity);
      BackedLonger(d, h + s, rest, floor);
      BackedJoin(d, Chain(st', rest, |h| + n, capacity).log, h + fifo, floor);
    }
  }

  // ---- completeness ----

  lemma {:induction false} ChainQuiet(noise: seq<byte>, rest: seq<byte>, at: nat, capacity: nat)
    requires capacity >= 5 && Quiet(noise)
    ensures Chain(SyncFirst, noise + rest, at, capacity) == Chain(SyncFirst, rest, at + |noise|, capacity)
    decreases |noise|
  {
    hide Chain;
    if noise == [] {
      assert noise + rest == rest;
    } else if noise[0] != 0xff {
      assert noise + rest == [noise[0]] + (noise[1..] + rest);
      ChainSilentStep(SyncFirst, [noise[0]], noise[1..] + rest, at, capacity);
      ChainQuiet(noise[1..], rest, at + 1, capacity);
    } else {
      var tail := noise[2..] + rest;
      assert noise + rest == [noise[0]] + ([noise[1]] + tail);
      ChainSilentStep(SyncFirst, [noise[0]], [noise[1]] + tail, at, capacity);
      ChainSilentStep(SyncSecond, [noise[1]], tail, at + 1, capacity);
      ChainQuiet(noise[2..], rest, at + 2, capacity);
    }
  }

  lemma ReactId(n: u16, topic: u16, at: nat, capacity: nat)
    requires capacity >= 5 && n + 1 <= capacity
    ensures React(IdLength, Header(n, topic)[2..], at, capacity) == (Body(topic, n + 1), [])
  {
    hide Checksum16;
    var s := Header(n, topic)[2..];
    Checksum16Is(n);
    LoHi(n);
    LoHi(topic);
    assert s[0] == Lo(n) && s[1] == Hi(n) && s[3] == Lo(topic) && s[4] == Hi(topic);
  }

  lemma ChainHeader(n: u16, topic: u16, rest: seq<byte>, at: nat, capacity: nat)
    requires capacity >= 5 && n + 1 <= capacity
    ensures Chain(SyncFirst, Header(n, topic) + rest, at, capacity) == Chain(Body(topic, n + 1), rest, at + 7, capacity)
  {
    hide Chain, Lo, Hi, Complement;
    var s := Header(n, topic)[2..];
    assert Header(n, topic) + rest == [0xff] + ([0xfe] + (s + rest));
    ChainSilentStep(SyncFirst, [0xff], [0xfe] + (s + rest), at, capacity);
    ChainSilentStep(SyncSecond, [0xfe], s + rest, at + 1, capacity);
    ReactId(n, topic, at + 2, capacity);
    ChainSilentStep(IdLength, s, rest, at + 2, capacity);
  }

  /** A whole frame is dispatched once, byte for byte, and the chain waits for the next one. */
  lemma ChainFrame(topic: u16, payload: seq<byte>, rest: seq<byte>, at: nat, capacity: nat)
    requires capacity >= 5 && |payload| + 1 <= capacity && |payload| < 0x1_0000
    ensures var end := at + 8 + |payload|;
            Chain(SyncFirst, Frame(topic, payload) + rest, at, capacity)
            == Then([Delivery(end, topic, payload)], Chain(SyncFirst, rest, end, capacity))
  {
    hide Chain, Header, Then, Complement, Checksum16;
    var c := Complement(BodySum(topic, payload));
    var s := payload + [c];
    assert Frame(topic, payload) + rest == Header(|payload|, topic) + (s + rest);
    ChainHeader(|payload|, topic, s + rest, at, capacity);
    BodyChecksum(topic, payload, c);
    assert s[..|payload|] == payload;
    ChainStep(Body(topic, |payload| + 1), s, rest, at + 7, capacity);
  }

  lemma ChainSent(m: Sent, rest: seq<byte>, at: nat, capacity: nat, limit: nat)
    requires capacity >= 5 && capacity == limit + 1 && Sendable(m, limit)
    ensures var end := at + |m.noise| + 8 + |m.payload|;
            Chain(SyncFirst, Sending(m, limit) + rest, at, capacity)
            == Then([Delivery(end, m.topic, m.payload)], Chain(SyncFirst, rest, end, capacity))
  {
    hide Chain, Frame, Then, Quiet;
    var frame := Frame(m.topic, m.payload);
    assert Sending(m, limit) + rest == m.noise + (frame + rest);
    ChainQuiet(m.noise, frame + rest, at, capacity);
    ChainFrame(m.topic, m.payload, rest, at + |m.noise|, capacity);
  }

  /** Any sequence of frames that fit the read buffer, with quiet noise between them, is dispatched exactly
      once each, in order, byte for byte. */
  lemma {:induction false} ChainStream(ms: seq<Sent>, at: nat, capacity: nat, limit: nat)
    requires capacity >= 5 && capacity == limit + 1 && forall m <- ms :: Sendable(m, limit)
    ensures var r := Chain(SyncFirst, Stream(ms, limit), at, capacity);
            r.stage == SyncFirst && r.left == [] && Contents(r.log) == Messages(ms)
    decreases |ms|
  {
    hide React, Contents, Messages, Sendable, Sending;
    if ms == [] {
      NothingSent();
    } else {
      hide Chain;
      var m, rest := ms[0], Stream(ms[1..], limit);
      var end := at + |m.noise| + 8 + |m.payload|;
      ChainSent(m, rest, at, capacity, limit);
      ChainStream(ms[1..], end, capacity, limit);
      ContentsJoin(Delivery(end, m.topic, m.payload), Chain(SyncFirst, rest, end, capacity).log);
      MessagesSplit(ms);
    }
  }

  // ---- what costs a frame ----

  /** After noise without a sync pair, the sync bytes of a frame are recognised if and only if the noise is quiet;
      otherwise they are used up and the chain hunts on inside the frame. */
  lemma {:induction false} SyncFoundIffQuiet(noise: seq<byte>, at: nat, capacity: nat)
    requires capacity >= 5 && Syncless(noise)
    ensures var r := Chain(SyncFirst, noise + [0xff, 0xfe], at, capacity);
            && (r.stage == IdLength <==> Quiet(noise)) && (!Quiet(noise) ==> r.stage == SyncFirst)
            && r.left == [] && r.log == []
    decreases |noise|
  {
    hide Chain;
    var sync: seq<byte> := [0xff, 0xfe];
    if noise == [] {
      assert noise + sync == [0xff] + ([0xfe] + []);
      ChainSilentStep(SyncFirst, [0xff], [0xfe] + [], at, capacity);
      ChainSilentStep(SyncSecond, [0xfe], [], at + 1, capacity);
      ChainShort(IdLength, [], at + 2, capacity);
    } else if noise[0] != 0xff {
      assert noise + sync == [noise[0]] + (noise[1..] + sync);
      ChainSilentStep(SyncFirst, [noise[0]], noise[1..] + sync, at, capacity);
      SyncFoundIffQuiet(noise[1..], at + 1, capacity);
    } else if |noise| == 1 {
      assert noise + sync == [0xff] + ([0xff] + ([0xfe] + []));
      ChainSilentStep(SyncFirst, [0xff], [0xff] + ([0xfe] + []), at, capacity);
      ChainSilentStep(SyncSecond, [0xff], [0xfe] + [], at + 1, capacity);
      ChainSilentStep(SyncFirst, [0xfe], [], at + 2, capacity);
      ChainShort(SyncFirst, [], at + 3, capacity);
    } else {
      var tail := noise[2..] + sync;
      assert noise + sync == [noise[0]] + ([noise[1]] + tail);
      ChainSilentStep(SyncFirst, [noise[0]], [noise[1]] + tail, at, capacity);
      ChainSilentStep(SyncSecond, [noise[1]], tail, at + 1, capacity);
      SyncFoundIffQuiet(noise[2..], at + 2, capacity);
    }
  }

  /** After a bad length checksum the chain has also used up the two bytes where the topic would be: it goes on seven
      bytes after the start of the frame, the device five. */
  lemma AfterBadLength(l: byte, h: byte, c: byte, a: byte, b: byte, rest: seq<byte>, at: nat, capacity: nat)
    requires capacity >= 5 && c != Complement(l as nat + h)
    ensures Chain(SyncFirst, [0xff, 0xfe, l, h, c, a, b] + rest, at, capacity) == Chain(SyncFirst, rest, at + 7, capacity)
  {
    hide Chain, Checksum16;
    var s: seq<byte> := [l, h, c, a, b];
    assert [0xff, 0xfe, l, h, c, a, b] + rest == [0xff] + ([0xfe] + (s + rest));
    ChainSilentStep(SyncFirst, [0xff], [0xfe] + (s + rest), at, capacity);
    ChainSilentStep(SyncSecond, [0xfe], s + rest, at + 1, capacity);
    BadLengthIsDropped(s, at + 2, capacity);
    ChainSilentStep(IdLength, s, rest, at + 2, capacity);
  }

  lemma BadLengthIsDropped(s: seq<byte>, at: nat, capacity: nat)
    requires capacity >= 5 && |s| == 5 && s[2] != Complement(s[0] as nat + s[1])
    ensures React(IdLength, s, at, capacity) == (SyncFirst, [])
  {
    FromLoHi(s[0], s[1]);
    FromLoHi(s[3], s[4]);
    Checksum16Is(s[0] as int + 256 * s[1] as int);
  }
}
