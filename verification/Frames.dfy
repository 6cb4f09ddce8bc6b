/**
 The rosserial frame: two sync bytes, a length with its own checksum, a topic id, the payload, and a
 checksum over topic and payload.
 */
module Frames {
  import opened Bytes

  type u16 = n: int | 0 <= n < 0x1_0000

  function Lo(n: u16): byte { n % 256 }

  function Hi(n: u16): byte { n / 256 }

  lemma LoHi(n: u16)
    ensures Lo(n) + 256 * Hi(n) as int == n
  {
  }

  lemma FromLoHi(l: byte, h: byte)
    ensures var n := l as int + 256 * h as int; n < 0x1_0000 && Lo(n) == l && Hi(n) == h
  {
  }

  function Header(length: u16, topic: u16): (h: seq<byte>)
    ensures |h| == 7
  {
    [0xff, 0xfe, Lo(length), Hi(length), Complement(Lo(length) as nat + Hi(length)), Lo(topic), Hi(topic)]
  }

  function BodySum(topic: u16, payload: seq<byte>): nat {
    Lo(topic) as nat + Hi(topic) + Sum(payload)
  }

  function Frame(topic: u16, payload: seq<byte>): (f: seq<byte>)
    requires |payload| < 0x1_0000
    ensures |f| == 8 + |payload|
  {
    Header(|payload|, topic) + payload + [Complement(BodySum(topic, payload))]
  }

  /** The frame by its bytes: sync bytes, payload length and a checksum that completes its two bytes to 255, topic id and
      payload, and a checksum that completes these to 255. */
  lemma FrameBytes(topic: u16, payload: seq<byte>)
    requires |payload| < 0x1_0000
    ensures var f, n := Frame(topic, payload), |payload|;
            && f[0] == 0xff && f[1] == 0xfe
            && f[2] as int + 256 * f[3] as int == n && Completes(f[2] as int + f[3] as int, f[4])
            && f[5] as int + 256 * f[6] as int == topic && f[7..7 + n] == payload
            && Completes(f[5] as int + f[6] as int + Sum(payload), f[7 + n])
  {
    hide *;
    FrameParts(topic, payload);
    FrameLength(topic, payload);
    FrameLengthCheck(topic, payload);
    FrameTopic(topic, payload);
    FrameCheck(topic, payload);
  }

  lemma FrameLength(topic: u16, payload: seq<byte>)
    requires |payload| < 0x1_0000
    ensures var f := Frame(topic, payload); f[2] as int + 256 * f[3] as int == |payload|
  {
    hide *;
    FrameParts(topic, payload);
    LoHi(|payload|);
  }

  lemma FrameLengthCheck(topic: u16, payload: seq<byte>)
    requires |payload| < 0x1_0000
    ensures var f := Frame(topic, payload); Completes(f[2] as int + f[3] as int, f[4])
  {
    hide *;
    FrameParts(topic, payload);
    ComplementCompletes(Lo(|payload|) as nat + Hi(|payload|));
  }

  lemma FrameTopic(topic: u16, payload: seq<byte>)
    requires |payload| < 0x1_0000
    ensures var f := Frame(topic, payload); f[5] as int + 256 * f[6] as int == topic
  {
    hide *;
    FrameParts(topic, payload);
    LoHi(topic);
  }

  lemma FrameCheck(topic: u16, payload: seq<byte>)
    requires |payload| < 0x1_0000
    ensures var f := Frame(topic, payload); Completes(f[5] as int + f[6] as int + Sum(payload), f[7 + |payload|])
  {
    hide *;
    FrameParts(topic, payload);
    BodySumIs(topic, payload);
    ComplementCompletes(BodySum(topic, payload));
  }

  /** The rule of both checksums. */
  predicate Completes(sum: nat, c: byte) { (sum + c) % 256 == 255 }

  lemma ComplementCompletes(sum: nat)
    ensures Completes(sum, Complement(sum))
  {
    ComplementIsUnique(sum, Complement(sum));
  }

  lemma BodySumIs(topic: u16, payload: seq<byte>)
    ensures BodySum(topic, payload) == Lo(topic) as int + Hi(topic) as int + Sum(payload)
  {
  }

  lemma FrameParts(topic: u16, payload: seq<byte>)
    requires |payload| < 0x1_0000
    ensures var f, n := Frame(topic, payload), |payload|;
            && f[0] == 0xff && f[1] == 0xfe && f[2] == Lo(n) && f[3] == Hi(n)
            && f[4] == Complement(Lo(n) as nat + Hi(n)) && f[5] == Lo(topic) && f[6] == Hi(topic)
            && f[7..7 + n] == payload && f[7 + n] == Complement(BodySum(topic, payload))
  {
    HeaderBytesOf(|payload|, topic);
    hide Header, Complement, BodySum, Lo, Hi;
  }

  lemma HeaderBytesOf(n: u16, topic: u16)
    ensures var h := Header(n, topic);
            && h[0] == 0xff && h[1] == 0xfe && h[2] == Lo(n) && h[3] == Hi(n)
            && h[4] == Complement(Lo(n) as nat + Hi(n)) && h[5] == Lo(topic) && h[6] == Hi(topic)
  {
    hide Lo, Hi, Complement;
  }

  predicate EndsWith(h: seq<byte>, s: seq<byte>) {
    |s| <= |h| && h[|h| - |s|..] == s
  }

  lemma EndsWithMore(h: seq<byte>, s: seq<byte>, t: seq<byte>)
    requires EndsWith(h, s)
    ensures EndsWith(h + t, s + t)
  {
    assert (h + t)[|h| - |s|..] == h[|h| - |s|..] + t;
  }

  /** A message that was handed on, and how many bytes had been consumed when it was. */
  datatype Delivery = Delivery(at: nat, topic: int, payload: seq<byte>)

  /** Every delivery is backed by exactly one frame that ends at its position in the history, and
      frames of different deliveries do not overlap. */
  predicate Backed(log: seq<Delivery>, h: seq<byte>, floor: nat) {
    log == [] ||
    var d := log[0];
    && 0 <= d.topic < 0x1_0000 && |d.payload| < 0x1_0000
    && floor + 8 + |d.payload| <= d.at <= |h|
    && h[d.at - 8 - |d.payload|..d.at] == Frame(d.topic, d.payload)
    && Backed(log[1..], h, d.at)
  }

  lemma {:induction false} BackedLonger(log: seq<Delivery>, h: seq<byte>, t: seq<byte>, floor: nat)
    requires Backed(log, h, floor)
    ensures Backed(log, h + t, floor)
    decreases |log|
  {
    hide Frame;
    if log != [] {
      var d := log[0];
      BackedLonger(log[1..], h, t, d.at);
      var lo := d.at - 8 - |d.payload|;
      assert (h + t)[lo..d.at] == h[lo..d.at];
    }
  }

  lemma NothingBacked(h: seq<byte>, floor: nat)
    ensures Backed([], h, floor)
  {
  }

  lemma EndSlice(h: seq<byte>, f: seq<byte>)
    requires EndsWith(h, f)
    ensures |f| <= |h| && h[|h| - |f|..|h|] == f
  {
  }

  lemma OneBacked(d: Delivery, h: seq<byte>, floor: nat)
    requires 0 <= d.topic < 0x1_0000 && |d.payload| < 0x1_0000
    requires floor + 8 + |d.payload| <= d.at <= |h|
    requires h[d.at - 8 - |d.payload|..d.at] == Frame(d.topic, d.payload)
    ensures Backed([d], h, floor)
  {
    hide Frame;
    assert [d][1..] == [];
  }

  function LastAt(log: seq<Delivery>, floor: nat): nat {
    if log == [] then floor else log[|log| - 1].at
  }

  lemma {:induction false} BackedJoin(a: seq<Delivery>, b: seq<Delivery>, h: seq<byte>, floor: nat)
    requires Backed(a, h, floor) && Backed(b, h, LastAt(a, floor))
    ensures Backed(a + b, h, floor)
    decreases |a|
  {
    hide Frame;
    if a == [] {
      assert a + b == b;
    } else {
      assert (a + b)[1..] == a[1..] + b;
      BackedJoin(a[1..], b, h, a[0].at);
    }
  }

  /** What may come between frames without costing a frame: a 0xff is always taken for a first sync
      byte, and the byte after it is lost unless it completes the sync. */
  predicate Quiet(noise: seq<byte>)
    decreases |noise|
  {
    if noise == [] then true
    else if noise[0] != 0xff then Quiet(noise[1..])
    else |noise| >= 2 && noise[1] != 0xfe && Quiet(noise[2..])
  }

  lemma {:induction false} NoSyncByteIsQuiet(noise: seq<byte>)
    requires 0xff !in noise
    ensures Quiet(noise)
    decreases |noise|
  {
    if noise != [] { NoSyncByteIsQuiet(noise[1..]); }
  }

  /** Noise in which no sync pair is ever recognised; it may end in a lone first sync byte. */
  predicate Syncless(noise: seq<byte>)
    decreases |noise|
  {
    if noise == [] then true
    else if noise[0] != 0xff then Syncless(noise[1..])
    else |noise| == 1 || (noise[1] != 0xfe && Syncless(noise[2..]))
  }

  /** Frames to be sent, each after some noise. */
  datatype Sent = Sent(noise: seq<byte>, topic: int, payload: seq<byte>)

  predicate Sendable(m: Sent, capacity: nat) {
    Quiet(m.noise) && 0 <= m.topic < 0x1_0000 && |m.payload| <= capacity && |m.payload| < 0x1_0000
  }

  function Sending(m: Sent, capacity: nat): seq<byte>
    requires Sendable(m, capacity)
  {
    m.noise + Frame(m.topic, m.payload)
  }

  function Stream(ms: seq<Sent>, capacity: nat): seq<byte>
    requires forall m <- ms :: Sendable(m, capacity)
  {
    if ms == [] then [] else Sending(ms[0], capacity) + Stream(ms[1..], capacity)
  }

  function Contents(log: seq<Delivery>): seq<(int, seq<byte>)> {
    seq(|log|, i requires 0 <= i < |log| => (log[i].topic, log[i].payload))
  }

  function Messages(ms: seq<Sent>): seq<(int, seq<byte>)> {
    seq(|ms|, i requires 0 <= i < |ms| => (ms[i].topic, ms[i].payload))
  }

  lemma NothingSent()
    ensures Contents([]) == Messages([])
  {
  }

  lemma ContentsJoin(d: Delivery, log: seq<Delivery>)
    ensures Contents([d] + log) == [(d.topic, d.payload)] + Contents(log)
  {
    var l, r := Contents([d] + log), [(d.topic, d.payload)] + Contents(log);
    assert forall i :: 0 < i < |l| ==> l[i] == r[i];
  }

  lemma MessagesSplit(ms: seq<Sent>)
    requires ms != []
    ensures Messages(ms) == [(ms[0].topic, ms[0].payload)] + Messages(ms[1..])
  {
  }
}
