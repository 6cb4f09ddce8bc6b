/** API frames of the XBee package (frame.py) and the reader that waits for one (base.py). */
module XBee {
  import opened Bytes

  const START: byte := 0x7E
  const ESCAPE: byte := 0x7D
  const XON: byte := 0x11
  const XOFF: byte := 0x13

  predicate Special(b: byte) { b == START || b == ESCAPE || b == XON || b == XOFF }

  /** b ^ 0x20. */
  function Flipped(b: byte): byte { if b / 32 % 2 == 1 then b - 32 else b + 32 }

  lemma FlippedBack(b: byte)
    ensures Flipped(Flipped(b)) == b
  {
  }

  /** The special bytes and what stands for them behind an escape byte. */
  lemma FlippedSpecial(b: byte)
    ensures Special(b) <==> b in {0x7E, 0x7D, 0x11, 0x13}
    ensures Flipped(0x7E) == 0x5E && Flipped(0x7D) == 0x5D && Flipped(0x11) == 0x31 && Flipped(0x13) == 0x33
  {
  }

  // ---- writing ----

  /** struct.pack("> h", n). */
  function LengthBytes(n: nat): seq<byte>
    requires n < 0x8000
  {
    [n / 256, n % 256]
  }

  /** A frame behind its start byte, before escaping. */
  function Body(data: seq<byte>): (s: seq<byte>)
    requires |data| < 0x8000
    ensures |s| == |data| + 3
  {
    LengthBytes(|data|) + data + [Complement(Sum(data))]
  }

  function Escaped(s: seq<byte>): seq<byte> {
    if s == [] then [] else (if Special(s[0]) then [ESCAPE, Flipped(s[0])] else [s[0]]) + Escaped(s[1..])
  }

  /** output() of a new frame. */
  function Output(data: seq<byte>, escaped: bool): seq<byte>
    requires |data| < 0x8000
  {
    [START] + if escaped then Escaped(Body(data)) else Body(data)
  }

  /** A frame that is not escaped, by its bytes: start byte, length with the high byte first, payload, and the byte that
      completes the payload to 255. */
  lemma OutputBytes(data: seq<byte>)
    requires |data| < 0x8000
    ensures var out, n := Output(data, false), |data|;
            && |out| == n + 4 && out[0] == 0x7E && 256 * out[1] as int + out[2] as int == n
            && out[3..3 + n] == data && (Sum(data) + out[n + 3]) % 256 == 255
  {
    ComplementIsUnique(Sum(data), Complement(Sum(data)));
    hide Complement, Sum;
  }

  /** An escaped frame is the same with every special byte behind the start replaced by two: 0x7D and that byte with bit 5
      flipped. */
  lemma {:induction false} EscapedBytes(s: seq<byte>, t: seq<byte>)
    ensures Escaped(s + t) == Escaped(s) + Escaped(t)
    decreases |s|
  {
    if s == [] {
      assert s + t == t;
    } else {
      assert (s + t)[1..] == s[1..] + t;
      EscapedBytes(s[1..], t);
    }
  }

  lemma EscapedByte(b: byte)
    ensures Escaped([b]) == if b == 0x7E then [0x7D, 0x5E] else if b == 0x7D then [0x7D, 0x5D]
                            else if b == 0x11 then [0x7D, 0x31] else if b == 0x13 then [0x7D, 0x33] else [b]
  {
    EscapedOne(b);
  }

  lemma OutputEscaped(data: seq<byte>)
    requires |data| < 0x8000
    ensures Output(data, true)[0] == 0x7E && Output(data, true)[1..] == Escaped(Output(data, false)[1..])
  {
    hide Escaped, Body;
  }

  /** In escaped mode neither a start byte nor XON or XOFF occurs behind the start of a frame. */
  lemma {:induction false} EscapedIsTransparent(s: seq<byte>)
    ensures forall b <- Escaped(s) :: b != START && b != XON && b != XOFF
  {
    if s != [] { EscapedIsTransparent(s[1..]); }
  }

  lemma OutputIsTransparent(data: seq<byte>)
    requires |data| < 0x8000
    ensures forall i :: 0 <= i < |Output(data, true)| ==>
              (Output(data, true)[i] == 0x7E <==> i == 0) && Output(data, true)[i] != 0x11 && Output(data, true)[i] != 0x13
  {
    var s := Escaped(Body(data));
    EscapedIsTransparent(Body(data));
    forall i | 0 < i < |Output(data, true)|
      ensures Output(data, true)[i] != START && Output(data, true)[i] != XON && Output(data, true)[i] != XOFF
    {
      assert Output(data, true)[i] == s[i - 1] && s[i - 1] in s;
    }
  }

  // ---- reading ----

  /** raw_data and _unescape_next_byte of a frame that is being received. */
  datatype Frame = Frame(raw: seq<byte>, unescape: bool)

  function Fill(f: Frame, escaped: bool, b: byte): Frame {
    if f.unescape then Frame(f.raw + [Flipped(b)], false)
    else if escaped && b == ESCAPE then f.(unescape := true)
    else f.(raw := f.raw + [b])
  }

  /** struct.unpack("> h", s): a signed number. */
  function Length(hi: byte, lo: byte): int { (if hi >= 128 then hi as int - 256 else hi as int) * 256 + lo as int }

  function Remaining(raw: seq<byte>): int {
    if |raw| < 3 then 3 - |raw| else 4 + Length(raw[1], raw[2]) - |raw|
  }

  /** raw[3:3 + n] of Python. */
  function SliceFrom3(raw: seq<byte>, n: int): seq<byte> {
    var stop := if 3 + n >= 0 then 3 + n else 3 + n + |raw|;
    if stop <= 3 || |raw| <= 3 then [] else raw[3..if stop <= |raw| then stop else |raw|]
  }

  datatype Parsed = Data(data: seq<byte>) | BadChecksum

  /** parse(). */
  function Parse(raw: seq<byte>): Parsed
    requires |raw| >= 3
  {
    var data := SliceFrom3(raw, Length(raw[1], raw[2]));
    if (Sum(data) + raw[|raw| - 1]) % 256 == 0xff then Data(data) else BadChecksum
  }

  /** _wait_for_frame: what it returns and the bytes it has not read, or the state in which it waits for more. */
  datatype Waiting = Got(data: seq<byte>, left: seq<byte>) | More(mode: bool, frame: Frame)

  const FRESH := Frame([], false)

  function Wait(mode: bool, f: Frame, escaped: bool, input: seq<byte>): Waiting
    decreases |input|
  {
    if input == [] then More(mode, f) else
    var b := input[0];
    if !mode && b != START then Wait(false, f, escaped, input[1..]) else
    var g := Fill(f, escaped, b);
    if Remaining(g.raw) > 0 then Wait(true, g, escaped, input[1..]) else
    match Parse(g.raw)
    case Data(data) => Got(data, input[1..])
    case BadChecksum => Wait(false, FRESH, escaped, input[1..])
  }

  /** Bytes that are not a start byte are skipped. */
  lemma {:induction false} PrefixIsSkipped(f: Frame, escaped: bool, noise: seq<byte>, rest: seq<byte>)
    requires START !in noise
    ensures Wait(false, f, escaped, noise + rest) == Wait(false, f, escaped, rest)
    decreases |noise|
  {
    if noise == [] {
      assert noise + rest == rest;
    } else {
      assert (noise + rest)[1..] == noise[1..] + rest;
      PrefixIsSkipped(f, escaped, noise[1..], rest);
    }
  }

  lemma WaitStep(f: Frame, escaped: bool, b: byte, rest: seq<byte>)
    requires Remaining(Fill(f, escaped, b).raw) > 0
    ensures Wait(true, f, escaped, [b] + rest) == Wait(true, Fill(f, escaped, b), escaped, rest)
  {
    assert ([b] + rest)[1..] == rest;
  }

  /** One logical byte of a frame that is not complete with it. */
  lemma WaitByte(raw: seq<byte>, escaped: bool, b: byte, rest: seq<byte>)
    requires Remaining(raw) > 0 && Remaining(raw + [b]) > 0
    ensures var wire := if escaped then Escaped([b]) else [b];
            Wait(true, Frame(raw, false), escaped, wire + rest) == Wait(true, Frame(raw + [b], false), escaped, rest)
  {
    EscapedOne(b);
    FlippedBack(b);
    if escaped && Special(b) {
      assert [ESCAPE, Flipped(b)] + rest == [ESCAPE] + ([Flipped(b)] + rest);
      WaitStep(Frame(raw, false), escaped, ESCAPE, [Flipped(b)] + rest);
      WaitStep(Frame(raw, true), escaped, Flipped(b), rest);
    } else {
      WaitStep(Frame(raw, false), escaped, b, rest);
    }
  }

  lemma EscapedOne(b: byte)
    ensures Escaped([b]) == if Special(b) then [ESCAPE, Flipped(b)] else [b]
  {
    assert [b][1..] == [];
  }

  function Wire(s: seq<byte>, escaped: bool): seq<byte> { if escaped then Escaped(s) else s }

  lemma WireSplit(b: byte, s: seq<byte>, escaped: bool)
    ensures Wire([b] + s, escaped) == Wire([b], escaped) + Wire(s, escaped)
  {
    EscapedOne(b);
    assert ([b] + s)[1..] == s;
  }

  /** The byte that completes a frame. */
  lemma WaitLast(raw: seq<byte>, escaped: bool, b: byte, data: seq<byte>, rest: seq<byte>)
    requires Remaining(raw) > 0 && Remaining(raw + [b]) <= 0 && |raw| >= 2 && Parse(raw + [b]) == Data(data)
    ensures Wait(true, Frame(raw, false), escaped, Wire([b], escaped) + rest) == Got(data, rest)
  {
    EscapedOne(b);
    FlippedBack(b);
    if escaped && Special(b) {
      assert [ESCAPE, Flipped(b)] + rest == [ESCAPE] + ([Flipped(b)] + rest);
      WaitStep(Frame(raw, false), escaped, ESCAPE, [Flipped(b)] + rest);
      assert ([Flipped(b)] + rest)[1..] == rest;
    } else {
      assert ([b] + rest)[1..] == rest;
    }
  }

  function Whole(data: seq<byte>): (s: seq<byte>)
    requires |data| < 0x8000
    ensures |s| == |data| + 4
  {
    [START] + Body(data)
  }

  lemma LengthBack(n: nat)
    requires n < 0x8000
    ensures Length(n / 256, n % 256) == n
  {
  }

  lemma RemainingOf(data: seq<byte>, p: nat)
    requires |data| < 0x8000 && p <= |data| + 4
    ensures Remaining(Whole(data)[..p]) == if p < 3 then 3 - p else |data| + 4 - p
  {
    LengthBack(|data|);
    if p >= 3 {
      var raw := Whole(data)[..p];
      assert raw[1] == |data| / 256 && raw[2] == |data| % 256;
    }
  }

  lemma ParseWhole(data: seq<byte>)
    requires |data| < 0x8000
    ensures Parse(Whole(data)) == Data(data)
  {
    var raw := Whole(data);
    LengthBack(|data|);
    assert raw[1] == |data| / 256 && raw[2] == |data| % 256;
    assert SliceFrom3(raw, |data|) == data;
    ComplementIsUnique(Sum(data), Complement(Sum(data)));
  }

  lemma {:induction false} WaitWhole(data: seq<byte>, p: nat, escaped: bool, rest: seq<byte>)
    requires |data| < 0x8000 && p < |data| + 4
    ensures Wait(true, Frame(Whole(data)[..p], false), escaped, Wire(Whole(data)[p..], escaped) + rest) == Got(data, rest)
    decreases |data| + 4 - p
  {
    hide Wait, Whole, Parse, Remaining, Wire;
    var full := Whole(data);
    var b := full[p];
    RemainingOf(data, p);
    RemainingOf(data, p + 1);
    assert full[p..] == [b] + full[p + 1..] && full[..p + 1] == full[..p] + [b];
    WireSplit(b, full[p + 1..], escaped);
    var more := Wire(full[p + 1..], escaped);
    if p + 1 == |full| {
      assert full[p + 1..] == [] && full[..p + 1] == full;
      NothingOnWire(escaped);
      ParseWhole(data);
      WaitLast(full[..p], escaped, b, data, rest);
      assert Wire([b], escaped) + [] + rest == Wire([b], escaped) + rest;
    } else {
      assert Wire([b], escaped) + more + rest == Wire([b], escaped) + (more + rest);
      WireOne(b, escaped);
      WaitByte(full[..p], escaped, b, more + rest);
      WaitWhole(data, p + 1, escaped, rest);
    }
  }

  lemma NothingOnWire(escaped: bool)
    ensures Wire([], escaped) == []
  {
  }

  lemma WireOne(b: byte, escaped: bool)
    ensures Wire([b], escaped) == if escaped then Escaped([b]) else [b]
  {
  }

  /** Whatever the payload, escaped or not, and behind any bytes that are not start bytes, the reader returns exactly
      the payload and stops at the end of the frame. */
  lemma RoundTrip(noise: seq<byte>, data: seq<byte>, escaped: bool, rest: seq<byte>)
    requires |data| < 0x8000 && START !in noise
    ensures Wait(false, FRESH, escaped, noise + Output(data, escaped) + rest) == Got(data, rest)
  {
    var out, wire := Output(data, escaped), Wire(Body(data), escaped);
    assert noise + out + rest == noise + (out + rest);
    PrefixIsSkipped(FRESH, escaped, noise, out + rest);
    assert out + rest == [START] + (wire + rest);
    assert Whole(data)[1..] == Body(data) && Whole(data)[..1] == [START];
    assert Fill(FRESH, escaped, START) == Frame([START], false);
    assert ([START] + (wire + rest))[1..] == wire + rest;
    WaitWhole(data, 1, escaped, rest);
  }

  // ---- many frames ----

  datatype Sent = Sent(noise: seq<byte>, data: seq<byte>)

  function OnAir(ms: seq<Sent>, escaped: bool): seq<byte>
    requires forall m <- ms :: |m.data| < 0x8000
  {
    if ms == [] then [] else ms[0].noise + Output(ms[0].data, escaped) + OnAir(ms[1..], escaped)
  }

  /** _wait_for_frame again and again. */
  function WaitAll(escaped: bool, input: seq<byte>): seq<seq<byte>>
    decreases |input|
  {
    var r := Wait(false, FRESH, escaped, input);
    WaitConsumes(false, FRESH, escaped, input);
    if r.Got? then [r.data] + WaitAll(escaped, r.left) else []
  }

  lemma {:induction false} WaitConsumes(mode: bool, f: Frame, escaped: bool, input: seq<byte>)
    ensures var r := Wait(mode, f, escaped, input); r.Got? ==> |r.left| < |input|
    decreases |input|
  {
    if input != [] {
      WaitConsumes(false, f, escaped, input[1..]);
      WaitConsumes(true, Fill(f, escaped, input[0]), escaped, input[1..]);
      WaitConsumes(false, FRESH, escaped, input[1..]);
    }
  }

  function Payloads(ms: seq<Sent>): seq<seq<byte>> {
    if ms == [] then [] else [ms[0].data] + Payloads(ms[1..])
  }

  /** A sequence of frames is read exactly once each, in order. */
  lemma {:induction false} AllAreRead(ms: seq<Sent>, escaped: bool)
    requires forall m <- ms :: |m.data| < 0x8000 && START !in m.noise
    ensures WaitAll(escaped, OnAir(ms, escaped)) == Payloads(ms)
    decreases |ms|
  {
    hide Wait, Output;
    if ms == [] {
      NothingRead(escaped);
    } else {
      RoundTrip(ms[0].noise, ms[0].data, escaped, OnAir(ms[1..], escaped));
      AllAreRead(ms[1..], escaped);
    }
  }

  lemma NothingRead(escaped: bool)
    ensures Wait(false, FRESH, escaped, []).More?
  {
  }

  // ---- soundness ----

  /** What a frame under way has in raw_data: a start byte first, and never more than its length announces. */
  predicate Plausible(mode: bool, f: Frame) {
    if mode then |f.raw| > 0 && f.raw[0] == START && Remaining(f.raw) > 0 else f == FRESH
  }

  /** The raw bytes of a frame whose length field is negative: no data at all, and the length taken for a checksum. */
  predicate Negative(raw: seq<byte>) { |raw| == 3 && raw[0] == START && raw[1] >= 128 && raw[2] == 0xff }

  /** Accepted by parse, as data. */
  predicate Accepted(raw: seq<byte>, data: seq<byte>) {
    (|data| < 0x8000 && raw == Whole(data)) || (data == [] && Negative(raw))
  }

  lemma WholeHeader(data: seq<byte>)
    requires |data| < 0x8000
    ensures var raw := Whole(data); raw[0] == START && Length(raw[1], raw[2]) == |data| && raw[1] < 128
  {
    LengthBack(|data|);
    var raw := Whole(data);
    assert raw[1] == |data| / 256 && raw[2] == |data| % 256;
  }

  lemma WholeFromParts(raw: seq<byte>, n: nat)
    requires n < 0x8000 && |raw| == n + 4 && raw[0] == START && Length(raw[1], raw[2]) == n
    ensures raw == [START] + (LengthBytes(n) + raw[3..3 + n] + [raw[n + 3]])
  {
    var r := [START] + (LengthBytes(n) + raw[3..3 + n] + [raw[n + 3]]);
    assert r[1] == raw[1] && r[2] == raw[2];
    assert forall i :: 3 <= i < n + 3 ==> r[i] == raw[3..3 + n][i - 3];
  }

  /** parse accepts exactly whole frames, and headers with a negative length that end in 0xff. */
  lemma ParseAccepts(raw: seq<byte>, data: seq<byte>)
    requires |raw| >= 3 && raw[0] == START
    requires var n := Length(raw[1], raw[2]); |raw| == if n < 0 then 3 else n + 4
    ensures Parse(raw) == Data(data) <==> Accepted(raw, data)
  {
    hide Whole;
    var n := Length(raw[1], raw[2]);
    if |data| < 0x8000 && raw == Whole(data) { WholeHeader(data); }
    if n >= 0 {
      WholeFromParts(raw, n);
      var d, c := raw[3..3 + n], raw[n + 3];
      assert SliceFrom3(raw, n) == d;
      ComplementIsUnique(Sum(d), c);
      WholeIs(d);
      if |data| < 0x8000 && raw == Whole(data) { ParseWhole(data); }
    }
  }

  lemma WholeIs(d: seq<byte>)
    requires |d| < 0x8000
    ensures Whole(d) == [START] + (LengthBytes(|d|) + d + [Complement(Sum(d))])
  {
  }

  /** When the reader calls parse, the frame has just become complete. */
  lemma JustComplete(f: Frame, escaped: bool, b: byte)
    requires Plausible(true, f) || (f == FRESH && b == START)
    ensures var raw := Fill(f, escaped, b).raw;
            && |raw| > 0 && raw[0] == START
            && (Remaining(raw) <= 0 ==> |raw| >= 3 && |raw| == if Length(raw[1], raw[2]) < 0 then 3 else Length(raw[1], raw[2]) + 4)
  {
  }

  function FillAll(escaped: bool, s: seq<byte>): Frame {
    if s == [] then FRESH else Fill(FillAll(escaped, s[..|s| - 1]), escaped, s[|s| - 1])
  }

  lemma FillOneMore(escaped: bool, h: seq<byte>, k: nat, b: byte)
    requires k <= |h|
    ensures FillAll(escaped, (h + [b])[k..]) == Fill(FillAll(escaped, h[k..]), escaped, b)
  {
    assert (h + [b])[k..] == h[k..] + [b];
    assert (h[k..] + [b])[..|h| - k] == h[k..];
  }

  /** On every input, what the reader returns was backed by a frame that parse accepts, made of the bytes read since
      some start byte. */
  lemma {:induction false} WaitSound(mode: bool, f: Frame, escaped: bool, h: seq<byte>, k: nat, input: seq<byte>)
    returns (k': nat)
    requires k <= |h| && Plausible(mode, f) && f == FillAll(escaped, h[k..])
    ensures var r := Wait(mode, f, escaped, input);
            r.Got? ==> |r.left| <= |input|
                       && var read := h + input[..|input| - |r.left|];
                          k' <= |read| && Accepted(FillAll(escaped, read[k'..]).raw, r.data)
    decreases |input|
  {
    hide Accepted, Parse, Remaining, FillAll;
    k' := 0;
    if input != [] {
      var b, rest := input[0], input[1..];
      var h' := h + [b];
      NothingFilled(escaped, h');
      if !mode && b != START {
        k' := WaitSound(false, f, escaped, h', |h'|, rest);
      } else {
        var g := Fill(f, escaped, b);
        FillOneMore(escaped, h, k, b);
        JustComplete(f, escaped, b);
        if Remaining(g.raw) > 0 {
          k' := WaitSound(true, g, escaped, h', k, rest);
        } else if Parse(g.raw).Data? {
          ParseAccepts(g.raw, Parse(g.raw).data);
          assert h + input[..1] == h';
          k' := k;
        } else {
          k' := WaitSound(false, FRESH, escaped, h', |h'|, rest);
        }
      }
      ReadSplit(h, input, Wait(mode, f, escaped, input));
    }
  }

  lemma ReadSplit(h: seq<byte>, input: seq<byte>, r: Waiting)
    requires input != []
    ensures r.Got? && |r.left| <= |input| - 1 ==>
              var n := |input| - |r.left|; h + input[..n] == h + [input[0]] + input[1..][..n - 1]
  {
    if r.Got? && |r.left| <= |input| - 1 {
      var n := |input| - |r.left|;
      assert input[..n] == [input[0]] + input[1..][..n - 1];
    }
  }

  lemma NothingFilled(escaped: bool, h: seq<byte>)
    ensures FillAll(escaped, h[|h|..]) == FRESH
  {
  }

  // ---- the classes ----

  class APIFrame {
    var data: seq<byte>
    var raw: seq<byte>
    const escaped: bool
    var unescapeNext: bool

    ghost function View(): Frame
      reads this
    {
      Frame(raw, unescapeNext)
    }

    constructor (data: seq<byte>, escaped: bool)
      ensures this.data == data && View() == FRESH && this.escaped == escaped
    {
      this.data, this.raw, this.escaped, this.unescapeNext := data, [], escaped, false;
    }

    /** checksum(). */
    method Checksum() returns (c: byte)
      ensures c == Complement(Sum(data))
    {
      var total := Total();
      c := 0xff - total % 256;
    }

    method Total() returns (total: nat)
      ensures total == Sum(data)
    {
      total := 0;
      assert data[..0] == [];
      for i := 0 to |data|
        invariant total == Sum(data[..i])
      {
        assert data[..i + 1] == data[..i] + [data[i]];
        SumAppend(data[..i], [data[i]]);
        assert Sum([data[i]]) == data[i];
        total := total + data[i];
      }
      assert data[..|data|] == data;
    }

    /** verify(). */
    method Verify(c: byte) returns (ok: bool)
      ensures ok <==> c == Complement(Sum(data))
    {
      var total := Total();
      ComplementIsUnique(total, c);
      ok := (total + c) % 256 == 0xff;
    }

    /** output().  `thrown` when the length does not fit a signed 16-bit number.  The escaped form is made once. */
    method Emit() returns (out: seq<byte>, thrown: bool)
      modifies `raw
      ensures thrown <==> |data| >= 0x8000
      ensures !thrown && (old(raw) == [] || !escaped) ==> out == Output(data, escaped)
      ensures !thrown && old(raw) != [] && escaped ==> out == [START] + old(raw)
    {
      if |data| >= 0x8000 { return [], true; }
      var c := Checksum();
      out := [|data| / 256, |data| % 256] + data + [c];
      if escaped && |raw| < 1 {
        raw := EscapeAll(out);
      }
      if escaped {
        out := raw;
      }
      out, thrown := [START] + out, false;
    }

    method FillByte(b: byte)
      modifies `raw, `unescapeNext
      ensures View() == Fill(old(View()), escaped, b)
    {
      var x := b;
      if unescapeNext {
        x := Flipped(b);
        unescapeNext := false;
      } else if escaped && b == ESCAPE {
        unescapeNext := true;
        return;
      }
      raw := raw + [x];
    }

    /** parse().  `broken` when the length field is not there: unpacking it throws something else than a ValueError. */
    method ParseRaw() returns (ok: bool, broken: bool)
      modifies `data
      ensures broken <==> |raw| < 3
      ensures !broken ==> Parse(raw) == if ok then Data(data) else BadChecksum
      ensures broken ==> data == old(data)
    {
      if |raw| < 3 { return false, true; }
      data := SliceFrom3(raw, Length(raw[1], raw[2]));
      ok := Verify(raw[|raw| - 1]);
      ComplementIsUnique(Sum(data), raw[|raw| - 1]);
      broken := false;
    }
  }

  /** escape(). */
  method EscapeAll(s: seq<byte>) returns (out: seq<byte>)
    ensures out == Escaped(s)
  {
    out := [];
    for i := 0 to |s|
      invariant out + Escaped(s[i..]) == Escaped(s)
    {
      ghost var before := out;
      EscapedNext(s, i, before);
      if Special(s[i]) {
        out := out + [ESCAPE];
        out := out + [Flipped(s[i])];
        assert out == before + [ESCAPE, Flipped(s[i])];
      } else {
        out := out + [s[i]];
      }
    }
  }

  lemma EscapedNext(s: seq<byte>, i: nat, before: seq<byte>)
    requires i < |s|
    ensures before + Escaped(s[i..])
            == before + (if Special(s[i]) then [ESCAPE, Flipped(s[i])] else [s[i]]) + Escaped(s[i + 1..])
  {
    assert s[i..][1..] == s[i + 1..];
  }

  /** _wait_for_frame on the bytes that the serial port gives until none are left. */
  method WaitForFrame(escaped: bool, input: seq<byte>) returns (frame: APIFrame, got: bool, used: nat)
    ensures used <= |input| && fresh(frame)
    ensures got ==> Wait(false, FRESH, escaped, input) == Got(frame.data, input[used..])
    ensures !got ==> Wait(false, FRESH, escaped, input).More?
  {
    hide Parse, Remaining;
    frame := new APIFrame([], escaped);
    var mode := false;
    used := 0;
    assert input[0..] == input;
    while used < |input|
      invariant used <= |input| && fresh(frame) && frame.escaped == escaped && Plausible(mode, frame.View())
      invariant Wait(false, FRESH, escaped, input) == Wait(mode, frame.View(), escaped, input[used..])
    {
      var b := input[used];
      assert input[used..][1..] == input[used + 1..];
      used := used + 1;
      if !mode {
        if b == START { mode := true; } else { continue; }
      }
      JustComplete(frame.View(), escaped, b);
      frame.FillByte(b);
      if Remaining(frame.raw) <= 0 {
        var ok, broken := frame.ParseRaw();
        if ok { return frame, true, used; }
        mode := false;
        frame := new APIFrame([], escaped);
      }
    }
    got := false;
  }
}
