/** Time and Duration of ros_lib (time.cpp, duration.cpp) and the clock of NodeHandle_, in 32-bit arithmetic. */
module RosTime {
  import opened Bytes

  type i32 = n: int | -0x8000_0000 <= n < 0x8000_0000

  const BILLION := 1_000_000_000

  function U32(x: int): u32 { x % 0x1_0000_0000 }

  /** Conversion to int32_t. */
  function S32(x: int): i32 {
    var r := x % 0x1_0000_0000;
    if r < 0x8000_0000 then r else r - 0x1_0000_0000
  }

  predicate Fits32(x: int) { -0x8000_0000 <= x < 0x8000_0000 }

  function Nanos(sec: int, nsec: int): int { sec * BILLION + nsec }

  /** The same instant, given that the seconds counter wraps around after 2^32 seconds. */
  predicate Same(a: int, b: int) { (a - b) % 0x3b9a_ca00_0000_0000 == 0 }

  lemma SameBy(a: int, b: int, k: int)
    requires a - b == k * 0x3b9a_ca00_0000_0000
    ensures Same(a, b)
  {
  }

  lemma SameTrans(a: int, b: int, c: int)
    requires Same(a, b) && Same(b, c)
    ensures Same(a, c)
  {
    var k, l := (a - b) / 0x3b9a_ca00_0000_0000, (b - c) / 0x3b9a_ca00_0000_0000;
    SameBy(a, c, k + l);
  }

  lemma SameShift(a: int, b: int, d: int)
    requires Same(a, b)
    ensures Same(a + d, b + d)
  {
    assert (a + d) - (b + d) == a - b;
  }

  // ---- Time ----

  datatype Stamp = Stamp(sec: u32, nsec: u32) {
    predicate Normal() { nsec < BILLION }

    function Total(): int { Nanos(sec, nsec) }
  }

  /** One instant has one normal form. */
  lemma NormalIsUnique(a: Stamp, b: Stamp)
    requires a.Normal() && b.Normal() && Same(a.Total(), b.Total())
    ensures a == b
  {
    var k := (a.Total() - b.Total()) / 0x3b9a_ca00_0000_0000;
    assert a.Total() - b.Total() == k * 0x3b9a_ca00_0000_0000;
    assert 0 <= a.Total() < 0x3b9a_ca00_0000_0000 && 0 <= b.Total() < 0x3b9a_ca00_0000_0000;
    assert k == 0;
  }

  /** normalizeSecNSec, on a seconds count that has not been cut to 32 bits yet. */
  function Normalized(sec: int, nsec: u32): Stamp { Stamp(U32(sec + nsec / BILLION), nsec % BILLION) }

  lemma NormalizedKeeps(sec: int, nsec: u32)
    ensures var t := Normalized(sec, nsec); t.Normal() && Same(t.Total(), Nanos(sec, nsec))
  {
    var s := sec + nsec / BILLION;
    var k := s / 0x1_0000_0000;
    assert s == k * 0x1_0000_0000 + U32(s);
    SameBy(Normalized(sec, nsec).Total(), Nanos(sec, nsec), -k);
  }

  /** Cutting the nanoseconds to 32 bits is exact if and only if there is nothing to cut. */
  lemma CutIsExactIff(sec: int, nsec: int)
    requires -0x1_0000_0000 <= nsec < 0x2_0000_0000
    ensures Same(Normalized(sec, U32(nsec)).Total(), Nanos(sec, nsec)) <==> 0 <= nsec < 0x1_0000_0000
  {
    var t := Normalized(sec, U32(nsec));
    NormalizedKeeps(sec, U32(nsec));
    var d := U32(nsec) - nsec;
    assert d == 0 || d == 0x1_0000_0000 || d == -0x1_0000_0000;
    if d != 0 && Same(t.Total(), Nanos(sec, nsec)) {
      hide Normalized, U32;
      SameBack(t.Total(), Nanos(sec, nsec), d);
    }
  }

  lemma SameBack(total: int, n: int, d: int)
    requires Same(total, n) && Same(total, n + d) && d != 0
    ensures !(-0x2_0000_0000 < d < 0x2_0000_0000)
  {
    var k, l := (total - n) / 0x3b9a_ca00_0000_0000, (total - (n + d)) / 0x3b9a_ca00_0000_0000;
    assert d == (k - l) * 0x3b9a_ca00_0000_0000;
  }

  // ---- Duration ----

  datatype Span = Span(sec: i32, nsec: i32) {
    /** What normalizeSecNSecSigned leaves: a full second of nanoseconds is not carried over. */
    predicate Normal() { 0 <= nsec <= BILLION }

    predicate Canonical() { 0 <= nsec < BILLION }

    function Total(): int { Nanos(sec, nsec) }
  }

  /** How many seconds normalizeSecNSecSigned moves out of the nanoseconds. */
  function Carry(nsec: int): int { if nsec > 0 then (nsec - 1) / BILLION else nsec / BILLION }

  /** The two loops of normalizeSecNSecSigned, provided the seconds do not overflow. */
  method NormalizeSigned(sec: i32, nsec: i32) returns (d: Span)
    requires Fits32(sec + Carry(nsec))
    ensures d.Normal() && d.Total() == Nanos(sec, nsec)
    ensures d == Span(sec + Carry(nsec), nsec - Carry(nsec) * BILLION)
    ensures d.nsec == BILLION <==> nsec > 0 && nsec % BILLION == 0
  {
    var n, s := nsec, sec;
    while n > BILLION
      invariant nsec > 0 ==> n > 0
      invariant nsec <= 0 ==> n == nsec && s == sec
      invariant s <= sec + Carry(nsec) || nsec <= 0
      invariant s + Carry(n) == sec + Carry(nsec) && n - Carry(n) * BILLION == nsec - Carry(nsec) * BILLION
      invariant -0x8000_0000 <= sec <= s && n <= nsec
      decreases n
    {
      n := n - BILLION;
      s := s + 1;
    }
    while n < 0
      invariant n <= BILLION && sec + Carry(nsec) <= s && (nsec > 0 ==> n > 0) && (nsec <= 0 ==> n < BILLION && s <= sec)
      invariant s + Carry(n) == sec + Carry(nsec) && n - Carry(n) * BILLION == nsec - Carry(nsec) * BILLION
      decreases -n
    {
      n := n + BILLION;
      s := s - 1;
    }
    assert Carry(n) == 0;
    d := Span(s, n);
  }

  // ---- the operators ----

  /** Time += Duration. */
  function Plus(t: Stamp, d: Span): Stamp { Normalized(t.sec - 1 + d.sec, U32(t.nsec + BILLION + d.nsec)) }

  /** Time -= Duration. */
  function Less(t: Stamp, d: Span): Stamp { Normalized(t.sec - 1 - d.sec, U32(t.nsec + BILLION - d.nsec)) }

  /** += adds, whatever the operands, if and only if the nanoseconds with the borrowed second fit 32 bits. */
  lemma PlusAddsIff(t: Stamp, d: Span)
    ensures Plus(t, d).Normal()
    ensures Same(Plus(t, d).Total(), t.Total() + d.Total()) <==> 0 <= t.nsec + BILLION + d.nsec < 0x1_0000_0000
  {
    hide Normalized, U32, Same;
    NormalizedKeeps(t.sec - 1 + d.sec, U32(t.nsec + BILLION + d.nsec));
    CutIsExactIff(t.sec - 1 + d.sec, t.nsec + BILLION + d.nsec);
    assert Nanos(t.sec - 1 + d.sec, t.nsec + BILLION + d.nsec) == t.Total() + d.Total();
  }

  lemma LessSubtractsIff(t: Stamp, d: Span)
    ensures Less(t, d).Normal()
    ensures Same(Less(t, d).Total(), t.Total() - d.Total()) <==> 0 <= t.nsec + BILLION - d.nsec < 0x1_0000_0000
  {
    hide Normalized, U32, Same;
    NormalizedKeeps(t.sec - 1 - d.sec, U32(t.nsec + BILLION - d.nsec));
    CutIsExactIff(t.sec - 1 - d.sec, t.nsec + BILLION - d.nsec);
    assert Nanos(t.sec - 1 - d.sec, t.nsec + BILLION - d.nsec) == t.Total() - d.Total();
  }

  /** (t += d) -= d gives t back, across any wraparound of the seconds. */
  lemma PlusLess(t: Stamp, d: Span)
    requires t.Normal() && d.Normal()
    ensures Less(Plus(t, d), d) == t
  {
    hide Same;
    var p := Plus(t, d);
    PlusAddsIff(t, d);
    LessSubtractsIff(p, d);
    hide Plus, Less;
    SameShift(p.Total(), t.Total() + d.Total(), -d.Total());
    SameTrans(Less(p, d).Total(), p.Total() - d.Total(), t.Total());
    NormalIsUnique(Less(p, d), t);
  }

  /** Time - Time leaves defined behaviour when the borrow takes the seconds below the least int32_t. */
  predicate DiffDefined(a: Stamp, b: Stamp) { Fits32(S32(a.sec - b.sec) + Carry(S32(a.nsec - b.nsec))) }

  function Diff(a: Stamp, b: Stamp): Span
    requires DiffDefined(a, b)
  {
    var s, n := S32(a.sec - b.sec), S32(a.nsec - b.nsec);
    CarryLeavesLittle(n);
    Span(s + Carry(n), n - Carry(n) * BILLION)
  }

  lemma CarryLeavesLittle(n: int)
    ensures 0 <= n - Carry(n) * BILLION <= BILLION
  {
  }

  /** Wraparound is a continuation of time: the difference is the elapsed time, seen from either side. */
  lemma DiffIsElapsed(a: Stamp, b: Stamp)
    requires a.Normal() && b.Normal() && DiffDefined(a, b)
    ensures Diff(a, b).Canonical() && Same(Diff(a, b).Total(), a.Total() - b.Total())
  {
    var s, n := a.sec - b.sec, a.nsec - b.nsec;
    assert S32(n) == n && Carry(n) == if n < 0 then -1 else 0;
    var k := (s - S32(s)) / 0x1_0000_0000;
    assert s == S32(s) + k * 0x1_0000_0000;
    SameBy(Diff(a, b).Total(), a.Total() - b.Total(), -k);
  }

  /** Adding d carries into the seconds. */
  predicate Carries(t: Stamp, d: Span) { t.nsec + d.nsec >= BILLION }

  lemma PlusIs(t: Stamp, d: Span)
    requires t.Normal() && d.Normal()
    ensures Plus(t, d) == if Carries(t, d) then Stamp(U32(t.sec + d.sec + 1), t.nsec + d.nsec - BILLION)
                          else Stamp(U32(t.sec + d.sec), t.nsec + d.nsec)
  {
    var n := t.nsec + BILLION + d.nsec;
    assert U32(n) == n;
    if Carries(t, d) { assert n / BILLION == 2; } else { assert n / BILLION == 1; }
  }

  lemma SecondsBack(t: u32, q: int)
    ensures S32(U32(t + q) - t) == S32(q)
  {
    var k := (t + q) / 0x1_0000_0000;
    assert U32(t + q) - t == q - k * 0x1_0000_0000;
    hide U32;
    SameResidue(q, k);
  }

  lemma SameResidue(q: int, k: int)
    ensures S32(q - k * 0x1_0000_0000) == S32(q)
  {
    var d, m := q / 0x1_0000_0000, q % 0x1_0000_0000;
    assert q - k * 0x1_0000_0000 == (d - k) * 0x1_0000_0000 + m;
    Residue(d - k, m);
  }

  lemma Residue(d: int, m: int)
    requires 0 <= m < 0x1_0000_0000
    ensures (d * 0x1_0000_0000 + m) % 0x1_0000_0000 == m
  {
  }

  /** (t + d) - t is d if and only if d is canonical, unless a carry leaves the largest int32_t behind. */
  lemma PlusDiff(t: Stamp, d: Span)
    requires t.Normal() && d.Normal() && !(d.sec == 0x7fff_ffff && Carries(t, d))
    ensures DiffDefined(Plus(t, d), t)
    ensures Diff(Plus(t, d), t) == d <==> d.Canonical()
    ensures Diff(Plus(t, d), t).Total() == d.Total()
  {
    PlusIs(t, d);
    var q := if Carries(t, d) then d.sec + 1 else d.sec;
    var p := Plus(t, d);
    SecondsBack(t.sec, q);
    SmallStays(q);
    SmallStays(p.nsec - t.nsec);
    hide Plus, U32, S32;
    SmallCarry(p.nsec - t.nsec);
    hide Carry;
  }

  lemma SmallCarry(n: int)
    requires -BILLION < n < BILLION
    ensures Carry(n) == if n < 0 then -1 else 0
  {
  }

  lemma SmallStays(q: int)
    ensures Fits32(q) ==> S32(q) == q
    ensures q == 0x8000_0000 ==> S32(q) == -0x8000_0000
  {
  }

  /** The sum and the difference of normalised nanoseconds stay within int32_t. */
  lemma NormalSpansFit(a: Span, b: Span)
    requires a.Normal() && b.Normal()
    ensures Fits32(a.nsec + b.nsec) && Fits32(a.nsec - b.nsec)
    ensures Carry(a.nsec + b.nsec) == (if a.nsec + b.nsec > BILLION then 1 else 0)
    ensures Carry(a.nsec - b.nsec) == (if a.nsec < b.nsec then -1 else 0)
  {
  }

  predicate SumDefined(a: Span, b: Span) {
    Fits32(a.sec + b.sec) && Fits32(a.nsec + b.nsec) && Fits32(a.sec + b.sec + Carry(a.nsec + b.nsec))
  }

  predicate DifferenceDefined(a: Span, b: Span) {
    && Fits32(0 - b.sec) && Fits32(0 - b.nsec)
    && Fits32(a.sec - b.sec) && Fits32(a.nsec - b.nsec) && Fits32(a.sec - b.sec + Carry(a.nsec - b.nsec))
  }

  /** Duration += Duration. */
  function SpanPlus(a: Span, b: Span): Span
    requires SumDefined(a, b)
  {
    var n := a.nsec + b.nsec;
    CarryLeavesLittle(n);
    Span(a.sec + b.sec + Carry(n), n - Carry(n) * BILLION)
  }

  /** Duration -= Duration. */
  function SpanLess(a: Span, b: Span): Span
    requires DifferenceDefined(a, b)
  {
    var n := a.nsec - b.nsec;
    CarryLeavesLittle(n);
    Span(a.sec - b.sec + Carry(n), n - Carry(n) * BILLION)
  }

  lemma SpanArithmetic(a: Span, b: Span)
    ensures SumDefined(a, b) ==> SpanPlus(a, b).Normal() && SpanPlus(a, b).Total() == a.Total() + b.Total()
    ensures DifferenceDefined(a, b) ==> SpanLess(a, b).Normal() && SpanLess(a, b).Total() == a.Total() - b.Total()
  {
    CarryLeavesLittle(a.nsec + b.nsec);
    CarryLeavesLittle(a.nsec - b.nsec);
  }

  /** (a += b) -= b gives back a duration that is not canonical only if b has no nanoseconds. */
  lemma SpanRestoredIff(a: Span, b: Span)
    requires a.Normal() && b.Normal() && SumDefined(a, b) && DifferenceDefined(SpanPlus(a, b), b)
    ensures SpanLess(SpanPlus(a, b), b) == a <==> a.Canonical() || b.nsec == 0
  {
    NormalSpansFit(a, b);
    var s := SpanPlus(a, b);
    SpanArithmetic(a, b);
    NormalSpansFit(s, b);
  }

  // ---- the classes ----

  class Duration {
    var sec: i32
    var nsec: i32

    ghost function View(): Span
      reads this
    {
      Span(sec, nsec)
    }

    constructor (sec: i32, nsec: i32)
      requires Fits32(sec + Carry(nsec))
      ensures View().Normal() && View().Total() == Nanos(sec, nsec)
    {
      var d := NormalizeSigned(sec, nsec);
      this.sec, this.nsec := d.sec, d.nsec;
    }

    method Add(rhs: Span)
      requires SumDefined(View(), rhs)
      modifies this
      ensures View() == SpanPlus(old(View()), rhs)
    {
      sec := sec + rhs.sec;
      nsec := nsec + rhs.nsec;
      var d := NormalizeSigned(sec, nsec);
      sec, nsec := d.sec, d.nsec;
    }

    method Subtract(rhs: Span)
      requires DifferenceDefined(View(), rhs)
      modifies this
      ensures View() == SpanLess(old(View()), rhs)
    {
      sec := sec + -rhs.sec;
      nsec := nsec + -rhs.nsec;
      var d := NormalizeSigned(sec, nsec);
      sec, nsec := d.sec, d.nsec;
    }
  }

  class Time {
    var sec: u32
    var nsec: u32

    ghost function View(): Stamp
      reads this
    {
      Stamp(sec, nsec)
    }

    constructor (sec: u32, nsec: u32)
      ensures View() == Normalized(sec, nsec)
    {
      this.sec, this.nsec := U32(sec + nsec / BILLION), nsec % BILLION;
    }

    /** normalizeSecNSec. */
    method Normalize()
      modifies this
      ensures View() == Normalized(old(sec), old(nsec))
    {
      var nsecPart, secPart := nsec % BILLION, nsec / BILLION;
      sec := U32(sec + secPart);
      nsec := nsecPart;
    }

    method Add(rhs: Span)
      modifies this
      ensures View() == Plus(old(View()), rhs)
    {
      CutTwice(sec - 1 + rhs.sec, U32(nsec + BILLION + rhs.nsec));
      sec := U32(sec - 1 + rhs.sec);
      nsec := U32(nsec + BILLION + rhs.nsec);
      Normalize();
    }

    method Subtract(rhs: Span)
      modifies this
      ensures View() == Less(old(View()), rhs)
    {
      CutTwice(sec - 1 - rhs.sec, U32(nsec + BILLION - rhs.nsec));
      sec := U32(sec - 1 - rhs.sec);
      nsec := U32(nsec + BILLION - rhs.nsec);
      Normalize();
    }

    /** The operands are unsigned: one of two subtractions is made, and its result converted. */
    method Minus(rhs: Stamp) returns (d: Span)
      requires DiffDefined(View(), rhs)
      ensures d == Diff(View(), rhs)
    {
      Converted(sec, rhs.sec);
      Converted(nsec, rhs.nsec);
      hide S32, Carry, U32;
      var s := if sec > rhs.sec then S32(sec - rhs.sec) else S32(U32(-(rhs.sec - sec)));
      var n := if nsec > rhs.nsec then S32(nsec - rhs.nsec) else S32(U32(-(rhs.nsec - nsec)));
      d := NormalizeSigned(s, n);
    }
  }

  lemma Converted(a: u32, b: u32)
    ensures S32(U32(a - b)) == S32(a - b)
  {
  }

  lemma CutTwice(sec: int, nsec: u32)
    ensures Normalized(U32(sec), nsec) == Normalized(sec, nsec)
  {
    var k := sec / 0x1_0000_0000;
    assert sec == U32(sec) + k * 0x1_0000_0000;
    assert U32(sec) + nsec / BILLION == sec + nsec / BILLION - k * 0x1_0000_0000;
  }

  // ---- the clock of the node ----

  const MILLION := 1_000_000

  /** now and setNow: the offset between the tick counter, in milliseconds, and the time. */
  class Clock {
    var secOffset: u32
    var nsecOffset: u32

    ghost function Offset(): Stamp
      reads this
    {
      Stamp(secOffset, nsecOffset)
    }

    constructor ()
      ensures Offset() == Stamp(0, 0)
    {
      secOffset, nsecOffset := 0, 0;
    }

    /** The time at tick `ms`. */
    method Now(ms: u32) returns (t: Stamp)
      ensures t == Shown(Offset(), ms)
    {
      var sec := U32(ms / 1000 + secOffset);
      var nsec := U32(ms % 1000 * MILLION + nsecOffset);
      CutTwice(ms / 1000 + secOffset, nsec);
      t := Stamp(U32(sec + nsec / BILLION), nsec % BILLION);
    }

    method SetNow(sec: i32, nanosec: u32, ms: u32)
      modifies this
      ensures Offset() == Set(sec, nanosec, ms)
    {
      secOffset := U32(sec - ms / 1000 - 1);
      nsecOffset := U32(nanosec - ms % 1000 * MILLION + BILLION);
      CutTwice(sec - ms / 1000 - 1, nsecOffset);
      secOffset, nsecOffset := U32(secOffset + nsecOffset / BILLION), nsecOffset % BILLION;
    }

    /** syncTime: a time that was asked for at tick `asked`, is used at tick `used`, and set at tick `ms`. */
    method SyncTime(sec: i32, nanosec: u32, asked: u32, used: u32, ms: u32)
      modifies this
      ensures Offset() == Set(S32(sec + U32(used - asked) / 1000), U32(nanosec + U32(used - asked) % 1000 * MILLION), ms)
    {
      var offset := U32(used - asked);
      SetNow(S32(sec + offset / 1000), U32(nanosec + offset % 1000 * MILLION), ms);
    }
  }

  function Shown(offset: Stamp, ms: u32): Stamp {
    Normalized(ms / 1000 + offset.sec, U32(ms % 1000 * MILLION + offset.nsec))
  }

  function Set(sec: i32, nanosec: u32, ms: u32): Stamp {
    Normalized(sec - ms / 1000 - 1, U32(nanosec - ms % 1000 * MILLION + BILLION))
  }

  lemma Ticks(ms: u32)
    ensures Nanos(ms / 1000, ms % 1000 * MILLION) == ms * MILLION
  {
  }

  lemma ShownIs(offset: Stamp, ms: u32)
    requires offset.Normal()
    ensures Shown(offset, ms).Normal() && Same(Shown(offset, ms).Total(), offset.Total() + ms * MILLION)
  {
    var sec, nsec := ms / 1000 + offset.sec, ms % 1000 * MILLION + offset.nsec;
    hide Normalized, Same;
    assert U32(nsec) == nsec;
    NormalizedKeeps(sec, nsec);
    Ticks(ms);
    assert Nanos(sec, nsec) == offset.Total() + ms * MILLION;
  }

  /** The offset is right if and only if the nanoseconds, with the tick taken off and a second added, fit 32 bits. */
  lemma SetIsExactIff(sec: i32, nanosec: u32, ms: u32)
    ensures Set(sec, nanosec, ms).Normal()
    ensures Same(Set(sec, nanosec, ms).Total(), Nanos(sec, nanosec) - ms * MILLION)
            <==> nanosec - ms % 1000 * MILLION + BILLION < 0x1_0000_0000
  {
    var s, n := sec - ms / 1000 - 1, nanosec - ms % 1000 * MILLION + BILLION;
    hide Normalized, Same, U32;
    CutIsExactIff(s, n);
    NormalizedKeeps(s, U32(n));
    Ticks(ms);
    assert Nanos(s, n) == Nanos(sec, nanosec) - ms * MILLION;
  }

  /** After setNow at one tick, now at any other shows that time plus the ticks in between, across wraparound of the
      seconds, if and only if setNow had room for the nanoseconds.  It always has for fewer than 2 * 10^9 of them. */
  lemma ClockIsExactIff(sec: i32, nanosec: u32, m0: u32, m1: u32)
    ensures var t := Shown(Set(sec, nanosec, m0), m1);
            && t.Normal()
            && (Same(t.Total(), Nanos(sec, nanosec) + (m1 - m0) * MILLION)
                <==> nanosec - m0 % 1000 * MILLION + BILLION < 0x1_0000_0000)
    ensures nanosec < 2 * BILLION ==> nanosec - m0 % 1000 * MILLION + BILLION < 0x1_0000_0000
  {
    hide Same, Shown, Set;
    var o := Set(sec, nanosec, m0);
    SetIsExactIff(sec, nanosec, m0);
    ShownIs(o, m1);
    var want, t := Nanos(sec, nanosec) - m0 * MILLION, Shown(o, m1).Total();
    SameEither(t, o.Total() + m1 * MILLION, want + m1 * MILLION);
    SameMoved(o.Total(), want, m1 * MILLION);
    assert want + m1 * MILLION == Nanos(sec, nanosec) + (m1 - m0) * MILLION;
  }

  lemma SameEither(a: int, b: int, c: int)
    requires Same(a, b)
    ensures Same(a, c) <==> Same(b, c)
  {
    if Same(a, c) { SameSym(a, b); SameTrans(b, a, c); }
    if Same(b, c) { SameTrans(a, b, c); }
  }

  lemma SameSym(a: int, b: int)
    requires Same(a, b)
    ensures Same(b, a)
  {
    var k := (a - b) / 0x3b9a_ca00_0000_0000;
    SameBy(b, a, -k);
  }

  lemma SameMoved(a: int, b: int, d: int)
    ensures Same(a + d, b + d) <==> Same(a, b)
  {
    assert (a + d) - (b + d) == a - b;
  }

  /** syncTime makes up for the ticks between asking for the time and using it, though the tick counter may have wrapped
      around in between. */
  lemma SyncIsExact(sec: i32, nanosec: u32, asked: u32, used: u32, m0: u32, m1: u32)
    requires nanosec < BILLION && Fits32(sec + U32(used - asked) / 1000)
    ensures var d := U32(used - asked);
            var t := Shown(Set(S32(sec + d / 1000), U32(nanosec + d % 1000 * MILLION), m0), m1);
            t.Normal() && Same(t.Total(), Nanos(sec, nanosec) + (d + m1 - m0) * MILLION)
  {
    var d := U32(used - asked);
    SmallStays(sec + d / 1000);
    var n := nanosec + d % 1000 * MILLION;
    assert U32(n) == n;
    hide Same, Shown, Set, S32, U32;
    ClockIsExactIff(sec + d / 1000, n, m0, m1);
    Ticks(d);
    assert Nanos(sec + d / 1000, n) == Nanos(sec, nanosec) + d * MILLION;
  }
}
