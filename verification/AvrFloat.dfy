/**
 The conversions between float and the bytes of a double in ros/msg.h, for boards without doubles.  Values are
 compared exactly: a finite float is a whole number of 2^-149, a finite double a whole number of 2^-1074.
 */
module AvrFloat {
  import opened Bytes

  /** `x` shifted left by `k` bits. */
  function Double(x: int, k: nat): int { if k == 0 then x else 2 * Double(x, k - 1) }

  /** `x` shifted right by `k` bits. */
  function Halve(x: nat, k: nat): nat { if k == 0 then x else Halve(x / 2, k - 1) }

  lemma {:induction false} DoubleDouble(x: int, a: nat, b: nat)
    ensures Double(Double(x, a), b) == Double(x, a + b)
  {
    if b > 0 { DoubleDouble(x, a, b - 1); }
  }

  lemma {:induction false} DoubleMinus(x: int, y: int, k: nat)
    ensures Double(x, k) - Double(y, k) == Double(x - y, k)
  {
    if k > 0 { DoubleMinus(x, y, k - 1); }
  }

  lemma {:induction false} DoubleGrows(x: int, y: int, k: nat)
    requires x < y
    ensures Double(x, k) < Double(y, k)
  {
    if k > 0 { DoubleGrows(x, y, k - 1); }
  }

  lemma {:induction false} DoubleInside(x: int, k: nat)
    ensures Double(2 * x, k) == 2 * Double(x, k)
  {
    if k > 0 { DoubleInside(x, k - 1); }
  }

  lemma {:induction false} HalveDouble(x: nat, k: nat)
    ensures Double(x, k) >= 0 && Halve(Double(x, k), k) == x
  {
    if k > 0 { HalveDouble(x, k - 1); }
  }

  /** Shifting right rounds down. */
  lemma {:induction false} HalveBounds(x: nat, k: nat)
    ensures Double(Halve(x, k), k) <= x < Double(Halve(x, k) + 1, k)
  {
    if k > 0 {
      HalveBounds(x / 2, k - 1);
    }
  }

  lemma FourBits(x: int)
    ensures Double(x, 4) == 16 * x
  {
    assert Double(x, 1) == 2 * x && Double(x, 2) == 4 * x && Double(x, 3) == 8 * x;
  }

  lemma EightBits(x: int)
    ensures Double(x, 8) == 256 * x
  {
    FourBits(x);
    FourBits(16 * x);
    DoubleDouble(x, 4, 4);
  }

  lemma ManyBits(x: int)
    ensures Double(x, 24) == 0x100_0000 * x && Double(x, 28) == 0x1000_0000 * x && Double(x, 29) == 0x2000_0000 * x
  {
    EightBits(x);
    EightBits(256 * x);
    DoubleDouble(x, 8, 8);
    EightBits(0x1_0000 * x);
    DoubleDouble(x, 16, 8);
    FourBits(0x100_0000 * x);
    DoubleDouble(x, 24, 4);
  }

  // ---- binary32 and binary64 (section 3.4 of IEEE 754-2008) ----

  type Man32 = m: int | 0 <= m < 0x80_0000
  type Man64 = m: int | 0 <= m < 0x10_0000_0000_0000
  type Exp32 = e: int | 0 <= e < 256
  type Exp64 = e: int | 0 <= e < 2048

  datatype F32 = F32(neg: bool, exp: Exp32, man: Man32) {
    predicate Finite() { exp < 255 }
    predicate NaN() { exp == 255 && man != 0 }
    predicate Zero() { exp == 0 && man == 0 }

    /** Magnitude of a finite float in units of 2^-149. */
    function Value(): int { if exp == 0 then man else Double(0x80_0000 + man, exp - 1) }
  }

  datatype F64 = F64(neg: bool, exp: Exp64, man: Man64) {
    /** Magnitude of a finite double in units of 2^-1074. */
    function Value(): int { if exp == 0 then man else Double(0x10_0000_0000_0000 + man, exp - 1) }
  }

  function Unpack(val: u32): F32 { F32(val >= 0x8000_0000, val / 0x80_0000 % 256, val % 0x80_0000) }

  function Pack(f: F32): u32 { (if f.neg then 0x8000_0000 else 0) + f.exp * 0x80_0000 + f.man }

  lemma PackUnpack(val: u32)
    ensures Pack(Unpack(val)) == val
  {
    var q := val / 0x80_0000;
    assert val == q * 0x80_0000 + val % 0x80_0000;
    assert q == (if val >= 0x8000_0000 then 256 else 0) + q % 256;
  }

  /** The eight bytes of a double, least significant first. */
  function BytesOf(d: F64): (s: seq<byte>)
    ensures |s| == 8
  {
    var m1 := d.man / 256;
    var m2 := m1 / 256;
    var m3 := m2 / 256;
    var m4 := m3 / 256;
    var m5 := m4 / 256;
    [d.man % 256, m1 % 256, m2 % 256, m3 % 256, m4 % 256, m5 % 256,
     m5 / 256 + d.exp % 16 * 16, d.exp / 16 + if d.neg then 128 else 0]
  }

  function DoubleOf(s: seq<byte>): F64
    requires |s| == 8
  {
    var low := s[0] as int + 0x100 * s[1] as int + 0x1_0000 * s[2] as int;
    var high := s[3] as int + 0x100 * s[4] as int + 0x1_0000 * s[5] as int + 0x100_0000 * (s[6] % 16) as int;
    F64(s[7] >= 128, s[6] / 16 + (s[7] % 128) as int * 16, low + 0x100_0000 * high)
  }

  lemma DoubleOfBytes(d: F64)
    ensures DoubleOf(BytesOf(d)) == d
  {
    var s := BytesOf(d);
    ManIsBytes(d.man);
    assert s[6] % 16 == d.man / 256 / 256 / 256 / 256 / 256 / 256 && s[6] / 16 == d.exp % 16;
    assert s[7] % 128 == d.exp / 16;
  }

  lemma ManIsBytes(m: Man64)
    ensures var m1 := m / 256;
            var m2 := m1 / 256;
            var m3 := m2 / 256;
            var m4 := m3 / 256;
            var m5 := m4 / 256;
            && m5 / 256 < 16
            && m == m % 256 + 0x100 * (m1 % 256) + 0x1_0000 * (m2 % 256)
                    + 0x100_0000 * (m3 % 256 + 0x100 * (m4 % 256) + 0x1_0000 * (m5 % 256) + 0x100_0000 * (m5 / 256))
  {
  }

  // ---- float to double ----

  /** The shift loop for denormals: the leading bit comes to bit 23, and the exponent goes down. */
  function Normalized(man: int, exp: int): (r: (int, int))
    requires 0 < man < 0x100_0000
    ensures 0x80_0000 <= r.0 < 0x100_0000
    decreases 0x100_0000 - man
  {
    if man >= 0x80_0000 then (man, exp) else Normalized(2 * man, exp - 1)
  }

  /** How many places a denormal was shifted. */
  lemma {:induction false} NormalizedShifts(man: int, exp: int) returns (k: nat)
    requires 0 < man < 0x100_0000
    ensures Normalized(man, exp) == (Double(man, k), exp - k) && k < 24
    decreases 0x100_0000 - man
  {
    if man >= 0x80_0000 {
      k := 0;
    } else {
      var j := NormalizedShifts(2 * man, exp - 1);
      k := j + 1;
      DoubleInside(man, j);
      if k == 24 { ManyBits(man); }
    }
  }

  /** The comparison f < 0: neither a zero nor a NaN is below zero. */
  predicate BelowZero(f: F32) { f.neg && !f.Zero() && !f.NaN() }

  function Widened(f: F32): F64 {
    var neg := BelowZero(f);
    if f.exp == 255 then F64(neg, 2047, f.man * 0x2000_0000)
    else if f.exp != 0 then F64(neg, f.exp + 896, f.man * 0x2000_0000)
    else if f.man == 0 then F64(neg, 0, 0)
    else
      WidenedExp(2 * f.man);
      var (m, e) := Normalized(2 * f.man, 896);
      F64(neg, e, (m - 0x80_0000) * 0x2000_0000)
  }

  lemma WidenedExp(man: int)
    requires 0 < man < 0x100_0000
    ensures 872 < Normalized(man, 896).1 <= 896
  {
    var k := NormalizedShifts(man, 896);
  }

  /** The double denotes the same number as the float, whichever branch made it. */
  lemma WidenedIsExact(f: F32)
    requires f.Finite()
    ensures Widened(f).exp < 2047 && Widened(f).Value() == Double(f.Value(), 925)
  {
    var d := Widened(f);
    if f.exp != 0 {
      NormalIsExact(f.man, f.exp);
    } else if f.man == 0 {
      DoubleZero(925);
    } else {
      var k := NormalizedShifts(2 * f.man, 896);
      WidenedExp(2 * f.man);
      DenormalIsExact(f.man, k, Normalized(2 * f.man, 896).0 - 0x80_0000);
    }
  }

  /** Infinities and NaNs become infinities and NaNs, and nothing else does. */
  lemma WidenedSpecial(f: F32)
    ensures Widened(f).exp == 2047 <==> f.exp == 255
    ensures f.exp == 255 ==> (Widened(f).man == 0 <==> f.man == 0)
    ensures f.exp == 255 && f.man == 0 ==> Widened(f).neg == f.neg
  {
    if f.exp == 0 && f.man != 0 { WidenedExp(2 * f.man); }
  }

  lemma {:induction false} DoubleZero(k: nat)
    ensures Double(0, k) == 0
  {
    if k > 0 { DoubleZero(k - 1); }
  }

  lemma NormalIsExact(man: int, exp: nat)
    requires exp > 0
    ensures Double(0x10_0000_0000_0000 + man * 0x2000_0000, exp + 895) == Double(Double(0x80_0000 + man, exp - 1), 925)
  {
    ManyBits(0x80_0000 + man);
    DoubleDouble(0x80_0000 + man, 29, exp + 895);
    DoubleDouble(0x80_0000 + man, exp - 1, 925);
  }

  lemma DenormalIsExact(man: int, k: nat, rest: int)
    requires k < 24 && Double(2 * man, k) == 0x80_0000 + rest
    ensures Double(0x10_0000_0000_0000 + rest * 0x2000_0000, 895 - k) == Double(man, 925)
  {
    var m := 0x80_0000 + rest;
    ManyBits(m);
    DoubleDouble(m, 29, 895 - k);
    DoubleDouble(2 * man, k, 924 - k);
    DoubleInside(man, 924);
  }

  /** serializeAvrFloat64, on the bit pattern of the float. */
  method Serialize(val: u32) returns (out: seq<byte>)
    ensures out == BytesOf(Widened(Unpack(val)))
  {
    hide BytesOf;
    var f := Unpack(val);
    var exp: int, mantissa: int := val / 0x80_0000 % 256, val % 0x80_0000;
    if exp == 255 {
      exp := 2047;
    } else if exp != 0 {
      exp := exp + (1023 - 127);
    } else if mantissa == 0 {
      exp := 0;
    } else {
      exp := exp + (1023 - 127);
      mantissa := mantissa * 2;
      ghost var want := Normalized(mantissa, exp);
      WidenedExp(mantissa);
      while mantissa < 0x80_0000
        invariant 0 < mantissa < 0x100_0000 && Normalized(mantissa, exp) == want
        decreases 0x100_0000 - mantissa
      {
        mantissa := mantissa * 2;
        exp := exp - 1;
      }
      mantissa := mantissa - 0x80_0000;
    }
    out := StoreBytes(BelowZero(f), exp, mantissa);
  }

  /** The bytes through the moving pointer, and the mark of a negative number. */
  method StoreBytes(neg: bool, exp: Exp64, mantissa: Man32) returns (out: seq<byte>)
    ensures out == BytesOf(F64(neg, exp, mantissa * 0x2000_0000))
  {
    hide BytesOf;
    EightBytes(F64(neg, exp, mantissa * 0x2000_0000), mantissa);
    out := [0, 0, 0, mantissa * 32 % 256, mantissa / 8 % 256, mantissa / 0x800 % 256,
            exp % 16 * 16 + mantissa / 0x8_0000 % 16, exp / 16 % 128];
    if neg {
      out := out[7 := out[7] + 128];
    }
  }

  lemma EightBytes(d: F64, m: int)
    requires 0 <= m < 0x80_0000 && d.man == m * 0x2000_0000
    ensures BytesOf(d) == [0, 0, 0, m * 32 % 256, m / 8 % 256, m / 0x800 % 256,
                           d.exp % 16 * 16 + m / 0x8_0000 % 16, d.exp / 16 % 128 + if d.neg then 128 else 0]
  {
    var m1 := d.man / 256;
    var m2 := m1 / 256;
    var m3 := m2 / 256;
    assert m1 == m * 0x20_0000 && m2 == m * 0x2000 && m3 == m * 32;
    assert m3 / 256 == m / 8;
    assert m / 8 / 256 == m / 0x800;
    assert m / 0x800 / 256 == m / 0x8_0000 && m / 0x8_0000 < 16;
  }

  // ---- double to float ----

  /** The 24 bits of the mantissa that are looked at. */
  function Top(d: F64): (t: int)
    ensures 0 <= t < 0x100_0000
  {
    d.man / 0x1000_0000
  }

  /** Drops a bit, rounding up, except where that would carry into the exponent. */
  function Rounded(x: nat): (r: Man32)
    requires x < 0x100_0000
  {
    if x == 0xff_ffff then 0x7f_ffff else (x + 1) / 2
  }

  function Narrowed(d: F64): F32 {
    var t := Top(d);
    if d.exp == 2047 then F32(d.neg, 255, Rounded(t))
    else if d.exp - 1023 > 127 then F32(d.neg, 255, 0)
    else if d.exp - 1023 >= -126 then F32(d.neg, d.exp - 896, Rounded(t))
    else if d.exp - 1023 < -150 then F32(d.neg, 0, Rounded(t))
    else
      HalveShrinks(0x100_0000 + t, 897 - d.exp);
      F32(d.neg, 0, Rounded(Halve(0x100_0000 + t, 897 - d.exp)))
  }

  lemma {:induction false} HalveShrinks(x: nat, k: nat)
    ensures Halve(x, k) <= x && (k > 0 ==> Halve(x, k) <= x / 2)
  {
    if k > 0 { HalveShrinks(x / 2, k - 1); }
  }

  /** deserializeAvrFloat64, giving the bit pattern of the float. */
  method Deserialize(s: seq<byte>) returns (val: u32)
    requires |s| == 8
    ensures val == Pack(Narrowed(DoubleOf(s)))
  {
    TopOfBytes(s);
    hide DoubleOf;
    var mantissa: nat := s[3] / 16 + s[4] as int * 16 + s[5] as int * 0x1000 + (s[6] % 16) as int * 0x10_0000;
    var exp: int := s[6] / 16 + (s[7] % 128) as int * 16;
    if exp == 2047 {
      exp := 255;
    } else if exp - 1023 > 127 {
      exp, mantissa := 255, 0;
    } else if exp - 1023 >= -126 {
      exp := exp - (1023 - 127);
    } else if exp - 1023 < -150 {
      exp := 0;
    } else {
      HalveShrinks(0x100_0000 + mantissa, 897 - exp);
      mantissa := Halve(mantissa + 0x100_0000, 897 - exp);
      exp := 0;
    }
    if mantissa != 0xff_ffff {
      mantissa := mantissa + 1;
    }
    mantissa := mantissa / 2;
    val := mantissa + exp * 0x80_0000 + if s[7] >= 128 then 0x8000_0000 else 0;
  }

  lemma TopOfBytes(s: seq<byte>)
    requires |s| == 8
    ensures var d := DoubleOf(s);
            && Top(d) == s[3] / 16 + s[4] as int * 16 + s[5] as int * 0x1000 + (s[6] % 16) as int * 0x10_0000
            && d.exp == s[6] / 16 + (s[7] % 128) as int * 16 && d.neg == (s[7] >= 128)
  {
    var t := s[3] / 16 + s[4] as int * 16 + s[5] as int * 0x1000 + (s[6] % 16) as int * 0x10_0000;
    var low := s[0] as int + 0x100 * s[1] as int + 0x1_0000 * s[2] as int + 0x100_0000 * (s[3] % 16) as int;
    assert DoubleOf(s).man == 0x1000_0000 * t + low && 0 <= low < 0x1000_0000;
  }

  // ---- there and back ----

  /** Every float comes back as it was, except that the sign of a zero or a NaN is lost. */
  lemma NarrowedWidened(f: F32)
    ensures Narrowed(Widened(f)) == f.(neg := BelowZero(f))
  {
    var d := Widened(f);
    if f.exp != 0 || f.man == 0 {
      assert Top(d) == 2 * f.man;
    } else {
      var k := NormalizedShifts(2 * f.man, 896);
      WidenedExp(2 * f.man);
      var m := Normalized(2 * f.man, 896).0;
      assert Top(d) == 2 * (m - 0x80_0000) && d.exp == 896 - k;
      DoubleInside(2 * f.man, k);
      HalveDouble(2 * f.man, k + 1);
      assert 0x100_0000 + Top(d) == Double(2 * f.man, k + 1);
      HalveShrinks(0x100_0000 + Top(d), k + 1);
      assert Halve(0x100_0000 + Top(d), 897 - d.exp) == 2 * f.man;
    }
  }

  /** For all bit patterns, through the eight bytes. */
  lemma RoundTrip(val: u32)
    ensures var f := Unpack(val);
            Pack(Narrowed(DoubleOf(BytesOf(Widened(f))))) == if f.neg && (f.Zero() || f.NaN()) then val - 0x8000_0000 else val
  {
    var f := Unpack(val);
    DoubleOfBytes(Widened(f));
    NarrowedWidened(f);
    PackUnpack(val);
  }

  // ---- how far the float is from the double ----

  /** The two neighbours of `v` in units of 2^u, and the even number of units it is taken for. */
  lemma Near(x: int, r: int, u: nat, v: int)
    requires Double(x, u) <= v < Double(x + 1, u) && (r == x || r == x + 1 || r == x - 1)
    ensures var ulp := Double(2, u);
            && -ulp < Double(r, u) - v < ulp
            && (r != x - 1 ==> -ulp <= 2 * (Double(r, u) - v) <= ulp)
            && (r == x - 1 ==> (-ulp <= 2 * (Double(r, u) - v) <= ulp <==> v == Double(x, u)))
  {
    var w := Double(1, u);
    DoubleInside(1, u);
    DoubleMinus(x + 1, x, u);
    DoubleMinus(r, x, u);
    DoubleZero(u);
    DoubleMinus(0, 1, u);
  }

  /** What Rounded makes of `x`, doubled again: `x` or its successor if that is even, its predecessor at the top. */
  lemma RoundedIsNear(x: nat)
    requires x < 0x100_0000
    ensures var r := 2 * Rounded(x); r == x || r == x + 1 || r == x - 1
    ensures 2 * Rounded(x) == x - 1 <==> x == 0xff_ffff
  {
  }

  lemma TopBounds(d: F64, k: nat)
    ensures var x := 0x100_0000 + Top(d);
            Double(x, k + 28) <= Double(0x10_0000_0000_0000 + d.man, k) < Double(x + 1, k + 28)
  {
    var x, n := 0x100_0000 + Top(d), 0x10_0000_0000_0000 + d.man;
    ManyBits(x);
    ManyBits(x + 1);
    DoubleDouble(x, 28, k);
    DoubleDouble(x + 1, 28, k);
    if Double(x, 28) < n { DoubleGrows(Double(x, 28), n, k); }
    DoubleGrows(n, Double(x + 1, 28), k);
  }

  /** The units that the top bits count, and what they are cut to. */
  function Unit(d: F64): nat
    requires 873 <= d.exp <= 1150
  {
    if d.exp >= 897 then d.exp + 27 else 924
  }

  function Cut(d: F64): (x: nat)
    requires 873 <= d.exp <= 1150
  {
    if d.exp >= 897 then 0x100_0000 + Top(d) else Halve(0x100_0000 + Top(d), 897 - d.exp)
  }

  lemma CutBounds(d: F64)
    requires 873 <= d.exp <= 1150
    ensures Double(Cut(d), Unit(d)) <= d.Value() < Double(Cut(d) + 1, Unit(d))
  {
    TopBounds(d, d.exp - 1);
    if d.exp < 897 {
      var x, k := 0x100_0000 + Top(d), 897 - d.exp;
      HalveBounds(x, k);
      DoubleDouble(Cut(d), k, d.exp + 27);
      DoubleDouble(Cut(d) + 1, k, d.exp + 27);
      if Double(Cut(d), k) < x { DoubleGrows(Double(Cut(d), k), x, d.exp + 27); }
      if x + 1 < Double(Cut(d) + 1, k) { DoubleGrows(x + 1, Double(Cut(d) + 1, k), d.exp + 27); }
    }
  }

  /** All 24 bits that Rounded sees are ones. */
  predicate Saturated(d: F64)
    requires 873 <= d.exp <= 1150
  {
    Cut(d) == if d.exp >= 897 then 0x1ff_ffff else 0xff_ffff
  }

  /** For every double in the range of the floats, denormal floats included, the float is less than one unit in its last
      place away; and at most half a unit, if and only if not all bits that are looked at are ones, or the ones that
      are not looked at make no difference. */
  lemma NarrowedIsNear(d: F64)
    requires 873 <= d.exp <= 1150
    ensures var f := Narrowed(d);
            var diff, ulp := Double(f.Value(), 925) - d.Value(), Double(2, Unit(d));
            && f.Finite() && f.neg == d.neg && -ulp < diff < ulp
            && (-ulp <= 2 * diff <= ulp <==> !Saturated(d) || d.Value() == Double(Cut(d), Unit(d)))
  {
    var f, x, u := Narrowed(d), Cut(d), Unit(d);
    CutBounds(d);
    HalveShrinks(0x100_0000 + Top(d), if d.exp < 897 then 897 - d.exp else 0);
    var seen := if d.exp >= 897 then Top(d) else x;
    RoundedIsNear(seen);
    var r := if d.exp >= 897 then 0x100_0000 + 2 * f.man else 2 * f.man;
    assert Double(f.Value(), 925) == Double(r, u) by {
      if d.exp >= 897 {
        DoubleDouble(0x80_0000 + f.man, f.exp - 1, 925);
        DoubleInside(0x80_0000 + f.man, u);
      } else {
        DoubleInside(f.man, 924);
      }
    }
    Near(x, r, u, d.Value());
  }

  /** One unit in the last place of the float, in units of 2^-1074. */
  lemma UnitIsUlp(d: F64)
    requires 873 <= d.exp <= 1150
    ensures Double(2, Unit(d)) == Double(1, Narrowed(d).exp + (if Narrowed(d).exp == 0 then 925 else 924))
  {
    DoubleInside(1, Unit(d));
  }

  lemma {:induction false} DoubleMore(x: nat, k: nat, l: nat)
    requires k <= l
    ensures x <= Double(x, k) <= Double(x, l)
    decreases l
  {
    if k < l { DoubleMore(x, k, l - 1); } else if k > 0 { DoubleMore(x, k - 1, k - 1); }
  }

  lemma TinyBelow(d: F64, u: nat)
    requires d.exp + 52 <= u && d.exp < 2047
    ensures d.Value() < Double(1, u)
  {
    ManyBits(1);
    ManyBits(0x100_0000);
    DoubleDouble(1, 24, 28);
    if d.exp == 0 {
      DoubleMore(1, 52, u);
    } else {
      TopBounds(d, d.exp - 1);
      var x, k := 0x100_0000 + Top(d), d.exp + 27;
      if x + 1 < 0x200_0000 { DoubleGrows(x + 1, 0x200_0000, k); }
      DoubleDouble(1, 25, k);
      DoubleMore(1, k + 25, u);
    }
  }

  /** Below 2^-150 the nearest float is zero. */
  lemma TinyIsTiny(d: F64)
    requires d.exp < 873
    ensures d.Value() < Double(1, 924)
  {
    TinyBelow(d, 924);
  }

  /** A double below half the least float should become zero.  It does if and only if the top bits of its mantissa are
      zeros: they are kept while the exponent is dropped. */
  lemma TinyIsZeroIff(d: F64)
    requires d.exp < 873
    ensures Narrowed(d).Zero() <==> Top(d) == 0
    ensures Narrowed(d).exp == 0
  {
  }

  /** Doubles beyond the floats become infinite, an infinity stays one, and a NaN stays one if and only if the top bits
      of its mantissa say so. */
  lemma LargeIsInfinite(d: F64)
    requires d.exp > 1150
    ensures Narrowed(d).exp == 255 && Narrowed(d).neg == d.neg
    ensures Narrowed(d).NaN() <==> d.exp == 2047 && Top(d) != 0
  {
  }
}
