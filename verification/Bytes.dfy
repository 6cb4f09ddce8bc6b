/** Bytes and the few sequence operations that the wire formats are built from. */
module Bytes {

  type byte = b: int | 0 <= b < 256

  type u32 = n: int | 0 <= n < 0x1_0000_0000

  /** Replaces the elements of `s` from index `at` on by those of `t`. */
  function Overwrite<T>(s: seq<T>, at: nat, t: seq<T>): (r: seq<T>)
    requires at + |t| <= |s|
    ensures |r| == |s|
    ensures r[at..at + |t|] == t
  {
    s[..at] + t + s[at + |t|..]
  }

  function Flatten<T>(ss: seq<seq<T>>): seq<T> {
    if ss == [] then [] else ss[0] + Flatten(ss[1..])
  }

  lemma Associate<T>(a: seq<T>, b: seq<T>, c: seq<T>)
    ensures a + (b + c) == a + b + c
  {
  }

  lemma {:induction false} FlattenAppend<T>(a: seq<seq<T>>, b: seq<seq<T>>)
    ensures Flatten(a + b) == Flatten(a) + Flatten(b)
  {
    if a == [] {
      assert a + b == b;
    } else {
      FlattenAppend(a[1..], b);
      assert (a + b)[0] == a[0] && (a + b)[1..] == a[1..] + b;
      hide Flatten;
      Associate(a[0], Flatten(a[1..]), Flatten(b));
    }
  }

  function Sum(s: seq<byte>): nat {
    if s == [] then 0 else s[0] + Sum(s[1..])
  }

  lemma {:induction false} SumAppend(a: seq<byte>, b: seq<byte>)
    ensures Sum(a + b) == Sum(a) + Sum(b)
  {
    if a == [] {
      assert a + b == b;
    } else {
      SumAppend(a[1..], b);
      assert (a + b)[1..] == a[1..] + b;
    }
  }

  /** The byte that brings a sum of bytes to 255 modulo 256: the checksum rule of every frame here. */
  function Complement(sum: nat): byte {
    255 - sum % 256
  }

  lemma ComplementIsUnique(sum: nat, x: byte)
    ensures (sum + x) % 256 == 255 <==> x == Complement(sum)
  {
    var q, r := sum / 256, sum % 256;
    assert sum == 256 * q + r;
    assert (sum + x) % 256 == (r + x) % 256;
  }

  function Reversed<T>(s: seq<T>): (r: seq<T>)
    ensures |r| == |s|
    ensures forall i :: 0 <= i < |s| ==> r[i] == s[|s| - 1 - i]
  {
    seq(|s|, i requires 0 <= i < |s| => s[|s| - 1 - i])
  }

  function Min(a: nat, b: nat): nat { if a <= b then a else b }

  /** Memory image of a 32-bit length on the little-endian machine (ucdr/config.h). */
  function LE32(n: nat): (s: seq<byte>)
    requires n < 0x1_0000_0000
    ensures |s| == 4
    ensures s[0] as int + 0x100 * s[1] as int + 0x1_0000 * s[2] as int + 0x100_0000 * s[3] as int == n
  {
    LE32Digits(n);
    [n % 256, n / 256 % 256, n / 65536 % 256, n / 0x100_0000]
  }

  lemma LE32Digits(n: nat)
    requires n < 0x1_0000_0000
    ensures n % 256 + 0x100 * (n / 256 % 256) + 0x1_0000 * (n / 65536 % 256) + 0x100_0000 * (n / 0x100_0000) == n
  {
    assert n / 65536 == n / 256 / 256;
    assert n / 0x100_0000 == n / 65536 / 256;
  }

  function FromLE32(s: seq<byte>): nat
    requires |s| == 4
  {
    s[0] as int + 256 * (s[1] as int) + 65536 * (s[2] as int) + 0x100_0000 * (s[3] as int)
  }

  lemma LE32RoundTrip(n: nat)
    requires n < 0x1_0000_0000
    ensures FromLE32(LE32(n)) == n
  {
    hide LE32;
  }
}
