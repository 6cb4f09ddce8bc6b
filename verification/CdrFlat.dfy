/**
 Reference semantics of CDR serialization: one flat memory, one position, padding computed from
 the stream offset alone.  No fragments, no callback, no remembered data size.
 */
module CdrFlat {
  import opened Bytes

  datatype Endianness = LittleEndian | BigEndian

  /** UCDR_MACHINE_ENDIANNESS of ucdr/config.h. */
  const MACHINE := LittleEndian

  predicate IsSize(n: nat) { n == 1 || n == 2 || n == 4 || n == 8 }

  /** Wire order of a memory image. */
  function Wire(order: Endianness, image: seq<byte>): (w: seq<byte>)
    ensures |w| == |image|
  {
    if order == MACHINE then image else Reversed(image)
  }

  /** The machine is little-endian: in that order the wire has the memory image itself, and in the other the image backwards. */
  lemma WireIs(image: seq<byte>)
    ensures Wire(LittleEndian, image) == image
    ensures forall i :: 0 <= i < |image| ==> Wire(BigEndian, image)[i] == image[|image| - 1 - i]
  {
  }

  lemma WireInvolution(order: Endianness, image: seq<byte>)
    ensures Wire(order, Wire(order, image)) == image
  {
    assert Reversed(Reversed(image)) == image;
  }

  /** `x % size`, by way of `x % 8` to keep the arithmetic linear. */
  function Rem(x: nat, size: nat): (r: nat)
    requires IsSize(size)
    ensures r < size
  {
    var m := x % 8;
    if size == 1 then 0 else if size == 2 then m % 2 else if size == 4 then m % 4 else m
  }

  lemma EightTimes(k: nat, m: nat)
    requires m < 8
    ensures (8 * k + m) % 8 == m
  {
  }

  lemma FourTimes(k: nat, m: nat)
    requires m < 4
    ensures (4 * k + m) % 4 == m
  {
  }

  lemma TwoTimes(k: nat, m: nat)
    requires m < 2
    ensures (2 * k + m) % 2 == m
  {
  }

  lemma RemIsRemainder(x: nat, size: nat)
    requires IsSize(size)
    ensures Rem(x, size) == x % size
  {
    var q, m := x / 8, x % 8;
    if {
      case size == 1 =>
      case size == 2 => TwoTimes(4 * q + m / 2, m % 2);
      case size == 4 => FourTimes(2 * q + m / 4, m % 4);
      case size == 8 =>
    }
  }

  /** Least padding that brings `offset` to a multiple of `size` (CORBA 3.3 Part 2, section 9.3). */
  function Pad(offset: nat, size: nat): (p: nat)
    requires IsSize(size)
    ensures p < size && Rem(offset + p, size) == 0
  {
    PadReaches(offset, size);
    if Rem(offset, size) == 0 then 0 else size - Rem(offset, size)
  }

  lemma PadReaches(offset: nat, size: nat)
    requires IsSize(size)
    ensures Rem(offset, size) != 0 ==> Rem(offset + size - Rem(offset, size), size) == 0
  {
    var q, m := offset / 8, offset % 8;
    var r := Rem(offset, size);
    if {
      case m + size - r < 8 => EightTimes(q, m + size - r);
      case m + size - r >= 8 => EightTimes(q + 1, m + size - r - 8);
    }
  }

  datatype Flat = Flat(mem: seq<byte>, pos: nat, offset: nat, error: bool) {
    predicate Valid() { pos <= |mem| }
  }

  /** Moves over `n` bytes; running out of memory leaves the position at its end, with the error set. */
  function Skip(f: Flat, n: nat): (r: Flat)
    requires f.Valid()
    ensures r.Valid() && r.mem == f.mem
  {
    if f.error then f
    else if f.pos + n <= |f.mem| then f.(pos := f.pos + n, offset := f.offset + n)
    else f.(pos := |f.mem|, offset := f.offset + |f.mem| - f.pos, error := true)
  }

  /** Reserves an aligned slot of `n` bytes; on success it is the last `n` bytes before the position. */
  function Claim(f: Flat, n: nat): (r: Flat)
    requires f.Valid() && IsSize(n)
    ensures r.Valid() && r.mem == f.mem
    ensures !r.error ==> n <= r.pos
  {
    var g := Skip(f, Pad(f.offset, n));
    if g.error then g
    else if g.pos + n <= |g.mem| then g.(pos := g.pos + n, offset := g.offset + n)
    else g.(error := true)
  }

  function Put(f: Flat, order: Endianness, image: seq<byte>): (r: Flat)
    requires f.Valid() && IsSize(|image|)
    ensures r.Valid() && |r.mem| == |f.mem|
  {
    var g := Claim(f, |image|);
    if g.error then g else g.(mem := Overwrite(g.mem, g.pos - |image|, Wire(order, image)))
  }

  /** The image read is empty when nothing could be read: the C code then leaves its target alone. */
  function Get(f: Flat, order: Endianness, n: nat): (r: (Flat, seq<byte>))
    requires f.Valid() && IsSize(n)
    ensures r.0.Valid() && r.0.mem == f.mem
    ensures |r.1| == if r.0.error then 0 else n
  {
    var g := Claim(f, n);
    (g, if g.error then [] else Wire(order, g.mem[g.pos - n..g.pos]))
  }

  /** Unaligned copy of a byte block: as much as fits is stored even if the whole block does not fit. */
  function CopyIn(f: Flat, data: seq<byte>): (r: Flat)
    requires f.Valid()
    ensures r.Valid() && |r.mem| == |f.mem|
  {
    if f.error then f else
    var k := Min(|data|, |f.mem| - f.pos);
    Flat(Overwrite(f.mem, f.pos, data[..k]), f.pos + k, f.offset + k, k < |data|)
  }

  function CopyOut(f: Flat, n: nat): (r: (Flat, seq<byte>))
    requires f.Valid()
    ensures r.0.Valid() && r.0.mem == f.mem
  {
    if f.error then (f, []) else
    var k := Min(n, |f.mem| - f.pos);
    (Flat(f.mem, f.pos + k, f.offset + k, k < n), f.mem[f.pos..f.pos + k])
  }

  /** Every element image of an array, one after the other. */
  function PutAll(f: Flat, order: Endianness, elems: seq<seq<byte>>): (r: Flat)
    requires f.Valid() && forall e <- elems :: IsSize(|e|)
    ensures r.Valid() && |r.mem| == |f.mem|
    decreases |elems|
  {
    if elems == [] then f else PutAll(Put(f, order, elems[0]), order, elems[1..])
  }

  function GetAll(f: Flat, order: Endianness, size: nat, n: nat): (r: (Flat, seq<byte>))
    requires f.Valid() && IsSize(size)
    ensures r.0.Valid() && r.0.mem == f.mem
    decreases n
  {
    if n == 0 then (f, []) else
    var (g, e) := Get(f, order, size);
    var (h, es) := GetAll(g, order, size, n - 1);
    (h, e + es)
  }

  /** Array of elements of `size` bytes: block copy in machine order, element by element otherwise. */
  function PutArray(f: Flat, order: Endianness, size: nat, elems: seq<seq<byte>>): (r: Flat)
    requires f.Valid() && IsSize(size) && forall e <- elems :: |e| == size
    ensures r.Valid() && |r.mem| == |f.mem|
  {
    var g := Skip(f, Pad(f.offset, size));
    if size == 1 || order == MACHINE then CopyIn(g, Flatten(elems)) else PutAll(g, order, elems)
  }

  function GetArray(f: Flat, order: Endianness, size: nat, n: nat): (r: (Flat, seq<byte>))
    requires f.Valid() && IsSize(size)
    ensures r.0.Valid() && r.0.mem == f.mem
  {
    var g := Skip(f, Pad(f.offset, size));
    if size == 1 || order == MACHINE then CopyOut(g, n * size) else GetAll(g, order, size, n)
  }

  /** A 32-bit element count, then the elements; no element part at all when the count is zero. */
  function PutSequence(f: Flat, order: Endianness, size: nat, elems: seq<seq<byte>>): (r: Flat)
    requires f.Valid() && IsSize(size) && |elems| < 0x1_0000_0000 && forall e <- elems :: |e| == size
    ensures r.Valid() && |r.mem| == |f.mem|
  {
    var h := Put(f, order, LE32(|elems|));
    if elems == [] then h else PutArray(h, order, size, elems)
  }

  /** Reads a count, rejects one over `capacity`, and then reads that many elements.
      `length` is what the count variable held before the call. */
  function GetSequence(f: Flat, order: Endianness, size: nat, capacity: nat, length: nat): (r: (Flat, seq<byte>, nat))
    requires f.Valid() && IsSize(size)
    ensures r.0.Valid() && r.0.mem == f.mem
  {
    var (h, image) := Get(f, order, 4);
    var n := if h.error then length else FromLE32(image);
    var g := if n > capacity then h.(error := true) else h;
    if n == 0 then (g, [], n) else var (a, data) := GetArray(g, order, size, n); (a, data, n)
  }

  /** The count that a sequence read takes, by the value of the four bytes that it lies in. */
  lemma CountIsRead(f: Flat, size: nat, capacity: nat, length: nat)
    requires f.Valid() && IsSize(size) && !Get(f, LittleEndian, 4).0.error
    ensures var p := Get(f, LittleEndian, 4).0.pos;
            && 4 <= p <= |f.mem|
            && GetSequence(f, LittleEndian, size, capacity, length).2
               == f.mem[p - 4] as int + 0x100 * f.mem[p - 3] as int + 0x1_0000 * f.mem[p - 2] as int
                  + 0x100_0000 * f.mem[p - 1] as int
  {
    hide GetArray, Pad;
    WireIs(f.mem[Get(f, LittleEndian, 4).0.pos - 4..Get(f, LittleEndian, 4).0.pos]);
    hide Wire;
  }

  /** In the opposite order the same bytes count the other way round. */
  lemma CountIsReadBackwards(f: Flat, size: nat, capacity: nat, length: nat)
    requires f.Valid() && IsSize(size) && !Get(f, BigEndian, 4).0.error
    ensures var p := Get(f, BigEndian, 4).0.pos;
            && 4 <= p <= |f.mem|
            && GetSequence(f, BigEndian, size, capacity, length).2
               == f.mem[p - 1] as int + 0x100 * f.mem[p - 2] as int + 0x1_0000 * f.mem[p - 3] as int
                  + 0x100_0000 * f.mem[p - 4] as int
  {
    hide GetArray, Pad;
    WireIs(f.mem[Get(f, BigEndian, 4).0.pos - 4..Get(f, BigEndian, 4).0.pos]);
    hide Wire;
  }
}
