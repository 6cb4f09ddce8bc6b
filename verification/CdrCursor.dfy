/**
 ucdrBuffer as a value: a current fragment, the fragments already filled, the fragments that the
 on_full_buffer callback will still supply, and the cursor fields.  A buffer without a callback is
 one whose supply is empty: both report an error when the current fragment is exhausted.

 The functions follow ucdr/common.c and the files of ucdr/types branch by branch; the lemmas show that they
 do to the concatenated memory what `CdrFlat` does to one flat memory.
 */
module CdrCursor {
  import opened Bytes
  import opened CdrFlat

  datatype Cursor = Cursor(
    done: seq<seq<byte>>, cur: seq<byte>, it: nat, next: seq<seq<byte>>,
    offset: nat, last: nat, error: bool)
  {
    /** While no error is recorded, a remembered data size divides the offset. */
    predicate LastDividesOffset() {
      !error && last != 0 ==> IsSize(last) && Rem(offset, last) == 0
    }

    /** Supplied fragments hold at least the largest primitive. */
    predicate Valid() {
      it <= |cur| && LastDividesOffset() && forall f <- next :: |f| >= 8
    }

    function Mem(): seq<byte> { Flatten(done) + cur + Flatten(next) }

    function Pos(): nat { |Flatten(done)| + it }
  }

  function Abs(c: Cursor): (f: Flat)
    requires c.Valid()
    ensures f.Valid()
  {
    Flat(c.Mem(), c.Pos(), c.offset, c.error)
  }

  /** The same contents, position and offset in one large buffer without a callback. */
  function OneBuffer(c: Cursor): (r: Cursor)
    requires c.Valid()
    ensures r.Valid() && r.next == [] && Abs(r) == Abs(c)
  {
    assert Flatten<byte>([]) + c.Mem() + Flatten<byte>([]) == c.Mem();
    Cursor([], c.Mem(), c.Pos(), [], c.offset, c.last, c.error)
  }

  // ---- ucdr/common.c ----

  /** ucdr_alignment. */
  function Alignment(current: nat, size: nat): nat
    requires IsSize(size)
  {
    Rem(size - Rem(current, size), size)
  }

  /** ucdr_buffer_alignment: the remembered size is a shortcut, and the offset is cut to 32 bits. */
  function ShortAlignment(offset: nat, last: nat, size: nat): nat
    requires IsSize(size)
  {
    if size > last then Rem(size - Rem(offset % 0x1_0000_0000, size), size) else 0
  }

  function BufferAlignment(c: Cursor, size: nat): nat
    requires IsSize(size)
  {
    ShortAlignment(c.offset, c.last, size)
  }

  lemma CutTo32Bits(offset: nat, size: nat)
    requires IsSize(size)
    ensures Rem(offset % 0x1_0000_0000, size) == Rem(offset, size)
  {
    var q, r := offset / 0x1_0000_0000, offset % 0x1_0000_0000;
    EightTimes(0x2000_0000 * q + r / 8, r % 8);
  }

  lemma LargerSizeDivides(offset: nat, last: nat, size: nat)
    requires IsSize(last) && IsSize(size) && size <= last && Rem(offset, last) == 0
    ensures Rem(offset, size) == 0
  {
  }

  /** The shortcut and the cast never change the alignment of an error-free buffer. */
  lemma ShortcutIsAlignment(c: Cursor, size: nat)
    requires c.Valid() && !c.error && IsSize(size)
    ensures BufferAlignment(c, size) == Alignment(c.offset, size) == Pad(c.offset, size)
  {
    CutTo32Bits(c.offset, size);
    if size <= c.last {
      LargerSizeDivides(c.offset, c.last, size);
    }
  }

  /** ucdr_check_final_buffer_behavior. */
  function CheckFinal(c: Cursor): Cursor {
    if !c.error && c.it >= |c.cur| then
      if c.next == [] then c.(error := true)
      else c.(done := c.done + [c.cur], cur := c.next[0], it := 0, next := c.next[1..])
    else c
  }

  lemma CheckFinalAbs(c: Cursor)
    requires c.Valid()
    ensures CheckFinal(c).Valid()
    ensures Abs(CheckFinal(c)) == Abs(c).(error := c.error || (c.it == |c.cur| && c.next == []))
  {
    if !c.error && c.it == |c.cur| && c.next != [] {
      FlattenAppend(c.done, [c.cur]);
      assert Flatten([c.cur]) == c.cur;
      assert Flatten(c.next) == c.next[0] + Flatten(c.next[1..]);
    }
  }

  /** The amount that ucdr_check_final_buffer_behavior_array hands out of `n` wanted bytes. */
  function Room(c: Cursor, n: nat): nat
    requires c.it <= |c.cur|
  {
    if c.error then 0 else Min(n, |c.cur| - c.it)
  }

  function CheckFinalArray(c: Cursor, n: nat): Cursor {
    if n > 0 then CheckFinal(c) else c
  }

  function Moved(c: Cursor, n: nat): Cursor {
    c.(it := c.it + n, offset := c.offset + n)
  }

  /** The loop of ucdr_advance_buffer. */
  function SkipLoop(c: Cursor, n: nat): Cursor
    requires c.Valid()
    decreases n
  {
    CheckFinalAbs(c);
    var d := CheckFinalArray(c, n);
    var k := Room(d, n);
    if k == 0 then d.(last := 1) else SkipLoop(Moved(d, k).(last := 1), n - k)
  }

  lemma SkipLoopUnrolls(c: Cursor, n: nat)
    requires c.Valid()
    ensures var d := CheckFinalArray(c, n); d.Valid() && var k := Room(d, n);
            && (k == 0 ==> SkipLoop(c, n) == d.(last := 1))
            && (k > 0 ==> Moved(d, k).(last := 1).Valid() && SkipLoop(c, n) == SkipLoop(Moved(d, k).(last := 1), n - k))
  {
    hide CheckFinal;
    CheckFinalAbs(c);
  }

  /** ucdr_advance_buffer. */
  function Advance(c: Cursor, n: nat): Cursor
    requires c.Valid()
  {
    if !c.error && c.it + n <= |c.cur| then Moved(c, n).(last := 1) else SkipLoop(c, n)
  }

  /** One round of either loop: it hands out `k` bytes, or the wish is met, or memory has run out. */
  lemma RoundAbs(c: Cursor, n: nat)
    requires c.Valid()
    ensures var d := CheckFinalArray(c, n); var k := Room(d, n);
            && d.Valid() && (k > 0 ==> Abs(d) == Abs(c) && !c.error)
            && (k == 0 ==> c.error || n == 0 || c.Pos() == |c.Mem()|)
            && (k == 0 ==> Abs(d) == Abs(c).(error := c.error || n > 0))
  {
    CheckFinalAbs(c);
    if !c.error && n > 0 && c.it == |c.cur| && c.next == [] {
      assert Flatten(c.next) == [];
    }
  }

  lemma MemOf(c: Cursor, d: Cursor)
    requires d.done == c.done && d.cur == c.cur && d.next == c.next
    ensures d.Mem() == c.Mem() && d.Pos() - d.it == c.Pos() - c.it
  {
  }

  lemma ErrorAside(c: Cursor)
    ensures var d := c.(error := true); d.Mem() == c.Mem() && d.Pos() == c.Pos()
  {
  }

  /** After the current fragment nothing is left, or room for the largest primitive. */
  lemma EndOfMem(c: Cursor)
    requires c.Valid()
    ensures var left := |c.Mem()| - c.Pos() - (|c.cur| - c.it);
            if c.next == [] then left == 0 else left >= |c.next[0]| >= 8
  {
  }

  lemma LastAside(c: Cursor, last: nat)
    ensures var d := c.(last := last); d.Mem() == c.Mem() && d.Pos() == c.Pos()
  {
  }

  lemma MovedAbs(c: Cursor, n: nat)
    requires c.Valid() && !c.error && c.it + n <= |c.cur|
    ensures var r := Moved(c, n).(last := 1);
            r.Valid() && Abs(r) == Abs(c).(pos := c.Pos() + n, offset := c.offset + n)
    ensures c.Pos() + n <= |c.Mem()|
  {
  }

  lemma {:induction false} SkipLoopAbs(c: Cursor, n: nat)
    requires c.Valid()
    ensures var r := SkipLoop(c, n); r.Valid() && r.last == 1 && Abs(r) == Skip(Abs(c), n)
    decreases n
  {
    hide Cursor.Mem, Cursor.Pos, CheckFinal;
    RoundAbs(c, n);
    var d := CheckFinalArray(c, n);
    var k := Room(d, n);
    if k == 0 {
      LastAside(d, 1);
    } else {
      MovedAbs(d, k);
      SkipLoopAbs(Moved(d, k).(last := 1), n - k);
    }
  }

  lemma AdvanceAbs(c: Cursor, n: nat)
    requires c.Valid()
    ensures var r := Advance(c, n); r.Valid() && r.last == 1 && Abs(r) == Skip(Abs(c), n)
  {
    SkipLoopAbs(c, n);
  }

  // ---- fragments are used in order and keep their sizes ----

  function Sizes(ss: seq<seq<byte>>): seq<nat> {
    seq(|ss|, i requires 0 <= i < |ss| => |ss[i]|)
  }

  /** `r` has the fragments of `c`, of the same sizes, and has used up at least as many of them. */
  predicate Follows(c: Cursor, r: Cursor) {
    && Sizes(r.done + [r.cur] + r.next) == Sizes(c.done + [c.cur] + c.next)
    && |c.done| <= |r.done|
  }

  lemma FollowsSupply(c: Cursor, r: Cursor)
    requires Follows(c, r)
    ensures c.next == [] ==> r.next == []
  {
    assert |Sizes(c.done + [c.cur] + c.next)| == |c.done| + 1 + |c.next|;
    assert |Sizes(r.done + [r.cur] + r.next)| == |r.done| + 1 + |r.next|;
  }

  lemma SameFragments(c: Cursor, r: Cursor)
    requires r.done == c.done && |r.cur| == |c.cur| && r.next == c.next
    ensures Follows(c, r)
  {
    var x, y := c.done + [c.cur] + c.next, r.done + [r.cur] + r.next;
    assert |x| == |y| && forall i :: 0 <= i < |x| ==> |x[i]| == |y[i]|;
  }

  lemma CheckFinalFollows(c: Cursor)
    ensures Follows(c, CheckFinal(c))
  {
    var r := CheckFinal(c);
    assert r.done + [r.cur] + r.next == c.done + [c.cur] + c.next;
  }

  lemma {:induction false} SkipLoopFollows(c: Cursor, n: nat)
    requires c.Valid()
    ensures Follows(c, SkipLoop(c, n))
    decreases n
  {
    hide CheckFinal, Sizes;
    CheckFinalFollows(c);
    CheckFinalAbs(c);
    var d := CheckFinalArray(c, n);
    var e := Moved(d, Room(d, n)).(last := 1);
    SameFragments(d, e);
    if Room(d, n) != 0 { SkipLoopFollows(e, n - Room(d, n)); }
  }

  lemma AdvanceFollows(c: Cursor, n: nat)
    requires c.Valid()
    ensures Follows(c, Advance(c, n))
  {
    hide Sizes;
    if !c.error && c.it + n <= |c.cur| {
      SameFragments(c, Advance(c, n));
    } else {
      SkipLoopFollows(c, n);
    }
  }

  // ---- ucdr/types/array.c: block copies ----

  function Stored(c: Cursor, at: nat, data: seq<byte>): Cursor
    requires at + |data| <= |c.cur|
  {
    c.(cur := Overwrite(c.cur, at, data))
  }

  lemma OverwriteSegment(x: seq<byte>, d: seq<byte>, y: seq<byte>, at: nat, t: seq<byte>)
    requires at + |t| <= |d|
    ensures x + Overwrite(d, at, t) + y == Overwrite(x + d + y, |x| + at, t)
  {
    assert (x + d + y)[..|x| + at] == x + d[..at];
    assert (x + d + y)[|x| + at + |t|..] == d[at + |t|..] + y;
  }

  lemma StoredMem(c: Cursor, at: nat, data: seq<byte>)
    requires at + |data| <= |c.cur|
    ensures Stored(c, at, data).Mem() == Overwrite(c.Mem(), |Flatten(c.done)| + at, data)
  {
    hide Overwrite;
    OverwriteSegment(Flatten(c.done), c.cur, Flatten(c.next), at, data);
  }

  /** The loop of ucdr_array_to_buffer. */
  function CopyInLoop(c: Cursor, data: seq<byte>): Cursor
    requires c.Valid()
    decreases |data|
  {
    CheckFinalAbs(c);
    var d := CheckFinalArray(c, |data|);
    var k := Room(d, |data|);
    if k == 0 then d else CopyInLoop(Moved(Stored(d, d.it, data[..k]), k).(last := 1), data[k..])
  }

  function ArrayToBuffer(c: Cursor, data: seq<byte>, size: nat): Cursor
    requires c.Valid() && IsSize(size)
  {
    if !c.error && c.it + |data| <= |c.cur| then Moved(Stored(c, c.it, data), |data|).(last := size)
    else CopyInLoop(c, data).(last := size)
  }

  lemma CopyInLoopUnrolls(c: Cursor, data: seq<byte>)
    requires c.Valid()
    ensures var d := CheckFinalArray(c, |data|); d.Valid() && var k := Room(d, |data|);
            && (k == 0 ==> CopyInLoop(c, data) == d)
            && (k > 0 ==> var e := Moved(Stored(d, d.it, data[..k]), k).(last := 1);
                          e.Valid() && CopyInLoop(c, data) == CopyInLoop(e, data[k..]))
  {
    hide CheckFinal, Overwrite;
    CheckFinalAbs(c);
  }

  lemma OverwriteTwice(m: seq<byte>, at: nat, a: seq<byte>, b: seq<byte>)
    requires at + |a| + |b| <= |m|
    ensures Overwrite(Overwrite(m, at, a), at + |a|, b) == Overwrite(m, at, a + b)
  {
  }

  lemma CopyInTwice(f: Flat, data: seq<byte>, k: nat)
    requires f.Valid() && !f.error && k <= |data| && f.pos + k <= |f.mem|
    ensures CopyIn(CopyIn(f, data[..k]), data[k..]) == CopyIn(f, data)
  {
    hide Overwrite;
    var j := Min(|data| - k, |f.mem| - f.pos - k);
    assert data[..k][..k] == data[..k];
    assert data[..k] + data[k..][..j] == data[..k + j];
    OverwriteTwice(f.mem, f.pos, data[..k], data[k..][..j]);
  }

  lemma CopyInNothing(f: Flat, data: seq<byte>)
    requires f.Valid() && (f.error || data == [] || f.pos == |f.mem|)
    ensures CopyIn(f, data) == f.(error := f.error || data != [])
  {
    assert data[..0] == [];
    assert Overwrite(f.mem, f.pos, []) == f.mem;
  }

  lemma StoredAbs(c: Cursor, data: seq<byte>)
    requires c.Valid() && !c.error && c.it + |data| <= |c.cur|
    ensures Abs(Moved(Stored(c, c.it, data), |data|).(last := 1)) == CopyIn(Abs(c), data)
  {
    hide Overwrite, Flatten;
    StoredMem(c, c.it, data);
    assert data[..|data|] == data;
  }

  lemma {:induction false} CopyInLoopAbs(c: Cursor, data: seq<byte>)
    requires c.Valid()
    ensures var r := CopyInLoop(c, data);
            r.Valid() && Abs(r) == CopyIn(Abs(c), data)
    decreases |data|
  {
    hide Cursor.Mem, CheckFinal, CopyIn;
    RoundAbs(c, |data|);
    var d := CheckFinalArray(c, |data|);
    var k := Room(d, |data|);
    if k != 0 {
      MovedAbs(d, k);
      StoredAbs(d, data[..k]);
      CopyInLoopAbs(Moved(Stored(d, d.it, data[..k]), k).(last := 1), data[k..]);
      CopyInTwice(Abs(d), data, k);
    } else {
      CopyInNothing(Abs(c), data);
    }
  }

  /** The loop of ucdr_buffer_to_array, with the bytes copied out. */
  function CopyOutLoop(c: Cursor, n: nat): (Cursor, seq<byte>)
    requires c.Valid()
    decreases n
  {
    CheckFinalAbs(c);
    var d := CheckFinalArray(c, n);
    var k := Room(d, n);
    if k == 0 then (d, []) else
    var (r, more) := CopyOutLoop(Moved(d, k).(last := 1), n - k);
    (r, d.cur[d.it..d.it + k] + more)
  }

  function BufferToArray(c: Cursor, n: nat, size: nat): (Cursor, seq<byte>)
    requires c.Valid()
  {
    if !c.error && c.it + n <= |c.cur| then (Moved(c, n).(last := size), c.cur[c.it..c.it + n])
    else var (r, data) := CopyOutLoop(c, n); (r.(last := size), data)
  }

  lemma CopyOutLoopUnrolls(c: Cursor, n: nat)
    requires c.Valid()
    ensures var d := CheckFinalArray(c, n); d.Valid() && var k := Room(d, n);
            && (k == 0 ==> CopyOutLoop(c, n) == (d, []))
            && (k > 0 ==> var e := Moved(d, k).(last := 1);
                          && e.Valid()
                          && CopyOutLoop(c, n) == (CopyOutLoop(e, n - k).0, d.cur[d.it..d.it + k] + CopyOutLoop(e, n - k).1))
  {
    hide CheckFinal;
    CheckFinalAbs(c);
  }

  lemma CurInMem(c: Cursor, lo: nat, hi: nat)
    requires lo <= hi <= |c.cur|
    ensures var b := |Flatten(c.done)|; c.Mem()[b + lo..b + hi] == c.cur[lo..hi]
  {
  }

  lemma CopyOutTwice(f: Flat, n: nat, k: nat)
    requires f.Valid() && !f.error && k <= n && f.pos + k <= |f.mem|
    ensures var (g, more) := CopyOut(f.(pos := f.pos + k, offset := f.offset + k), n - k);
            CopyOut(f, n) == (g, f.mem[f.pos..f.pos + k] + more)
  {
    var p, q, r := f.pos, f.pos + k, f.pos + Min(n, |f.mem| - f.pos);
    assert f.mem[p..q] + f.mem[q..r] == f.mem[p..r];
  }

  lemma CopyOutNothing(f: Flat, n: nat)
    requires f.Valid() && (f.error || n == 0 || f.pos == |f.mem|)
    ensures CopyOut(f, n) == (f.(error := f.error || n > 0), [])
  {
    assert f.mem[f.pos..f.pos] == [];
  }

  lemma {:induction false} CopyOutLoopAbs(c: Cursor, n: nat)
    requires c.Valid()
    ensures var (r, data) := CopyOutLoop(c, n);
            r.Valid() && (Abs(r), data) == CopyOut(Abs(c), n)
    decreases n
  {
    hide Cursor.Mem, Cursor.LastDividesOffset, CheckFinal, CopyOut;
    RoundAbs(c, n);
    var d := CheckFinalArray(c, n);
    var k := Room(d, n);
    if k == 0 {
      CopyOutNothing(Abs(c), n);
    } else {
      MovedAbs(d, k);
      CurInMem(d, d.it, d.it + k);
      CopyOutLoopAbs(Moved(d, k).(last := 1), n - k);
      CopyOutTwice(Abs(d), n, k);
    }
  }

  // ---- ucdr/types/basic.c ----

  /** Where the macros place an N-byte value: nowhere, at the end of `cur`, or split before it. */
  datatype Slot = NoSlot | Whole | Split(first: nat)

  /** Control flow shared by UCDR_SERIALIZE_BYTE_N and UCDR_DESERIALIZE_BYTE_N, after the padding. */
  function Place(a: Cursor, n: nat, last: nat): (Cursor, Slot)
    requires a.it <= |a.cur|
  {
    if !a.error && a.it + n <= |a.cur| then (Moved(a, n).(last := n), Whole)
    else if |a.cur| > a.it then
      var first := |a.cur| - a.it;
      var d := CheckFinal(Moved(a, first));
      if !d.error then (Moved(d, n - first).(last := n), Split(first))
      else (d.(it := d.it - first, offset := d.offset - first, last := last), NoSlot)
    else
      var d := CheckFinal(a);
      if !d.error then (Moved(d, n).(last := n), Whole) else (d, NoSlot)
  }

  function ClaimN(c: Cursor, n: nat): (Cursor, Slot)
    requires c.Valid() && IsSize(n)
  {
    AdvanceAbs(c, BufferAlignment(c, n));
    Place(Advance(c, BufferAlignment(c, n)), n, c.last)
  }

  /** UCDR_SERIALIZE_BYTE_1 and UCDR_DESERIALIZE_BYTE_1. */
  function Claim1(c: Cursor): (Cursor, Slot)
    requires c.Valid()
  {
    var d := CheckFinal(c);
    if !d.error then (Moved(d, 1).(last := 1), Whole) else (d, NoSlot)
  }

  function ClaimSlot(c: Cursor, n: nat): (Cursor, Slot)
    requires c.Valid() && IsSize(n)
  {
    if n == 1 then Claim1(c) else ClaimN(c, n)
  }

  /** What a slot of `n` bytes that ends at the cursor means: where it lies, in fragments and in flat memory. */
  predicate SlotFits(c: Cursor, slot: Slot, n: nat) {
    match slot
    case NoSlot => true
    case Whole => n <= c.it <= |c.cur|
    case Split(first) =>
      && 0 < first < n && c.it == n - first <= |c.cur|
      && c.done != [] && first <= |c.done[|c.done| - 1]|
  }

  /** What claiming `n` aligned bytes does to the flat view. */
  function Claimed(f: Flat, n: nat): Flat {
    if f.error then f
    else if f.pos + n <= |f.mem| then f.(pos := f.pos + n, offset := f.offset + n)
    else f.(error := true)
  }

  predicate GoodClaim(a: Cursor, n: nat, r: Cursor, slot: Slot) {
    && r.Valid() && SlotFits(r, slot, n) && (slot.NoSlot? <==> r.error)
    && (slot.Split? ==> a.next != [])
  }

  lemma PlaceAcross(a: Cursor, n: nat, last: nat)
    requires a.Valid() && a.last == 1 && IsSize(n) && !a.error && Rem(a.offset + n, n) == 0
    requires a.it < |a.cur| < a.it + n
    ensures var (r, slot) := Place(a, n, last);
            GoodClaim(a, n, r, slot) && Abs(r) == Claimed(Abs(a), n)
  {
    hide Cursor.Mem, Flatten, Rem;
    var first := |a.cur| - a.it;
    var m := Moved(a, first);
    MovedAbs(a, first);
    LastAside(m, 1);
    CheckFinalAbs(m);
    EndOfMem(a);
    var d := CheckFinal(m);
    if d.error {
      LastAside(a, last);
      ErrorAside(a.(last := last));
    } else {
      MemOf(d, Moved(d, n - first).(last := n));
    }
  }

  lemma PlaceNext(a: Cursor, n: nat, last: nat)
    requires a.Valid() && a.last == 1 && IsSize(n) && !a.error && Rem(a.offset + n, n) == 0
    requires a.it == |a.cur|
    ensures var (r, slot) := Place(a, n, last);
            GoodClaim(a, n, r, slot) && Abs(r) == Claimed(Abs(a), n)
  {
    hide Cursor.Mem;
    CheckFinalAbs(a);
    EndOfMem(a);
    var d := CheckFinal(a);
    if !d.error {
      MemOf(d, Moved(d, n).(last := n));
    }
  }

  lemma PlaceAbs(a: Cursor, n: nat, last: nat)
    requires a.Valid() && a.last == 1 && IsSize(n) && (!a.error ==> Rem(a.offset + n, n) == 0)
    ensures var (r, slot) := Place(a, n, last);
            GoodClaim(a, n, r, slot) && Abs(r) == Claimed(Abs(a), n)
  {
    hide Cursor.Mem;
    if a.error {
      LastAside(a, last);
    } else if a.it + n <= |a.cur| {
      MovedAbs(a, n);
      MemOf(a, Moved(a, n).(last := n));
    } else if a.it < |a.cur| {
      PlaceAcross(a, n, last);
    } else {
      PlaceNext(a, n, last);
    }
  }

  lemma PaddedOffset(c: Cursor, n: nat)
    requires c.Valid() && IsSize(n)
    ensures var a := Advance(c, BufferAlignment(c, n));
            a.Valid() && a.last == 1 && (!a.error ==> Rem(a.offset, n) == 0 && Rem(a.offset + n, n) == 0)
  {
    hide Cursor.Mem, Cursor.Pos, Advance, BufferAlignment, Rem, Pad;
    if !c.error { ShortcutIsAlignment(c, n); }
    AdvanceAbs(c, BufferAlignment(c, n));
    var a := Advance(c, BufferAlignment(c, n));
    if !a.error {
      assert a.offset == c.offset + Pad(c.offset, n);
      RemOneMore(a.offset, n);
    }
  }

  lemma RemOneMore(x: nat, size: nat)
    requires IsSize(size) && Rem(x, size) == 0
    ensures Rem(x + size, size) == 0
  {
    var q, m := x / 8, x % 8;
    if { case m + size < 8 => EightTimes(q, m + size); case m + size >= 8 => EightTimes(q + 1, m + size - 8); }
  }

  lemma ClaimNAbs(c: Cursor, n: nat)
    requires c.Valid() && IsSize(n)
    ensures var (r, slot) := ClaimN(c, n);
            GoodClaim(c, n, r, slot) && Abs(r) == Claim(Abs(c), n)
  {
    hide Cursor.Mem, Cursor.Pos, Cursor.LastDividesOffset, Advance, Place, BufferAlignment, Follows, Rem, Pad, SlotFits;
    if !c.error { ShortcutIsAlignment(c, n); }
    var a := Advance(c, BufferAlignment(c, n));
    AdvanceAbs(c, BufferAlignment(c, n));
    AdvanceFollows(c, BufferAlignment(c, n));
    FollowsSupply(c, a);
    PaddedOffset(c, n);
    PlaceAbs(a, n, c.last);
  }

  lemma Claim1Abs(c: Cursor)
    requires c.Valid()
    ensures var (r, slot) := Claim1(c);
            GoodClaim(c, 1, r, slot) && Abs(r) == Claim(Abs(c), 1)
  {
    CheckFinalAbs(c);
    if !c.error && c.next == [] { assert Flatten(c.next) == []; }
    if !c.error && c.next != [] { assert |Flatten(c.next)| >= |c.next[0]|; }
  }

  lemma ClaimSlotAbs(c: Cursor, n: nat)
    requires c.Valid() && IsSize(n)
    ensures var (r, slot) := ClaimSlot(c, n);
            GoodClaim(c, n, r, slot) && Abs(r) == Claim(Abs(c), n)
  {
    if n == 1 { Claim1Abs(c); } else { ClaimNAbs(c, n); }
  }

  /** In the opposite byte order no value may be split over two fragments: that branch of the macros does not place its
      bytes where they belong. */
  predicate Unsplit(c: Cursor, order: Endianness, n: nat)
    requires c.Valid() && IsSize(n)
  {
    order == MACHINE || !ClaimSlot(c, n).1.Split?
  }

  /** In the last fragment, and after an error, nothing is split. */
  lemma LastIsUnsplit(c: Cursor, order: Endianness, n: nat)
    requires c.Valid() && IsSize(n) && (order == MACHINE || c.next == [] || c.error)
    ensures Unsplit(c, order, n)
  {
    ClaimSlotAbs(c, n);
    hide Cursor.Mem, Cursor.Pos, Cursor.LastDividesOffset, SlotFits, Claim, Advance, BufferAlignment, CheckFinal, Rem, Follows;
    if c.error {
      assert Claim(Abs(c), n).error by { ErrorStays(Abs(c), n); }
    } else if c.next == [] && n != 1 {
      hide Place;
      AdvanceAbs(c, BufferAlignment(c, n));
      AdvanceFollows(c, BufferAlignment(c, n));
      FollowsSupply(c, Advance(c, BufferAlignment(c, n)));
      PaddedOffset(c, n);
      PlaceAbs(Advance(c, BufferAlignment(c, n)), n, c.last);
    }
  }

  lemma ErrorStays(f: Flat, n: nat)
    requires f.Valid() && IsSize(n) && f.error
    ensures Claim(f, n).error
  {
  }

  /** Stores wire bytes into a slot. */
  function Fill(c: Cursor, slot: Slot, w: seq<byte>): Cursor
    requires SlotFits(c, slot, |w|)
  {
    match slot
    case NoSlot => c
    case Whole => Stored(c, c.it - |w|, w)
    case Split(first) =>
      var i := |c.done| - 1;
      var d := c.done[i];
      Stored(c, 0, w[first..]).(done := c.done[i := Overwrite(d, |d| - first, w[..first])])
  }

  function Fetch(c: Cursor, slot: Slot, n: nat): seq<byte>
    requires SlotFits(c, slot, n)
  {
    match slot
    case NoSlot => []
    case Whole => c.cur[c.it - n..c.it]
    case Split(first) =>
      var d := c.done[|c.done| - 1];
      d[|d| - first..] + c.cur[..n - first]
  }

  lemma ReplaceLast(ss: seq<seq<byte>>, d: seq<byte>)
    requires ss != []
    ensures var i := |ss| - 1;
            && Flatten(ss) == Flatten(ss[..i]) + ss[i]
            && Flatten(ss[i := d]) == Flatten(ss[..i]) + d
  {
    var i := |ss| - 1;
    assert ss == ss[..i] + [ss[i]];
    assert ss[i := d] == ss[..i] + [d];
    FlattenAppend(ss[..i], [ss[i]]);
    FlattenAppend(ss[..i], [d]);
    assert Flatten([ss[i]]) == ss[i];
    assert Flatten([d]) == d;
  }

  lemma OverwriteAcross(x: seq<byte>, d: seq<byte>, e: seq<byte>, y: seq<byte>, w: seq<byte>, first: nat)
    requires first <= |d| && first <= |w| <= first + |e|
    ensures x + Overwrite(d, |d| - first, w[..first]) + Overwrite(e, 0, w[first..]) + y
         == Overwrite(x + d + e + y, |x| + |d| - first, w)
  {
    hide Overwrite;
    var at := |x| + |d| - first;
    var d' := Overwrite(d, |d| - first, w[..first]);
    OverwriteSegment(x + d', e, y, 0, w[first..]);
    OverwriteSegment(x, d, e + y, |d| - first, w[..first]);
    assert x + d' + (e + y) == x + d' + e + y;
    assert x + d + (e + y) == x + d + e + y;
    OverwriteTwice(x + d + e + y, at, w[..first], w[first..]);
    assert w[..first] + w[first..] == w;
  }

  lemma FillSplitMem(c: Cursor, slot: Slot, w: seq<byte>)
    requires SlotFits(c, slot, |w|) && slot.Split?
    ensures |w| <= c.Pos() <= |c.Mem()| && Fill(c, slot, w).Pos() == c.Pos()
    ensures Fill(c, slot, w).Mem() == Overwrite(c.Mem(), c.Pos() - |w|, w)
  {
    hide Overwrite, Flatten;
    var first, i := slot.first, |c.done| - 1;
    var d := c.done[i];
    var d' := Overwrite(d, |d| - first, w[..first]);
    var x, y := Flatten(c.done[..i]), Flatten(c.next);
    ReplaceLast(c.done, d');
    assert Fill(c, slot, w).Mem() == (x + d') + Overwrite(c.cur, 0, w[first..]) + y;
    assert c.Mem() == (x + d) + c.cur + y;
    OverwriteAcross(x, d, c.cur, y, w, first);
  }

  lemma FillWholeMem(c: Cursor, w: seq<byte>)
    requires SlotFits(c, Whole, |w|)
    ensures |w| <= c.Pos() <= |c.Mem()| && Fill(c, Whole, w).Pos() == c.Pos()
    ensures Fill(c, Whole, w).Mem() == Overwrite(c.Mem(), c.Pos() - |w|, w)
  {
    StoredMem(c, c.it - |w|, w);
  }

  lemma FillAbs(c: Cursor, slot: Slot, w: seq<byte>)
    requires c.Valid() && SlotFits(c, slot, |w|) && !slot.NoSlot?
    ensures Fill(c, slot, w).Valid() && |w| <= c.Pos() <= |c.Mem()|
    ensures Abs(Fill(c, slot, w)) == Abs(c).(mem := Overwrite(c.Mem(), c.Pos() - |w|, w))
  {
    var r := Fill(c, slot, w);
    assert r.Valid() by {
      assert |r.cur| == |c.cur| && r.it == c.it && r.next == c.next;
    }
    if slot.Split? {
      FillSplitMem(c, slot, w);
    } else {
      assert slot == Whole;
      FillWholeMem(c, w);
    }
  }

  lemma SliceAcross(x: seq<byte>, d: seq<byte>, e: seq<byte>, y: seq<byte>, first: nat, n: nat)
    requires first <= |d| && first <= n <= first + |e|
    ensures var at := |x| + |d| - first;
            (x + d + e + y)[at..at + n] == d[|d| - first..] + e[..n - first]
  {
  }

  lemma FetchSplitMem(c: Cursor, first: nat, n: nat)
    requires SlotFits(c, Split(first), n)
    ensures n <= c.Pos() <= |c.Mem()| && Fetch(c, Split(first), n) == c.Mem()[c.Pos() - n..c.Pos()]
  {
    var i := |c.done| - 1;
    ReplaceLast(c.done, []);
    hide Flatten;
    var x, d, y := Flatten(c.done[..i]), c.done[i], Flatten(c.next);
    assert c.Mem() == x + d + c.cur + y && c.Pos() == |x| + |d| + n - first;
    SliceAcross(x, d, c.cur, y, first, n);
  }

  lemma FetchAbs(c: Cursor, slot: Slot, n: nat)
    requires c.Valid() && SlotFits(c, slot, n) && !slot.NoSlot?
    ensures n <= c.Pos() <= |c.Mem()| && Fetch(c, slot, n) == c.Mem()[c.Pos() - n..c.Pos()]
  {
    if slot.Split? {
      hide Cursor.Mem, Cursor.Pos;
      FetchSplitMem(c, slot.first, n);
    } else {
      hide Flatten;
      CurInMem(c, c.it - n, c.it);
    }
  }

  /** ucdr_serialize_endian_TYPE; `image` is the memory image of the value. */
  function Serialize(c: Cursor, order: Endianness, image: seq<byte>): Cursor
    requires c.Valid() && IsSize(|image|) && Unsplit(c, order, |image|)
  {
    ClaimSlotAbs(c, |image|);
    var (r, slot) := ClaimSlot(c, |image|);
    Fill(r, slot, Wire(order, image))
  }

  /** ucdr_deserialize_endian_TYPE; an empty image says that the target was left alone. */
  function Deserialize(c: Cursor, order: Endianness, n: nat): (Cursor, seq<byte>)
    requires c.Valid() && IsSize(n) && Unsplit(c, order, n)
  {
    ClaimSlotAbs(c, n);
    var (r, slot) := ClaimSlot(c, n);
    (r, Wire(order, Fetch(r, slot, n)))
  }

  /** Alignment shortcut, fragment split, rollback and byte order: all of it is a flat `Put`. */
  lemma SerializeAbs(c: Cursor, order: Endianness, image: seq<byte>)
    requires c.Valid() && IsSize(|image|) && Unsplit(c, order, |image|)
    ensures var r := Serialize(c, order, image);
            r.Valid() && Abs(r) == Put(Abs(c), order, image)
  {
    hide Cursor.Mem, Cursor.Pos, ClaimSlot, Claim, SlotFits, Overwrite, Wire;
    ClaimSlotAbs(c, |image|);
    var (r, slot) := ClaimSlot(c, |image|);
    var w := Wire(order, image);
    if !slot.NoSlot? {
      FillAbs(r, slot, w);
      assert Abs(r).mem == Abs(c).mem;
    }
  }

  lemma DeserializeAbs(c: Cursor, order: Endianness, n: nat)
    requires c.Valid() && IsSize(n) && Unsplit(c, order, n)
    ensures var (r, image) := Deserialize(c, order, n);
            r.Valid() && (Abs(r), image) == Get(Abs(c), order, n)
  {
    hide Cursor.Mem, Cursor.Pos, ClaimSlot, Claim, SlotFits, Wire, Cursor.LastDividesOffset;
    ClaimSlotAbs(c, n);
    var (r, slot) := ClaimSlot(c, n);
    if slot.NoSlot? {
      assert |Wire(order, [])| == 0;
    } else {
      FetchAbs(r, slot, n);
      assert Abs(r).mem == Abs(c).mem;
    }
  }

  /** UCDR_SERIALIZE_BYTE_1 without the slot. */
  lemma SerializeByteIs(c: Cursor, b: byte)
    requires c.Valid()
    ensures var d := CheckFinal(c);
            && d.Valid() && (!d.error ==> d.it < |d.cur|)
            && Serialize(c, MACHINE, [b]) == if d.error then d else Moved(Stored(d, d.it, [b]), 1).(last := 1)
  {
    hide Cursor.Mem, Cursor.Pos, Overwrite;
    CheckFinalAbs(c);
    assert Wire(MACHINE, [b]) == [b];
  }

  lemma DeserializeByteIs(c: Cursor)
    requires c.Valid()
    ensures var d := CheckFinal(c);
            && d.Valid() && (!d.error ==> d.it < |d.cur|)
            && Deserialize(c, MACHINE, 1) ==
               if d.error then (d, []) else (Moved(d, 1).(last := 1), [d.cur[d.it]])
  {
    hide Cursor.Mem, Cursor.Pos;
    CheckFinalAbs(c);
    var d := CheckFinal(c);
    if !d.error { assert d.cur[d.it..d.it + 1] == [d.cur[d.it]]; }
  }

  /** Padding, then placement: the two halves of the N-byte macros. */
  lemma SerializeIs(c: Cursor, order: Endianness, image: seq<byte>)
    requires c.Valid() && IsSize(|image|) && |image| != 1 && Unsplit(c, order, |image|)
    ensures var a := Advance(c, BufferAlignment(c, |image|));
            && a.Valid() && a.last == 1 && (!a.error ==> Rem(a.offset + |image|, |image|) == 0)
            && var (r, slot) := Place(a, |image|, c.last);
               (order == MACHINE || !slot.Split?) && SlotFits(r, slot, |image|) && Serialize(c, order, image) == Fill(r, slot, Wire(order, image))
  {
    hide Cursor.Mem, Cursor.Pos, Advance, BufferAlignment, Place, Sizes;
    PaddedOffset(c, |image|);
    ClaimSlotAbs(c, |image|);
  }

  lemma DeserializeIs(c: Cursor, order: Endianness, n: nat)
    requires c.Valid() && IsSize(n) && n != 1 && Unsplit(c, order, n)
    ensures var a := Advance(c, BufferAlignment(c, n));
            && a.Valid() && a.last == 1 && (!a.error ==> Rem(a.offset + n, n) == 0)
            && var (r, slot) := Place(a, n, c.last);
               (order == MACHINE || !slot.Split?) && SlotFits(r, slot, n) && Deserialize(c, order, n) == (r, Wire(order, Fetch(r, slot, n)))
  {
    hide Cursor.Mem, Cursor.Pos, Advance, BufferAlignment, Place, Sizes;
    PaddedOffset(c, n);
    ClaimSlotAbs(c, n);
  }

  /** Storing the two parts one after the other fills the split slot. */
  lemma FillSplitIs(v: Cursor, image: seq<byte>, first: nat)
    requires v.it == 0 && v.done != [] && 0 < first < |image| <= first + |v.cur|
    requires first <= |v.done[|v.done| - 1]|
    ensures var i, k := |v.done| - 1, |image| - first;
            var d := Overwrite(v.done[i], |v.done[i]| - first, image[..first]);
            var r := Moved(v, k).(last := |image|);
            && SlotFits(r, Split(first), |image|)
            && Moved(Stored(v.(done := v.done[i := d]), 0, image[first..]), k).(last := |image|)
               == Fill(r, Split(first), image)
  {
    hide Overwrite;
  }

  /** The branch of the macros for a value that does not fit before the end of the buffer. */
  lemma PlaceSplitIs(a: Cursor, n: nat, last: nat)
    requires a.Valid() && a.it < |a.cur| && n <= 8 && (a.error || |a.cur| < a.it + n)
    ensures var first := |a.cur| - a.it;
            var d := CheckFinal(Moved(a, first));
            var (r, slot) := Place(a, n, last);
            if d.error then
              && (r, slot) == (d.(it := d.it - first, offset := d.offset - first, last := last), NoSlot)
              && SlotFits(r, slot, n) && Fetch(r, slot, n) == []
            else
              && d.it == 0 && (r, slot) == (Moved(d, n - first).(last := n), Split(first))
              && SlotFits(r, slot, n) && Fetch(r, slot, n) == a.cur[a.it..] + d.cur[..n - first]
  {
    hide Cursor.LastDividesOffset;
  }
}
