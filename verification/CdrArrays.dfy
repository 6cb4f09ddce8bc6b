/** ucdr/types/array.c and ucdr/types/sequence.c on cursor values, and whole runs of calls. */
module CdrArrays {
  import opened Bytes
  import opened CdrFlat
  import opened CdrCursor

  // ---- fragments under the calls of basic.c and array.c ----

  lemma PlaceFollows(a: Cursor, n: nat, last: nat)
    requires a.it <= |a.cur|
    ensures Follows(a, Place(a, n, last).0)
  {
    hide Sizes;
    var m := Moved(a, |a.cur| - a.it);
    SameFragments(a, m);
    CheckFinalFollows(m);
    CheckFinalFollows(a);
    var r := Place(a, n, last).0;
    if !a.error && a.it + n <= |a.cur| {
      SameFragments(a, r);
    } else if |a.cur| > a.it {
      SameFragments(CheckFinal(m), r);
    } else {
      SameFragments(CheckFinal(a), r);
    }
  }

  lemma ClaimSlotFollows(c: Cursor, n: nat)
    requires c.Valid() && IsSize(n)
    ensures Follows(c, ClaimSlot(c, n).0)
  {
    hide Sizes, Advance, Place, BufferAlignment;
    if n == 1 {
      CheckFinalFollows(c);
      SameFragments(CheckFinal(c), Claim1(c).0);
    } else {
      AdvanceAbs(c, BufferAlignment(c, n));
      AdvanceFollows(c, BufferAlignment(c, n));
      PlaceFollows(Advance(c, BufferAlignment(c, n)), n, c.last);
    }
  }

  lemma FillFollows(c: Cursor, slot: Slot, w: seq<byte>)
    requires SlotFits(c, slot, |w|)
    ensures Follows(c, Fill(c, slot, w))
  {
    var r := Fill(c, slot, w);
    var x, y := c.done + [c.cur] + c.next, r.done + [r.cur] + r.next;
    assert |x| == |y| && forall i :: 0 <= i < |x| ==> |x[i]| == |y[i]|;
  }

  lemma SerializeFollows(c: Cursor, order: Endianness, image: seq<byte>)
    requires c.Valid() && IsSize(|image|) && Unsplit(c, order, |image|)
    ensures Follows(c, Serialize(c, order, image))
  {
    hide Sizes, ClaimSlot, Fill, SlotFits;
    ClaimSlotAbs(c, |image|);
    ClaimSlotFollows(c, |image|);
    var (r, slot) := ClaimSlot(c, |image|);
    FillFollows(r, slot, Wire(order, image));
  }

  lemma DeserializeFollows(c: Cursor, order: Endianness, n: nat)
    requires c.Valid() && IsSize(n) && Unsplit(c, order, n)
    ensures Follows(c, Deserialize(c, order, n).0)
  {
    hide Sizes, ClaimSlot, Fetch, SlotFits;
    ClaimSlotAbs(c, n);
    ClaimSlotFollows(c, n);
  }

  lemma {:induction false} CopyInLoopFollows(c: Cursor, data: seq<byte>)
    requires c.Valid()
    ensures Follows(c, CopyInLoop(c, data))
    decreases |data|
  {
    hide CheckFinal, Sizes;
    CheckFinalFollows(c);
    CheckFinalAbs(c);
    var d := CheckFinalArray(c, |data|);
    var k := Room(d, |data|);
    if k != 0 {
      var e := Moved(Stored(d, d.it, data[..k]), k).(last := 1);
      SameFragments(d, e);
      CopyInLoopFollows(e, data[k..]);
    }
  }

  lemma {:induction false} CopyOutLoopFollows(c: Cursor, n: nat)
    requires c.Valid()
    ensures Follows(c, CopyOutLoop(c, n).0)
    decreases n
  {
    hide CheckFinal, Sizes;
    CheckFinalFollows(c);
    CheckFinalAbs(c);
    var d := CheckFinalArray(c, n);
    var k := Room(d, n);
    if k != 0 {
      var e := Moved(d, k).(last := 1);
      SameFragments(d, e);
      CopyOutLoopFollows(e, n - k);
    }
  }

  /** A block of whole elements from an aligned offset: flat copy, and the remembered size is earned. */
  lemma ArrayToBufferAbs(c: Cursor, data: seq<byte>, size: nat)
    requires c.Valid() && IsSize(size)
    requires !c.error ==> Rem(c.offset, size) == 0 && Rem(c.offset + |data|, size) == 0
    ensures var r := ArrayToBuffer(c, data, size);
            r.Valid() && Abs(r) == CopyIn(Abs(c), data) && Follows(c, r)
  {
    hide Cursor.Mem, Cursor.Pos, Sizes, CopyInLoop, Overwrite;
    var r := ArrayToBuffer(c, data, size);
    if !c.error && c.it + |data| <= |c.cur| {
      var m := Moved(Stored(c, c.it, data), |data|).(last := 1);
      StoredAbs(c, data);
      MemOf(m, r);
      SameFragments(c, r);
    } else {
      CopyInLoopAbs(c, data);
      CopyInLoopFollows(c, data);
      MemOf(CopyInLoop(c, data), r);
      SameFragments(CopyInLoop(c, data), r);
    }
  }

  lemma BufferToArrayAbs(c: Cursor, n: nat, size: nat)
    requires c.Valid() && IsSize(size)
    requires !c.error ==> Rem(c.offset, size) == 0 && Rem(c.offset + n, size) == 0
    ensures var (r, data) := BufferToArray(c, n, size);
            r.Valid() && (Abs(r), data) == CopyOut(Abs(c), n) && Follows(c, r)
  {
    hide Cursor.Mem, Sizes, CopyOutLoop, Rem;
    var r := BufferToArray(c, n, size).0;
    if !c.error && c.it + n <= |c.cur| {
      MovedAbs(c, n);
      CurInMem(c, c.it, c.it + n);
      MemOf(c, r);
      SameFragments(c, r);
    } else {
      CopyOutLoopAbs(c, n);
      CopyOutLoopFollows(c, n);
      MemOf(CopyOutLoop(c, n).0, r);
      SameFragments(CopyOutLoop(c, n).0, r);
    }
  }

  // ---- arrays ----

  predicate Images(elems: seq<seq<byte>>, size: nat) {
    forall e <- elems :: |e| == size
  }

  lemma OneMore(k: nat, size: nat)
    ensures (k + 1) * size == k * size + size
  {
  }

  lemma {:induction false} FlattenImages(elems: seq<seq<byte>>, size: nat)
    requires IsSize(size) && Images(elems, size)
    ensures |Flatten(elems)| == |elems| * size
  {
    if elems != [] {
      FlattenImages(elems[1..], size);
      OneMore(|elems| - 1, size);
    }
  }

  /** The padding before an array; the macros put the remembered size back afterwards. */
  function ArrayPad(c: Cursor, size: nat): Cursor
    requires c.Valid() && IsSize(size)
  {
    Advance(c, BufferAlignment(c, size)).(last := c.last)
  }

  lemma ArrayPadAbs(c: Cursor, size: nat)
    requires c.Valid() && IsSize(size)
    ensures var a := ArrayPad(c, size);
            && a.Valid() && Abs(a) == Skip(Abs(c), Pad(c.offset, size))
            && (!a.error ==> Rem(a.offset, size) == 0) && Follows(c, a)
  {
    hide Cursor.Mem, Cursor.Pos, Sizes, Advance, BufferAlignment;
    var k := BufferAlignment(c, size);
    AdvanceAbs(c, k);
    AdvanceFollows(c, k);
    var a := ArrayPad(c, size);
    MemOf(Advance(c, k), a);
    SameFragments(Advance(c, k), a);
    if !c.error {
      ShortcutIsAlignment(c, size);
      if !a.error && c.last != 0 && c.last < size { LargerSizeDivides(a.offset, size, c.last); }
    }
  }

  lemma SerializeValid(c: Cursor, order: Endianness, image: seq<byte>)
    requires c.Valid() && IsSize(|image|) && Unsplit(c, order, |image|)
    ensures Serialize(c, order, image).Valid()
  {
    hide *;
    SerializeAbs(c, order, image);
  }

  lemma DeserializeValid(c: Cursor, order: Endianness, n: nat)
    requires c.Valid() && IsSize(n) && Unsplit(c, order, n)
    ensures Deserialize(c, order, n).0.Valid()
  {
    hide *;
    DeserializeAbs(c, order, n);
  }

  lemma ArrayPadValid(c: Cursor, size: nat)
    requires c.Valid() && IsSize(size)
    ensures ArrayPad(c, size).Valid()
  {
    hide *;
    ArrayPadAbs(c, size);
  }

  /** No element is split on its way. */
  predicate AllUnsplit(c: Cursor, order: Endianness, elems: seq<seq<byte>>)
    requires c.Valid() && forall e <- elems :: IsSize(|e|)
    decreases |elems|
  {
    elems == [] ||
    (Unsplit(c, order, |elems[0]|) &&
     (SerializeValid(c, order, elems[0]); AllUnsplit(Serialize(c, order, elems[0]), order, elems[1..])))
  }

  predicate AllUnsplitGet(c: Cursor, order: Endianness, size: nat, n: nat)
    requires c.Valid() && IsSize(size)
    decreases n
  {
    n == 0 ||
    (Unsplit(c, order, size) &&
     (DeserializeValid(c, order, size); AllUnsplitGet(Deserialize(c, order, size).0, order, size, n - 1)))
  }

  function SerializeAll(c: Cursor, order: Endianness, elems: seq<seq<byte>>): (r: Cursor)
    requires c.Valid() && (forall e <- elems :: IsSize(|e|)) && AllUnsplit(c, order, elems)
    decreases |elems|
  {
    if elems == [] then c else
    SerializeValid(c, order, elems[0]);
    SerializeAll(Serialize(c, order, elems[0]), order, elems[1..])
  }

  lemma {:induction false} SerializeAllAbs(c: Cursor, order: Endianness, elems: seq<seq<byte>>)
    requires c.Valid() && (forall e <- elems :: IsSize(|e|)) && AllUnsplit(c, order, elems)
    ensures var r := SerializeAll(c, order, elems);
            r.Valid() && Abs(r) == PutAll(Abs(c), order, elems) && Follows(c, r)
    decreases |elems|
  {
    hide Serialize, Put, Cursor.Mem, Cursor.Pos, Cursor.LastDividesOffset;
    if elems != [] {
      SerializeAbs(c, order, elems[0]);
      SerializeFollows(c, order, elems[0]);
      SerializeAllAbs(Serialize(c, order, elems[0]), order, elems[1..]);
    }
  }

  function DeserializeAll(c: Cursor, order: Endianness, size: nat, n: nat): (r: (Cursor, seq<byte>))
    requires c.Valid() && IsSize(size) && AllUnsplitGet(c, order, size, n)
    decreases n
  {
    hide Deserialize, Unsplit;
    if n == 0 then (c, []) else
    DeserializeValid(c, order, size);
    var (d, e) := Deserialize(c, order, size);
    var (r, es) := DeserializeAll(d, order, size, n - 1);
    (r, e + es)
  }

  lemma {:induction false} DeserializeAllAbs(c: Cursor, order: Endianness, size: nat, n: nat)
    requires c.Valid() && IsSize(size) && AllUnsplitGet(c, order, size, n)
    ensures var (r, data) := DeserializeAll(c, order, size, n);
            r.Valid() && (Abs(r), data) == GetAll(Abs(c), order, size, n) && Follows(c, r)
    decreases n
  {
    hide Deserialize, Get, Cursor.Mem, Cursor.Pos, Cursor.LastDividesOffset;
    if n != 0 {
      DeserializeAbs(c, order, size);
      DeserializeFollows(c, order, size);
      DeserializeAllAbs(Deserialize(c, order, size).0, order, size, n - 1);
    }
  }

  /** Blocks may be split; the element loop for the opposite byte order may not split an element. */
  predicate ArrayUnsplit(c: Cursor, order: Endianness, size: nat, elems: seq<seq<byte>>)
    requires c.Valid() && IsSize(size) && Images(elems, size)
  {
    size == 1 || order == MACHINE || (ArrayPadValid(c, size); AllUnsplit(ArrayPad(c, size), order, elems))
  }

  predicate ArrayUnsplitGet(c: Cursor, order: Endianness, size: nat, n: nat)
    requires c.Valid() && IsSize(size)
  {
    size == 1 || order == MACHINE || (ArrayPadValid(c, size); AllUnsplitGet(ArrayPad(c, size), order, size, n))
  }

  /** ucdr_serialize_endian_array_TYPE. */
  function SerializeArray(c: Cursor, order: Endianness, size: nat, elems: seq<seq<byte>>): Cursor
    requires c.Valid() && IsSize(size) && Images(elems, size) && ArrayUnsplit(c, order, size, elems)
  {
    if size == 1 then ArrayToBuffer(c, Flatten(elems), 1) else
    ArrayPadValid(c, size);
    var a := ArrayPad(c, size);
    if order == MACHINE then ArrayToBuffer(a, Flatten(elems), size) else SerializeAll(a, order, elems)
  }

  /** ucdr_deserialize_endian_array_TYPE. */
  function DeserializeArray(c: Cursor, order: Endianness, size: nat, n: nat): (Cursor, seq<byte>)
    requires c.Valid() && IsSize(size) && ArrayUnsplitGet(c, order, size, n)
  {
    if size == 1 then BufferToArray(c, n, 1) else
    ArrayPadValid(c, size);
    var a := ArrayPad(c, size);
    if order == MACHINE then BufferToArray(a, n * size, size) else DeserializeAll(a, order, size, n)
  }

  lemma Multiple(k: nat, size: nat, x: nat)
    requires IsSize(size) && Rem(x, size) == 0
    ensures Rem(x + k * size, size) == 0
  {
    RemIsRemainder(x, size);
    RemIsRemainder(x + k * size, size);
    if {
      case size == 1 =>
      case size == 2 => TwoTimes(x / 2 + k, 0);
      case size == 4 => FourTimes(x / 4 + k, 0);
      case size == 8 => EightTimes(x / 8 + k, 0);
    }
  }

  lemma SerializeArrayAbs(c: Cursor, order: Endianness, size: nat, elems: seq<seq<byte>>)
    requires c.Valid() && IsSize(size) && Images(elems, size) && ArrayUnsplit(c, order, size, elems)
    ensures var r := SerializeArray(c, order, size, elems);
            r.Valid() && Abs(r) == PutArray(Abs(c), order, size, elems) && Follows(c, r)
  {
    hide Cursor.Mem, Cursor.Pos, Cursor.LastDividesOffset, Sizes, ArrayToBuffer, SerializeAll, ArrayPad, CopyIn, PutAll;
    var data := Flatten(elems);
    FlattenImages(elems, size);
    ArrayPadAbs(c, size);
    var a := if size == 1 then c else ArrayPad(c, size);
    if size == 1 || order == MACHINE {
      if !a.error { Multiple(|elems|, size, a.offset); }
      ArrayToBufferAbs(a, data, size);
    } else {
      SerializeAllAbs(a, order, elems);
    }
  }

  lemma DeserializeArrayAbs(c: Cursor, order: Endianness, size: nat, n: nat)
    requires c.Valid() && IsSize(size) && ArrayUnsplitGet(c, order, size, n)
    ensures var (r, data) := DeserializeArray(c, order, size, n);
            r.Valid() && (Abs(r), data) == GetArray(Abs(c), order, size, n) && Follows(c, r)
  {
    hide Cursor.Mem, Cursor.Pos, Cursor.LastDividesOffset, Sizes, BufferToArray, DeserializeAll, ArrayPad, CopyOut, GetAll;
    ArrayPadAbs(c, size);
    var a := if size == 1 then c else ArrayPad(c, size);
    if size == 1 || order == MACHINE {
      if !a.error { Multiple(n, size, a.offset); }
      BufferToArrayAbs(a, n * size, size);
    } else {
      DeserializeAllAbs(a, order, size, n);
    }
  }

  // ---- where nothing is split ----

  /** The byte order of the machine, the last fragment, or an error. */
  predicate Loose(c: Cursor, order: Endianness) { order == MACHINE || c.next == [] || c.error }

  lemma LooseStays(c: Cursor, r: Cursor, order: Endianness)
    requires Loose(c, order) && Follows(c, r) && (c.error ==> r.error)
    ensures Loose(r, order)
  {
    FollowsSupply(c, r);
  }

  lemma LoosePut(c: Cursor, order: Endianness, image: seq<byte>)
    requires c.Valid() && IsSize(|image|) && Loose(c, order)
    ensures Unsplit(c, order, |image|)
    ensures var r := Serialize(c, order, image); r.Valid() && Loose(r, order)
  {
    hide Unsplit, Serialize, Cursor.Mem, Cursor.Pos, Sizes, Put;
    LastIsUnsplit(c, order, |image|);
    SerializeAbs(c, order, image);
    SerializeFollows(c, order, image);
    PutError(Abs(c), order, image);
    LooseStays(c, Serialize(c, order, image), order);
  }

  lemma PutError(f: Flat, order: Endianness, image: seq<byte>)
    requires f.Valid() && IsSize(|image|)
    ensures f.error ==> Put(f, order, image).error && Get(f, order, |image|).0.error
  {
  }

  lemma LooseGet(c: Cursor, order: Endianness, n: nat)
    requires c.Valid() && IsSize(n) && Loose(c, order)
    ensures Unsplit(c, order, n)
    ensures var r := Deserialize(c, order, n).0; r.Valid() && Loose(r, order)
  {
    hide Unsplit, Deserialize, Cursor.Mem, Cursor.Pos, Sizes, Get;
    LastIsUnsplit(c, order, n);
    DeserializeAbs(c, order, n);
    DeserializeFollows(c, order, n);
    PutError(Abs(c), order, seq(n, _ => 0));
    LooseStays(c, Deserialize(c, order, n).0, order);
  }

  lemma {:induction false} LooseAll(c: Cursor, order: Endianness, elems: seq<seq<byte>>)
    requires c.Valid() && (forall e <- elems :: IsSize(|e|)) && Loose(c, order)
    ensures AllUnsplit(c, order, elems)
    decreases |elems|
  {
    hide Unsplit, Serialize, Loose, Cursor.Valid;
    if elems != [] {
      LoosePut(c, order, elems[0]);
      LooseAll(Serialize(c, order, elems[0]), order, elems[1..]);
    }
  }

  lemma {:induction false} LooseAllGet(c: Cursor, order: Endianness, size: nat, n: nat)
    requires c.Valid() && IsSize(size) && Loose(c, order)
    ensures AllUnsplitGet(c, order, size, n)
    decreases n
  {
    hide Unsplit, Deserialize, Loose, Cursor.Valid;
    if n != 0 {
      LooseGet(c, order, size);
      LooseAllGet(Deserialize(c, order, size).0, order, size, n - 1);
    }
  }

  lemma LooseArray(c: Cursor, order: Endianness, size: nat)
    requires c.Valid() && IsSize(size) && Loose(c, order)
    ensures forall elems: seq<seq<byte>> :: Images(elems, size) ==> ArrayUnsplit(c, order, size, elems)
    ensures forall n: nat :: ArrayUnsplitGet(c, order, size, n)
  {
    hide AllUnsplit, AllUnsplitGet, ArrayPad, Cursor.Mem, Cursor.Pos, Sizes, Skip;
    ArrayPadAbs(c, size);
    var a := ArrayPad(c, size);
    SkipError(Abs(c), Pad(c.offset, size));
    LooseStays(c, a, order);
    forall elems: seq<seq<byte>> | Images(elems, size) ensures ArrayUnsplit(c, order, size, elems) { LooseAll(a, order, elems); }
    forall n: nat ensures ArrayUnsplitGet(c, order, size, n) { LooseAllGet(a, order, size, n); }
  }

  lemma SkipError(f: Flat, n: nat)
    requires f.Valid()
    ensures f.error ==> Skip(f, n).error
  {
  }
}
