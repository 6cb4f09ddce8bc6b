/**
 The code that make_libraries.py emits, run on the buffer that the C code has: proved to do what
 `Messages` says.
 */
module MessageCode {
  import opened Bytes
  import opened CdrFlat
  import opened CdrCursor
  import opened CdrArrays
  import opened CdrRuns
  import opened CdrBuffer
  import opened Messages
  import opened Alignment

  /** The buffer can take values in its own byte order, wherever they fall. */
  ghost predicate Ready(cdr: UcdrBuffer)
    reads cdr
  {
    cdr.Valid() && (cdr.endianness == MACHINE || cdr.used == |cdr.pool|)
  }

  lemma ReadyIsLoose(cdr: UcdrBuffer)
    requires Ready(cdr)
    ensures Loose(cdr.View(), cdr.endianness)
  {
    hide Separate, UcdrBuffer.Pooled;
    assert |cdr.View().next| == |cdr.pool| - cdr.used;
  }

  ghost function Flatly(cdr: UcdrBuffer): (f: Flat)
    requires cdr.Valid()
    reads cdr, Arrays(cdr.regions)
    ensures f.Valid() && f.error == cdr.error && f.offset == cdr.offset
  {
    Abs(cdr.View())
  }

  /** ucdr_serialize_TYPE, in the byte order of the buffer. */
  method Emit(cdr: UcdrBuffer, image: seq<byte>)
    requires Ready(cdr) && IsSize(|image|)
    modifies cdr, Arrays(cdr.regions)
    ensures Ready(cdr) && cdr.endianness == old(cdr.endianness)
    ensures Margins(cdr.regions) == old(Margins(cdr.regions))
    ensures Flatly(cdr) == Put(old(Flatly(cdr)), cdr.endianness, image)
  {
    hide Separate, Serialize, Put, Cursor.Mem, Cursor.Pos, Sizes, UcdrBuffer.View, UcdrBuffer.Pooled, Cursor.LastDividesOffset;
    ghost var c := cdr.View();
    ReadyIsLoose(cdr);
    LoosePut(c, cdr.endianness, image);
    if |image| == 1 {
      SerializeAbs(c, MACHINE, image);
      SerializeFollows(c, MACHINE, image);
      FollowsSupply(c, Serialize(c, MACHINE, image));
      OneByteOrder(Abs(c), cdr.endianness, image);
      assert [image[0]] == image;
      var _ := cdr.SerializeByte(image[0]);
    } else {
      SerializeAbs(c, cdr.endianness, image);
      SerializeFollows(c, cdr.endianness, image);
      var _ := cdr.SerializeValue(cdr.endianness, image);
    }
  }

  lemma OneByteOrder(f: Flat, order: Endianness, image: seq<byte>)
    requires f.Valid() && |image| == 1
    ensures Put(f, order, image) == Put(f, MACHINE, image)
  {
    assert Reversed(image) == image;
  }

  /** Emitted cdr_serialize, for a value of any field type. */
  method CdrSerialize(cdr: UcdrBuffer, ty: Ty, v: Val)
    requires Ready(cdr) && WellFormed(ty) && HasType(ty, v)
    modifies cdr, Arrays(cdr.regions)
    ensures Ready(cdr) && cdr.endianness == old(cdr.endianness)
    ensures Margins(cdr.regions) == old(Margins(cdr.regions))
    ensures Flatly(cdr) == Ser(ty, v, cdr.endianness, old(Flatly(cdr)))
    decreases ty, 0
  {
    hide Separate, Put, PutString, PutSequence, Flatly, HasVarArr;
    match ty {
      case Prim(_) => Emit(cdr, v.image);
      case Str => EmitString(cdr, v.chars);
      case Msg(fields) => SerializeFields(cdr, fields, v.vals);
      case FixedArr(elem, _) => SerializeElems(cdr, elem, v.elems);
      case VarArr(elem) =>
        Emit(cdr, LE32(|v.elems|));
        SerializeElems(cdr, elem, v.elems);
    }
  }

  method EmitString(cdr: UcdrBuffer, chars: seq<byte>)
    requires Ready(cdr) && |chars| + 1 < 0x1_0000_0000
    modifies cdr, Arrays(cdr.regions)
    ensures Ready(cdr) && cdr.endianness == old(cdr.endianness)
    ensures Margins(cdr.regions) == old(Margins(cdr.regions))
    ensures Flatly(cdr) == PutString(old(Flatly(cdr)), cdr.endianness, chars)
  {
    hide Separate, SerializeSequence, PutSequence, Cursor.Mem, Cursor.Pos, Sizes, UcdrBuffer.View, UcdrBuffer.Pooled, Cursor.LastDividesOffset;
    ghost var c := cdr.View();
    var elems := Singles(chars + [0]);
    ReadyIsLoose(cdr);
    LooseSequence(c, cdr.endianness, 1, elems);
    SerializeSequenceAbs(c, cdr.endianness, 1, elems);
    FollowsSupply(c, SerializeSequence(c, cdr.endianness, 1, elems));
    cdr.SerializeCounted(cdr.endianness, 1, elems);
  }

  /** Body of a cdr_serialize: one statement per field. */
  method SerializeFields(cdr: UcdrBuffer, tys: seq<Ty>, vs: seq<Val>)
    requires Ready(cdr) && (forall t <- tys :: WellFormed(t)) && HaveTypes(tys, vs)
    modifies cdr, Arrays(cdr.regions)
    ensures Ready(cdr) && cdr.endianness == old(cdr.endianness)
    ensures Margins(cdr.regions) == old(Margins(cdr.regions))
    ensures Flatly(cdr) == SerFields(tys, vs, cdr.endianness, old(Flatly(cdr)))
    decreases tys
  {
    hide Separate, Ser, Flatly, HasType, WellFormed;
    if tys != [] {
      CdrSerialize(cdr, tys[0], vs[0]);
      SerializeFields(cdr, tys[1..], vs[1..]);
    }
  }

  /** The emitted for loop over array elements. */
  method SerializeElems(cdr: UcdrBuffer, elem: Ty, vs: seq<Val>)
    requires Ready(cdr) && WellFormed(elem) && forall v <- vs :: HasType(elem, v)
    modifies cdr, Arrays(cdr.regions)
    ensures Ready(cdr) && cdr.endianness == old(cdr.endianness)
    ensures Margins(cdr.regions) == old(Margins(cdr.regions))
    ensures Flatly(cdr) == SerElems(elem, vs, cdr.endianness, old(Flatly(cdr)))
    decreases elem, |vs| + 1
  {
    hide Separate, Ser, Flatly, HasType, WellFormed;
    ghost var f := Flatly(cdr);
    var i := 0;
    assert vs[0..] == vs;
    while i < |vs|
      invariant 0 <= i <= |vs| && Ready(cdr) && cdr.endianness == old(cdr.endianness)
      invariant Margins(cdr.regions) == old(Margins(cdr.regions))
      invariant SerElems(elem, vs, cdr.endianness, f) == SerElems(elem, vs[i..], cdr.endianness, Flatly(cdr))
    {
      assert vs[i..][1..] == vs[i + 1..];
      CdrSerialize(cdr, elem, vs[i]);
      i := i + 1;
    }
  }

  /** serialize_encapsulation of ros/cdr.h. */
  method SerializeHeader(cdr: UcdrBuffer)
    requires Ready(cdr)
    modifies cdr, Arrays(cdr.regions)
    ensures Ready(cdr) && cdr.endianness == old(cdr.endianness)
    ensures Margins(cdr.regions) == old(Margins(cdr.regions))
    ensures Flatly(cdr) == SerHeader(cdr.endianness, old(Flatly(cdr)))
  {
    hide Separate, SerializeArray, Put, PutArray, Cursor.Mem, Cursor.Pos, Sizes, UcdrBuffer.View, UcdrBuffer.Pooled, Cursor.LastDividesOffset;
    Emit(cdr, [0]);
    Emit(cdr, [1]);
    ghost var c := cdr.View();
    var options: seq<seq<byte>> := [[0], [0]];
    ReadyIsLoose(cdr);
    LooseArray(c, cdr.endianness, 1);
    SerializeArrayAbs(c, cdr.endianness, 1, options);
    FollowsSupply(c, SerializeArray(c, cdr.endianness, 1, options));
    cdr.SerializeElements(cdr.endianness, 1, options);
  }

  // ---- the emitted deserializer, on a buffer without a callback ----

  ghost predicate Single(cdr: UcdrBuffer)
    reads cdr
  {
    cdr.Valid() && cdr.pool == []
  }

  lemma SingleIsLoose(cdr: UcdrBuffer)
    requires Single(cdr)
    ensures Loose(cdr.View(), cdr.endianness)
  {
    hide Separate, UcdrBuffer.Pooled;
    assert |cdr.View().next| == |cdr.pool| - cdr.used;
  }

  lemma SingleFlatly(cdr: UcdrBuffer)
    requires Single(cdr)
    ensures cdr.init <= cdr.final <= cdr.buf.Length
    ensures Flatly(cdr) == Flat(cdr.buf[cdr.init..cdr.final], cdr.iterator_ - cdr.init, cdr.offset, cdr.error)
  {
    hide Rem;
    var v := cdr.View();
    assert v.done == [] && v.next == [];
    assert Flatten(v.done) == [] && Flatten(v.next) == [];
    assert v.cur == cdr.buf[cdr.init..cdr.final];
    assert v.Mem() == v.cur;
  }

  /** ucdr_deserialize_TYPE; an empty image when the target was left alone. */
  method Take(cdr: UcdrBuffer, size: nat) returns (image: seq<byte>)
    requires Single(cdr) && IsSize(size)
    modifies cdr
    ensures Single(cdr) && cdr.endianness == old(cdr.endianness)
    ensures (Flatly(cdr), image) == Get(old(Flatly(cdr)), cdr.endianness, size)
  {
    hide Separate, Deserialize, Get, Cursor.Mem, Cursor.Pos, UcdrBuffer.View, UcdrBuffer.Pooled, Cursor.LastDividesOffset;
    ghost var c := cdr.View();
    SingleIsLoose(cdr);
    LooseGet(c, cdr.endianness, size);
    if size == 1 {
      DeserializeAbs(c, MACHINE, 1);
      OneByteOrderGet(Abs(c), cdr.endianness);
      var ok, b := cdr.DeserializeByte(0);
      image := if ok then [b] else [];
    } else {
      DeserializeAbs(c, cdr.endianness, size);
      var ok, read := cdr.DeserializeValue(cdr.endianness, seq(size, _ => 0));
      image := if ok then read else [];
    }
  }

  lemma OneByteOrderGet(f: Flat, order: Endianness)
    requires f.Valid()
    ensures Get(f, order, 1) == Get(f, MACHINE, 1)
  {
    var g := Claim(f, 1);
    if !g.error { assert Reversed(g.mem[g.pos - 1..g.pos]) == g.mem[g.pos - 1..g.pos]; }
  }

  method TakeString(cdr: UcdrBuffer) returns (v: Val, ok: bool)
    requires Single(cdr)
    modifies cdr
    ensures Single(cdr) && cdr.endianness == old(cdr.endianness)
    ensures DesString(cdr.endianness, old(Flatly(cdr))) == Read(Flatly(cdr), v, ok)
  {
    hide Separate, Get, Flatly, UcdrBuffer.Pooled, UpToNul, FromLE32;
    var image := Take(cdr, 4);
    v, ok := VStr([]), false;
    if image != [] {
      SingleFlatly(cdr);
      var n := FromLE32(image);
      var start := cdr.iterator_;
      ghost var g := Flatly(cdr);
      if n != 0 && start + n <= cdr.final && cdr.buf[start + n - 1] == 0 {
        assert g.mem[g.pos + n - 1] == cdr.buf[start + n - 1];
        SliceOfSlice(cdr.buf, cdr.init, cdr.final, start, start + n);
        v, ok := VStr(UpToNul(cdr.buf[start..start + n])), true;
        assert Flatly(cdr) == g && g.mem[g.pos..g.pos + n] == cdr.buf[start..start + n];
        SkipOver(cdr, n);
      } else if n != 0 && start + n <= cdr.final {
        assert g.mem[g.pos + n - 1] == cdr.buf[start + n - 1];
      }
    }
  }

  method SkipOver(cdr: UcdrBuffer, n: nat)
    requires Single(cdr)
    modifies cdr
    ensures Single(cdr) && cdr.endianness == old(cdr.endianness)
    ensures Flatly(cdr) == Skip(old(Flatly(cdr)), n)
  {
    hide Separate, Advance, Skip, Cursor.Mem, Cursor.Pos, UcdrBuffer.View, UcdrBuffer.Pooled, Cursor.LastDividesOffset;
    AdvanceAbs(cdr.View(), n);
    cdr.AdvanceBuffer(n);
  }

  /** Emitted cdr_deserialize, for a field of any type. */
  method CdrDeserialize(cdr: UcdrBuffer, ty: Ty) returns (v: Val, ok: bool)
    requires Single(cdr) && WellFormed(ty)
    modifies cdr
    ensures Single(cdr) && cdr.endianness == old(cdr.endianness)
    ensures Des(ty, cdr.endianness, old(Flatly(cdr))) == Read(Flatly(cdr), v, ok)
    decreases ty, 0
  {
    hide Separate, Get, DesString, Flatly, HasVarArr, FromLE32;
    match ty {
      case Prim(size) =>
        var image := Take(cdr, size);
        v, ok := VPrim(image), true;
      case Str => v, ok := TakeString(cdr);
      case Msg(fields) =>
        var vs, ended := DeserializeFields(cdr, fields);
        v, ok := VMsg(vs), true;
      case FixedArr(elem, n) =>
        var vs, going := DeserializeElems(cdr, elem, n);
        v, ok := VArr(vs), going;
      case VarArr(elem) =>
        var image := Take(cdr, 4);
        if image == [] {
          v, ok := VArr([]), false;
        } else {
          var vs, going := DeserializeElems(cdr, elem, FromLE32(image));
          v, ok := VArr(vs), going;
        }
    }
  }

  /** Body of a cdr_deserialize: one statement per field, until one of them returns false. */
  method DeserializeFields(cdr: UcdrBuffer, tys: seq<Ty>) returns (vs: seq<Val>, ok: bool)
    requires Single(cdr) && forall t <- tys :: WellFormed(t)
    modifies cdr
    ensures Single(cdr) && cdr.endianness == old(cdr.endianness)
    ensures DesFields(tys, cdr.endianness, old(Flatly(cdr))) == Reads(Flatly(cdr), vs, ok)
    decreases tys
  {
    hide Separate, Des, Flatly, WellFormed;
    vs, ok := [], true;
    if tys != [] {
      var v;
      v, ok := CdrDeserialize(cdr, tys[0]);
      vs := [v];
      if ok {
        var more;
        more, ok := DeserializeFields(cdr, tys[1..]);
        vs := [v] + more;
      }
    }
  }

  /** The emitted for loop over array elements. */
  method DeserializeElems(cdr: UcdrBuffer, elem: Ty, n: nat) returns (vs: seq<Val>, ok: bool)
    requires Single(cdr) && WellFormed(elem)
    modifies cdr
    ensures Single(cdr) && cdr.endianness == old(cdr.endianness)
    ensures DesElems(elem, n, cdr.endianness, old(Flatly(cdr))) == Reads(Flatly(cdr), vs, ok)
    decreases elem, n + 1
  {
    hide Separate, Des, DesElems, Flatly, WellFormed, Onto;
    ghost var f, order := Flatly(cdr), cdr.endianness;
    var i := 0;
    vs, ok := [], true;
    OntoNothing(DesElems(elem, n, order, f));
    while i < n && ok
      invariant 0 <= i <= n && Single(cdr) && cdr.endianness == order
      invariant DesElems(elem, n, order, f) ==
                if ok then Onto(vs, DesElems(elem, n - i, order, Flatly(cdr))) else Reads(Flatly(cdr), vs, false)
    {
      ElemsUnroll(elem, n - i, order, Flatly(cdr));
      ghost var before := vs;
      var v;
      v, ok := CdrDeserialize(cdr, elem);
      vs := vs + [v];
      i := i + 1;
      if ok {
        OntoOnto(before, v, DesElems(elem, n - i, order, Flatly(cdr)));
      } else {
        OntoEnd(before, v, Flatly(cdr));
      }
    }
    if ok { OntoDone(vs, elem, order, Flatly(cdr)); }
  }

  /** The values read so far, before those of a later part. */
  ghost function Onto(vs: seq<Val>, r: Reads): Reads { Reads(r.f, vs + r.vs, r.ok) }

  lemma OntoNothing(r: Reads)
    ensures Onto([], r) == r
  {
    assert [] + r.vs == r.vs;
  }

  lemma OntoOnto(vs: seq<Val>, v: Val, r: Reads)
    ensures Onto(vs, Onto([v], r)) == Onto(vs + [v], r)
  {
    assert vs + ([v] + r.vs) == vs + [v] + r.vs;
  }

  lemma OntoEnd(vs: seq<Val>, v: Val, f: Flat)
    ensures Onto(vs, Reads(f, [v], false)) == Reads(f, vs + [v], false)
  {
  }

  lemma OntoDone(vs: seq<Val>, elem: Ty, order: Endianness, f: Flat)
    requires f.Valid() && WellFormed(elem)
    ensures Onto(vs, DesElems(elem, 0, order, f)) == Reads(f, vs, true)
  {
    assert vs + [] == vs;
  }

  lemma ElemsUnroll(elem: Ty, n: nat, order: Endianness, f: Flat)
    requires f.Valid() && WellFormed(elem) && n > 0
    ensures var a := Des(elem, order, f);
            DesElems(elem, n, order, f) ==
            if a.ok then Onto([a.v], DesElems(elem, n - 1, order, a.f)) else Reads(a.f, [a.v], false)
  {
    hide Des;
  }

  /** deserialize_encapsulation of ros/cdr.h. */
  method DeserializeHeader(cdr: UcdrBuffer) returns (ok: bool)
    requires Single(cdr)
    modifies cdr
    ensures Single(cdr) && cdr.endianness == old(cdr.endianness)
    ensures (Flatly(cdr), ok) == DesHeader(cdr.endianness, old(Flatly(cdr)))
  {
    hide Separate, DeserializeArray, Get, GetArray, Cursor.Mem, Cursor.Pos, Sizes, UcdrBuffer.View, UcdrBuffer.Pooled,
         Cursor.LastDividesOffset;
    ok := true;
    var dummy := Take(cdr, 1);
    if dummy != [] && dummy[0] != 0 {
      ok := false;
    } else {
      var flags := Take(cdr, 1);
      SingleIsLoose(cdr);
      LooseArray(cdr.View(), cdr.endianness, 1);
      DeserializeArrayAbs(cdr.View(), cdr.endianness, 1, 2);
      var options := cdr.DeserializeElements(cdr.endianness, 1, 2);
    }
  }
}
