/**
 The encapsulation header of ros/cdr.h and where it leaves the fields.  Micro-CDR counts alignment
 from the start of its buffer, so from the header on; CDR counts it from the start of the payload,
 four bytes later (section 9.3 of CORBA 3.3 Part 2, section 7.4 of DDS-XTypes 1.3).
 */
module Alignment {
  import opened Bytes
  import opened CdrFlat
  import opened Messages

  /** serialize_encapsulation: dummy byte, DDS_CDR with PLAIN_CDR and little endian, two option bytes. */
  function SerHeader(order: Endianness, f: Flat): (r: Flat)
    requires f.Valid()
    ensures r.Valid() && |r.mem| == |f.mem|
  {
    PutArray(Put(Put(f, order, [0]), order, [1]), order, 1, [[0], [0]])
  }

  /** deserialize_encapsulation; false when the dummy byte is not zero. */
  function DesHeader(order: Endianness, f: Flat): (r: (Flat, bool))
    requires f.Valid()
    ensures r.0.Valid() && r.0.mem == f.mem
  {
    var (g, dummy) := Get(f, order, 1);
    if dummy != [] && dummy[0] != 0 then (g, false) else
    var (h, flags) := Get(g, order, 1);
    (GetArray(h, order, 1, 2).0, true)
  }

  const HEADER: seq<byte> := [0, 1, 0, 0]

  lemma PutByteIs(f: Flat, order: Endianness, b: byte)
    requires f.Valid()
    ensures Put(f, order, [b]) == CopyIn(f, [b])
  {
    assert Pad(f.offset, 1) == 0;
    assert Wire(order, [b]) == [b];
    assert [b][..1] == [b];
    assert [b][..0] == [];
    assert f.pos == |f.mem| ==> Overwrite(f.mem, f.pos, []) == f.mem;
  }

  lemma CopyInBoth(f: Flat, a: seq<byte>, b: seq<byte>)
    requires f.Valid() && !f.error && f.pos + |a| + |b| <= |f.mem|
    ensures CopyIn(CopyIn(f, a), b) == CopyIn(f, a + b)
  {
    assert a[..|a|] == a && b[..|b|] == b && (a + b)[..|a| + |b|] == a + b;
  }

  /** The header is the four bytes 0, 1, 0, 0: plain CDR, little-endian. */
  lemma HeaderBytes(order: Endianness, f: Flat)
    requires f.Valid() && !f.error && f.pos + 4 <= |f.mem|
    ensures SerHeader(order, f) == CopyIn(f, [0, 1, 0, 0])
  {
    hide Put, Overwrite;
    var a := CopyIn(f, [0]);
    var b := CopyIn(a, [1]);
    PutByteIs(f, order, 0);
    PutByteIs(a, order, 1);
    assert Flatten<byte>([[0], [0]]) == [0, 0] by {
      assert Flatten<byte>([[0], [0]]) == [0] + Flatten<byte>([[0]]);
    }
    CopyInBoth(f, [0], [1]);
    CopyInBoth(f, [0, 1], [0, 0]);
    assert [0 as byte] + [1] == [0, 1];
    assert [0 as byte, 1] + [0, 0] == HEADER;
    assert Skip(b, Pad(b.offset, 1)) == b;
  }

  // ---- where the fields lie ----

  /** Offsets of the primitives of a value written from offset `at` on, and the offset behind them,
      when alignment is counted from `origin`. */
  function Offsets(ty: Ty, v: Val, origin: nat, at: nat): (r: (seq<nat>, nat))
    requires WellFormed(ty) && HasType(ty, v) && origin <= at
    ensures at <= r.1
    decreases ty, 0
  {
    match ty
    case Prim(size) => OffsetOf(size, origin, at)
    case Str => var (o, end) := OffsetOf(4, origin, at); (o, end + |v.chars| + 1)
    case Msg(fields) => FieldOffsets(fields, v.vals, origin, at)
    case FixedArr(elem, _) => ElemOffsets(elem, v.elems, origin, at)
    case VarArr(elem) =>
      var (o, end) := OffsetOf(4, origin, at);
      var (os, end') := ElemOffsets(elem, v.elems, origin, end);
      (o + os, end')
  }

  function OffsetOf(size: nat, origin: nat, at: nat): (seq<nat>, nat)
    requires IsSize(size) && origin <= at
  {
    var p := at + Pad(at - origin, size);
    ([p], p + size)
  }

  function FieldOffsets(tys: seq<Ty>, vs: seq<Val>, origin: nat, at: nat): (r: (seq<nat>, nat))
    requires (forall t <- tys :: WellFormed(t)) && HaveTypes(tys, vs) && origin <= at
    ensures at <= r.1
    decreases tys
  {
    if tys == [] then ([], at) else
    var (o, end) := Offsets(tys[0], vs[0], origin, at);
    var (os, end') := FieldOffsets(tys[1..], vs[1..], origin, end);
    (o + os, end')
  }

  function ElemOffsets(elem: Ty, vs: seq<Val>, origin: nat, at: nat): (r: (seq<nat>, nat))
    requires WellFormed(elem) && (forall v <- vs :: HasType(elem, v)) && origin <= at
    ensures at <= r.1
    decreases elem, |vs|
  {
    if vs == [] then ([], at) else
    var (o, end) := Offsets(elem, vs[0], origin, at);
    var (os, end') := ElemOffsets(elem, vs[1..], origin, end);
    (o + os, end')
  }

  /** Whether writing the value writes an 8-byte primitive. */
  predicate WritesEight(ty: Ty, v: Val)
    requires WellFormed(ty) && HasType(ty, v)
  {
    match ty
    case Prim(size) => size == 8
    case Str => false
    case Msg(fields) =>
      assert HaveTypes(fields, v.vals);
      exists i :: 0 <= i < |fields| && WritesEight(fields[i], v.vals[i])
    case FixedArr(elem, _) => exists e <- v.elems :: WritesEight(elem, e)
    case VarArr(elem) => exists e <- v.elems :: WritesEight(elem, e)
  }

  /** The two countings, 0 and 4, agree on a list of offsets, or disagree already on it. */
  predicate AgreeUnless(eight: bool, a: (seq<nat>, nat), b: (seq<nat>, nat)) {
    && |a.0| == |b.0|
    && (!eight ==> a == b)
    && (eight ==> a.0 != b.0)
  }

  lemma FourEarlier(at: nat)
    requires at >= 4
    ensures (at - 4) % 8 == if at % 8 >= 4 then at % 8 - 4 else at % 8 + 4
  {
    var q, m := at / 8, at % 8;
    if m >= 4 { EightTimes(q, m - 4); } else { EightTimes(q - 1, m + 4); }
  }

  lemma RemFourEarlier(at: nat, size: nat)
    requires IsSize(size) && at >= 4
    ensures size < 8 ==> Rem(at - 4, size) == Rem(at, size)
    ensures size == 8 ==> Rem(at - 4, size) == if Rem(at, size) >= 4 then Rem(at, size) - 4 else Rem(at, size) + 4
  {
    FourEarlier(at);
  }

  lemma OffsetOfAgrees(size: nat, at: nat)
    requires IsSize(size) && at >= 4
    ensures AgreeUnless(size == 8, OffsetOf(size, 0, at), OffsetOf(size, 4, at))
  {
    hide Rem;
    RemFourEarlier(at, size);
    var p, q := at + Pad(at, size), at + Pad(at - 4, size);
    if size == 8 {
      assert p != q;
      assert [p][0] == p && [q][0] == q;
    }
  }

  lemma JoinAgrees(e1: bool, a1: (seq<nat>, nat), b1: (seq<nat>, nat),
                   e2: bool, a2: (seq<nat>, nat), b2: (seq<nat>, nat))
    requires AgreeUnless(e1, a1, b1) && |a2.0| == |b2.0| && (!e1 ==> AgreeUnless(e2, a2, b2))
    ensures AgreeUnless(e1 || e2, (a1.0 + a2.0, a2.1), (b1.0 + b2.0, b2.1))
  {
    var a, b := a1.0 + a2.0, b1.0 + b2.0;
    assert a[..|a1.0|] == a1.0 && a[|a1.0|..] == a2.0;
    assert b[..|b1.0|] == b1.0 && b[|b1.0|..] == b2.0;
  }

  lemma {:induction false} OffsetCount(ty: Ty, v: Val, at: nat, at': nat)
    requires WellFormed(ty) && HasType(ty, v) && 4 <= at && 4 <= at'
    ensures |Offsets(ty, v, 0, at).0| == |Offsets(ty, v, 4, at').0|
    decreases ty, 0
  {
    hide HasVarArr, Pad;
    match ty {
      case Prim(_) =>
      case Str =>
      case Msg(fields) => FieldOffsetCount(fields, v.vals, at, at');
      case FixedArr(elem, _) => ElemOffsetCount(elem, v.elems, at, at');
      case VarArr(elem) => ElemOffsetCount(elem, v.elems, OffsetOf(4, 0, at).1, OffsetOf(4, 4, at').1);
    }
  }

  lemma {:induction false} FieldOffsetCount(tys: seq<Ty>, vs: seq<Val>, at: nat, at': nat)
    requires (forall t <- tys :: WellFormed(t)) && HaveTypes(tys, vs) && 4 <= at && 4 <= at'
    ensures |FieldOffsets(tys, vs, 0, at).0| == |FieldOffsets(tys, vs, 4, at').0|
    decreases tys
  {
    hide Offsets, WellFormed, HasType;
    if tys != [] {
      OffsetCount(tys[0], vs[0], at, at');
      FieldOffsetCount(tys[1..], vs[1..], Offsets(tys[0], vs[0], 0, at).1, Offsets(tys[0], vs[0], 4, at').1);
    }
  }

  lemma {:induction false} ElemOffsetCount(elem: Ty, vs: seq<Val>, at: nat, at': nat)
    requires WellFormed(elem) && (forall v <- vs :: HasType(elem, v)) && 4 <= at && 4 <= at'
    ensures |ElemOffsets(elem, vs, 0, at).0| == |ElemOffsets(elem, vs, 4, at').0|
    decreases elem, |vs|
  {
    hide Offsets, WellFormed, HasType;
    if vs != [] {
      OffsetCount(elem, vs[0], at, at');
      ElemOffsetCount(elem, vs[1..], Offsets(elem, vs[0], 0, at).1, Offsets(elem, vs[0], 4, at').1);
    }
  }

  /** Behind the header, Micro-CDR puts every field where CDR puts it if, and only if, the value
      writes no 8-byte primitive. */
  lemma {:induction false} LayoutAgrees(ty: Ty, v: Val, at: nat)
    requires WellFormed(ty) && HasType(ty, v) && at >= 4
    ensures AgreeUnless(WritesEight(ty, v), Offsets(ty, v, 0, at), Offsets(ty, v, 4, at))
    decreases ty, 0
  {
    hide HasVarArr, OffsetOf, AgreeUnless;
    match ty {
      case Prim(size) => OffsetOfAgrees(size, at);
      case Str =>
        OffsetOfAgrees(4, at);
        AgreeAside(OffsetOf(4, 0, at), OffsetOf(4, 4, at));
        AgreeRefl(Offsets(ty, v, 0, at));
      case Msg(fields) => FieldLayoutAgrees(fields, v.vals, at);
      case FixedArr(elem, _) => ElemLayoutAgrees(elem, v.elems, at);
      case VarArr(elem) =>
        var a, b := OffsetOf(4, 0, at), OffsetOf(4, 4, at);
        OffsetOfAgrees(4, at);
        AgreeAside(a, b);
        OffsetOfGrows(4, 0, at);
        ElemLayoutAgrees(elem, v.elems, a.1);
        var e := exists e <- v.elems :: WritesEight(elem, e);
        AgreeSizes(e, ElemOffsets(elem, v.elems, 0, a.1), ElemOffsets(elem, v.elems, 4, b.1));
        JoinAgrees(false, a, b, e, ElemOffsets(elem, v.elems, 0, a.1), ElemOffsets(elem, v.elems, 4, b.1));
    }
  }

  lemma AgreeAside(a: (seq<nat>, nat), b: (seq<nat>, nat))
    requires AgreeUnless(false, a, b)
    ensures a == b
  {
  }

  lemma AgreeRefl(a: (seq<nat>, nat))
    ensures AgreeUnless(false, a, a)
  {
  }

  lemma AgreeSizes(e: bool, a: (seq<nat>, nat), b: (seq<nat>, nat))
    requires AgreeUnless(e, a, b)
    ensures |a.0| == |b.0|
  {
  }

  lemma OffsetOfGrows(size: nat, origin: nat, at: nat)
    requires IsSize(size) && origin <= at
    ensures OffsetOf(size, origin, at).1 >= at
  {
  }

  lemma {:induction false} FieldLayoutAgrees(tys: seq<Ty>, vs: seq<Val>, at: nat)
    requires (forall t <- tys :: WellFormed(t)) && HaveTypes(tys, vs) && at >= 4
    ensures AgreeUnless(exists i :: 0 <= i < |tys| && WritesEight(tys[i], vs[i]),
                        FieldOffsets(tys, vs, 0, at), FieldOffsets(tys, vs, 4, at))
    decreases tys
  {
    hide Offsets, WellFormed, HasType, WritesEight, AgreeUnless;
    if tys == [] {
      AgreeRefl(FieldOffsets(tys, vs, 0, at));
    } else {
      var a, b := Offsets(tys[0], vs[0], 0, at), Offsets(tys[0], vs[0], 4, at);
      var ts, us := tys[1..], vs[1..];
      var e1 := WritesEight(tys[0], vs[0]);
      var e2 := exists i :: 0 <= i < |ts| && WritesEight(ts[i], us[i]);
      LayoutAgrees(tys[0], vs[0], at);
      FieldOffsetCount(ts, us, a.1, b.1);
      if !e1 {
        AgreeAside(a, b);
        FieldLayoutAgrees(ts, us, a.1);
      }
      JoinAgrees(e1, a, b, e2, FieldOffsets(ts, us, 0, a.1), FieldOffsets(ts, us, 4, b.1));
      assert (e1 || e2) == exists i :: 0 <= i < |tys| && WritesEight(tys[i], vs[i]) by {
        if e2 {
          var i :| 0 <= i < |ts| && WritesEight(ts[i], us[i]);
          assert WritesEight(tys[i + 1], vs[i + 1]);
        }
        if i :| 0 <= i < |tys| && WritesEight(tys[i], vs[i]) {
          assert i > 0 ==> WritesEight(ts[i - 1], us[i - 1]);
        }
      }
    }
  }

  lemma {:induction false} ElemLayoutAgrees(elem: Ty, vs: seq<Val>, at: nat)
    requires WellFormed(elem) && (forall v <- vs :: HasType(elem, v)) && at >= 4
    ensures AgreeUnless(exists e <- vs :: WritesEight(elem, e),
                        ElemOffsets(elem, vs, 0, at), ElemOffsets(elem, vs, 4, at))
    decreases elem, |vs|
  {
    hide Offsets, WellFormed, HasType, WritesEight, AgreeUnless;
    if vs == [] {
      AgreeRefl(ElemOffsets(elem, vs, 0, at));
    } else {
      var a, b := Offsets(elem, vs[0], 0, at), Offsets(elem, vs[0], 4, at);
      var us := vs[1..];
      var e1 := WritesEight(elem, vs[0]);
      var e2 := exists e <- us :: WritesEight(elem, e);
      LayoutAgrees(elem, vs[0], at);
      ElemOffsetCount(elem, us, a.1, b.1);
      if !e1 {
        AgreeAside(a, b);
        ElemLayoutAgrees(elem, us, a.1);
      }
      JoinAgrees(e1, a, b, e2, ElemOffsets(elem, us, 0, a.1), ElemOffsets(elem, us, 4, b.1));
      assert (e1 || e2) == exists e <- vs :: WritesEight(elem, e) by {
        assert forall e :: e in vs <==> e == vs[0] || e in us;
      }
    }
  }

  // ---- the serializer follows the layout ----

  /** The emitted serializer leaves each value exactly where `Offsets` with origin 0 puts it: its
      offset after any value, hence after any prefix of the fields, is the end of that layout. */
  lemma {:induction false} SerFollowsLayout(ty: Ty, v: Val, order: Endianness, f: Flat)
    requires f.Valid() && WellFormed(ty) && HasType(ty, v) && !Ser(ty, v, order, f).error
    ensures Ser(ty, v, order, f).offset == Offsets(ty, v, 0, f.offset).1
    decreases ty, 0
  {
    hide HasVarArr, Put, PutString, CopyIn;
    match ty {
      case Prim(_) => PutShape(f, order, v.image);
      case Str =>
        var h := Put(f, order, LE32(|v.chars| + 1));
        PutStringIs(f, order, v.chars);
        CopyInAhead(h, v.chars + [0]);
        CopyInShape(h, v.chars + [0]);
        PutShape(f, order, LE32(|v.chars| + 1));
      case Msg(fields) => SerFieldsFollowLayout(fields, v.vals, order, f);
      case FixedArr(elem, _) => SerElemsFollowLayout(elem, v.elems, order, f);
      case VarArr(elem) =>
        var h := Put(f, order, LE32(|v.elems|));
        SerElemsAhead(elem, v.elems, order, h);
        PutShape(f, order, LE32(|v.elems|));
        SerElemsFollowLayout(elem, v.elems, order, h);
    }
  }

  lemma {:induction false} SerFieldsFollowLayout(tys: seq<Ty>, vs: seq<Val>, order: Endianness, f: Flat)
    requires f.Valid() && (forall t <- tys :: WellFormed(t)) && HaveTypes(tys, vs)
    requires !SerFields(tys, vs, order, f).error
    ensures SerFields(tys, vs, order, f).offset == FieldOffsets(tys, vs, 0, f.offset).1
    decreases tys
  {
    hide Ser, Offsets, WellFormed, HasType;
    if tys != [] {
      var g := Ser(tys[0], vs[0], order, f);
      SerFieldsAhead(tys[1..], vs[1..], order, g);
      SerFollowsLayout(tys[0], vs[0], order, f);
      SerFieldsFollowLayout(tys[1..], vs[1..], order, g);
    }
  }

  lemma {:induction false} SerElemsFollowLayout(elem: Ty, vs: seq<Val>, order: Endianness, f: Flat)
    requires f.Valid() && WellFormed(elem) && (forall v <- vs :: HasType(elem, v))
    requires !SerElems(elem, vs, order, f).error
    ensures SerElems(elem, vs, order, f).offset == ElemOffsets(elem, vs, 0, f.offset).1
    decreases elem, |vs|
  {
    hide Ser, Offsets, WellFormed, HasType;
    if vs != [] {
      var g := Ser(elem, vs[0], order, f);
      SerElemsAhead(elem, vs[1..], order, g);
      SerFollowsLayout(elem, vs[0], order, f);
      SerElemsFollowLayout(elem, vs[1..], order, g);
    }
  }

  // ---- when a value fits ----

  /** A slot of `n` bytes can be claimed if and only if the memory reaches to its end. */
  lemma PutFits(f: Flat, order: Endianness, image: seq<byte>)
    requires f.Valid() && IsSize(|image|)
    ensures !Put(f, order, image).error <==> Room(f, OffsetOf(|image|, 0, f.offset).1)
  {
    hide Pad, Wire;
  }

  /** There is room up to stream offset `end`. */
  predicate Room(f: Flat, end: nat) { !f.error && f.pos + end - f.offset <= |f.mem| }

  lemma CopyInFits(f: Flat, data: seq<byte>)
    requires f.Valid()
    ensures !CopyIn(f, data).error <==> Room(f, f.offset + |data|)
  {
  }

  /** Serialization ends without an error if and only if the layout of the value fits the memory. */
  lemma {:induction false} SerFits(ty: Ty, v: Val, order: Endianness, f: Flat)
    requires f.Valid() && WellFormed(ty) && HasType(ty, v)
    ensures !Ser(ty, v, order, f).error <==> Room(f, Offsets(ty, v, 0, f.offset).1)
    decreases ty, 0
  {
    hide HasVarArr, Put, PutString, CopyIn, OffsetOf;
    match ty {
      case Prim(_) => PutFits(f, order, v.image);
      case Str =>
        var image := LE32(|v.chars| + 1);
        var h := Put(f, order, image);
        PutStringIs(f, order, v.chars);
        PutThen(f, order, image);
        CopyInFits(h, v.chars + [0]);
        CopyInAhead(h, v.chars + [0]);
      case Msg(fields) => SerFieldsFit(fields, v.vals, order, f);
      case FixedArr(elem, _) => SerElemsFit(elem, v.elems, order, f);
      case VarArr(elem) =>
        var image := LE32(|v.elems|);
        PutThen(f, order, image);
        SerElemsAhead(elem, v.elems, order, Put(f, order, image));
        SerElemsFit(elem, v.elems, order, Put(f, order, image));
    }
  }

  lemma PutThen(f: Flat, order: Endianness, image: seq<byte>)
    requires f.Valid() && IsSize(|image|)
    ensures var r, end := Put(f, order, image), OffsetOf(|image|, 0, f.offset).1;
            && (!r.error <==> Room(f, end)) && Ahead(f, r) && f.offset <= end
            && (!r.error ==> r.offset == end && r.pos == f.pos + end - f.offset)
  {
    hide Put, Pad;
    PutFits(f, order, image);
    PutAhead(f, order, image);
    if !Put(f, order, image).error { PutShape(f, order, image); }
  }

  lemma {:induction false} SerFieldsFit(tys: seq<Ty>, vs: seq<Val>, order: Endianness, f: Flat)
    requires f.Valid() && (forall t <- tys :: WellFormed(t)) && HaveTypes(tys, vs)
    ensures !SerFields(tys, vs, order, f).error <==> Room(f, FieldOffsets(tys, vs, 0, f.offset).1)
    decreases tys
  {
    hide Ser, Offsets, WellFormed, HasType;
    if tys != [] {
      var g := Ser(tys[0], vs[0], order, f);
      SerAhead(tys[0], vs[0], order, f);
      SerFieldsAhead(tys[1..], vs[1..], order, g);
      SerFits(tys[0], vs[0], order, f);
      SerFieldsFit(tys[1..], vs[1..], order, g);
      if !g.error { SerFollowsLayout(tys[0], vs[0], order, f); }
    }
  }

  lemma {:induction false} SerElemsFit(elem: Ty, vs: seq<Val>, order: Endianness, f: Flat)
    requires f.Valid() && WellFormed(elem) && (forall v <- vs :: HasType(elem, v))
    ensures !SerElems(elem, vs, order, f).error <==> Room(f, ElemOffsets(elem, vs, 0, f.offset).1)
    decreases elem, |vs|
  {
    hide Ser, Offsets, WellFormed, HasType;
    if vs != [] {
      var g := Ser(elem, vs[0], order, f);
      SerAhead(elem, vs[0], order, f);
      SerElemsAhead(elem, vs[1..], order, g);
      SerFits(elem, vs[0], order, f);
      SerElemsFit(elem, vs[1..], order, g);
      if !g.error { SerFollowsLayout(elem, vs[0], order, f); }
    }
  }

  // ---- every primitive at its offset ----

  /** The wire bytes that belong to the offsets of `Offsets`: of each primitive, and of each string its length, its characters
      and the NUL. */
  function Pieces(ty: Ty, v: Val, order: Endianness): seq<seq<byte>>
    requires WellFormed(ty) && HasType(ty, v)
    decreases ty, 0
  {
    match ty
    case Prim(_) => [Wire(order, v.image)]
    case Str => [Wire(order, LE32(|v.chars| + 1)) + (v.chars + [0])]
    case Msg(fields) => FieldPieces(fields, v.vals, order)
    case FixedArr(elem, _) => ElemPieces(elem, v.elems, order)
    case VarArr(elem) => [Wire(order, LE32(|v.elems|))] + ElemPieces(elem, v.elems, order)
  }

  function FieldPieces(tys: seq<Ty>, vs: seq<Val>, order: Endianness): seq<seq<byte>>
    requires (forall t <- tys :: WellFormed(t)) && HaveTypes(tys, vs)
    decreases tys
  {
    if tys == [] then [] else Pieces(tys[0], vs[0], order) + FieldPieces(tys[1..], vs[1..], order)
  }

  function ElemPieces(elem: Ty, vs: seq<Val>, order: Endianness): seq<seq<byte>>
    requires WellFormed(elem) && forall v <- vs :: HasType(elem, v)
    decreases elem, |vs|
  {
    if vs == [] then [] else Pieces(elem, vs[0], order) + ElemPieces(elem, vs[1..], order)
  }

  /** Behind the position `r` there are these bytes at stream offset `at`. */
  predicate Lies(r: Flat, at: nat, bytes: seq<byte>)
    requires r.Valid()
  {
    var p := r.pos - r.offset + at;
    0 <= p && p + |bytes| <= r.pos && r.mem[p..p + |bytes|] == bytes
  }

  predicate LaidOut(r: Flat, offsets: seq<nat>, pieces: seq<seq<byte>>)
    requires r.Valid()
  {
    |offsets| == |pieces| && forall i :: 0 <= i < |offsets| ==> Lies(r, offsets[i], pieces[i])
  }

  lemma LiesStays(f: Flat, r: Flat, at: nat, bytes: seq<byte>)
    requires Ahead(f, r) && Lies(f, at, bytes)
    ensures Lies(r, at, bytes)
  {
    var p := f.pos - f.offset + at;
    assert r.mem[p..p + |bytes|] == f.mem[p..p + |bytes|];
  }

  lemma LaidOutStays(f: Flat, r: Flat, offsets: seq<nat>, pieces: seq<seq<byte>>)
    requires Ahead(f, r) && LaidOut(f, offsets, pieces)
    ensures LaidOut(r, offsets, pieces)
  {
    assert f.Valid() && r.Valid();
    hide Lies, Ahead;
    forall i | 0 <= i < |offsets| ensures Lies(r, offsets[i], pieces[i]) { LiesStays(f, r, offsets[i], pieces[i]); }
  }

  lemma LaidOutJoin(r: Flat, a: seq<nat>, x: seq<seq<byte>>, b: seq<nat>, y: seq<seq<byte>>)
    requires r.Valid() && LaidOut(r, a, x) && LaidOut(r, b, y)
    ensures LaidOut(r, a + b, x + y)
  {
    hide Lies;
  }

  lemma PutLies(f: Flat, order: Endianness, image: seq<byte>)
    requires f.Valid() && IsSize(|image|) && !Put(f, order, image).error
    ensures Lies(Put(f, order, image), OffsetOf(|image|, 0, f.offset).0[0], Wire(order, image))
  {
    hide Put, Wire, Pad;
    PutShape(f, order, image);
  }

  /** Two blocks one behind the other. */
  lemma LiesJoin(f: Flat, at: nat, head: seq<byte>, data: seq<byte>)
    requires f.Valid() && !f.error && !CopyIn(f, data).error && Lies(f, at, head) && at + |head| == f.offset
    ensures Lies(CopyIn(f, data), at, head + data)
  {
    hide Overwrite;
    CopyInShape(f, data);
    CopyInAhead(f, data);
    LiesStays(f, CopyIn(f, data), at, head);
    var r := CopyIn(f, data);
    var p := r.pos - r.offset + at;
    assert r.mem[p..p + |head + data|] == r.mem[p..p + |head|] + r.mem[f.pos..r.pos];
  }

  lemma StringLies(f: Flat, order: Endianness, chars: seq<byte>)
    requires f.Valid() && |chars| + 1 < 0x1_0000_0000 && !PutString(f, order, chars).error
    ensures Lies(PutString(f, order, chars), OffsetOf(4, 0, f.offset).0[0], Wire(order, LE32(|chars| + 1)) + (chars + [0]))
  {
    hide Put, CopyIn, PutString, Wire, LE32, Lies;
    var image := LE32(|chars| + 1);
    var h := Put(f, order, image);
    PutStringIs(f, order, chars);
    CopyInAhead(h, chars + [0]);
    PutLies(f, order, image);
    PutShape(f, order, image);
    LiesJoin(h, OffsetOf(4, 0, f.offset).0[0], Wire(order, image), chars + [0]);
  }

  lemma OneLies(r: Flat, at: nat, bytes: seq<byte>)
    requires r.Valid() && Lies(r, at, bytes)
    ensures LaidOut(r, [at], [bytes])
  {
    hide Lies;
  }

  /** The emitted serializer puts the wire bytes of every primitive, and of every string, exactly where the layout has it. */
  lemma {:induction false} SerLaysOut(ty: Ty, v: Val, order: Endianness, f: Flat)
    requires f.Valid() && WellFormed(ty) && HasType(ty, v) && !Ser(ty, v, order, f).error
    ensures LaidOut(Ser(ty, v, order, f), Offsets(ty, v, 0, f.offset).0, Pieces(ty, v, order))
    decreases ty, 0
  {
    hide HasVarArr, Put, PutString, CopyIn, OffsetOf, Lies, LaidOut, Wire, LE32;
    var r := Ser(ty, v, order, f);
    match ty {
      case Prim(size) =>
        OneOffset(size, f.offset);
        PutLies(f, order, v.image);
        OneLies(r, OffsetOf(size, 0, f.offset).0[0], Wire(order, v.image));
      case Str =>
        OneOffset(4, f.offset);
        StringLies(f, order, v.chars);
        OneLies(r, OffsetOf(4, 0, f.offset).0[0], Wire(order, LE32(|v.chars| + 1)) + (v.chars + [0]));
      case Msg(fields) => SerFieldsLayOut(fields, v.vals, order, f);
      case FixedArr(elem, _) => SerElemsLayOut(elem, v.elems, order, f);
      case VarArr(elem) =>
        var image := LE32(|v.elems|);
        var h := Put(f, order, image);
        PutThen(f, order, image);
        SerElemsAhead(elem, v.elems, order, h);
        NoErrorBefore(h, r);
        OneOffset(4, f.offset);
        PutLies(f, order, image);
        OneLies(h, OffsetOf(4, 0, f.offset).0[0], Wire(order, image));
        LaidOutStays(h, r, OffsetOf(4, 0, f.offset).0, [Wire(order, image)]);
        SerElemsLayOut(elem, v.elems, order, h);
        LaidOutJoin(r, OffsetOf(4, 0, f.offset).0, [Wire(order, image)],
                    ElemOffsets(elem, v.elems, 0, h.offset).0, ElemPieces(elem, v.elems, order));
    }
  }

  lemma OneOffset(size: nat, at: nat)
    requires IsSize(size)
    ensures var o := OffsetOf(size, 0, at).0; o == [o[0]]
  {
  }

  lemma NoErrorBefore(f: Flat, r: Flat)
    requires Ahead(f, r) && !r.error
    ensures !f.error
  {
  }

  lemma {:induction false} SerFieldsLayOut(tys: seq<Ty>, vs: seq<Val>, order: Endianness, f: Flat)
    requires f.Valid() && (forall t <- tys :: WellFormed(t)) && HaveTypes(tys, vs)
    requires !SerFields(tys, vs, order, f).error
    ensures LaidOut(SerFields(tys, vs, order, f), FieldOffsets(tys, vs, 0, f.offset).0, FieldPieces(tys, vs, order))
    decreases tys
  {
    hide Ser, Offsets, Pieces, WellFormed, HasType, LaidOut, Ahead;
    if tys == [] {
      NothingLaidOut(f);
    } else {
      var g, r := Ser(tys[0], vs[0], order, f), SerFields(tys, vs, order, f);
      SerFieldsAhead(tys[1..], vs[1..], order, g);
      NoErrorBefore(g, r);
      SerFollowsLayout(tys[0], vs[0], order, f);
      SerLaysOut(tys[0], vs[0], order, f);
      var o, x := Offsets(tys[0], vs[0], 0, f.offset).0, Pieces(tys[0], vs[0], order);
      LaidOutStays(g, r, o, x);
      SerFieldsLayOut(tys[1..], vs[1..], order, g);
      LaidOutJoin(r, o, x, FieldOffsets(tys[1..], vs[1..], 0, g.offset).0, FieldPieces(tys[1..], vs[1..], order));
    }
  }

  lemma NothingLaidOut(f: Flat)
    requires f.Valid()
    ensures LaidOut(f, [], [])
  {
  }

  lemma {:induction false} SerElemsLayOut(elem: Ty, vs: seq<Val>, order: Endianness, f: Flat)
    requires f.Valid() && WellFormed(elem) && (forall v <- vs :: HasType(elem, v))
    requires !SerElems(elem, vs, order, f).error
    ensures LaidOut(SerElems(elem, vs, order, f), ElemOffsets(elem, vs, 0, f.offset).0, ElemPieces(elem, vs, order))
    decreases elem, |vs|
  {
    hide Ser, Offsets, Pieces, WellFormed, HasType, LaidOut, Ahead;
    if vs == [] {
      NothingLaidOut(f);
    } else {
      var g, r := Ser(elem, vs[0], order, f), SerElems(elem, vs, order, f);
      SerElemsAhead(elem, vs[1..], order, g);
      NoErrorBefore(g, r);
      SerFollowsLayout(elem, vs[0], order, f);
      SerLaysOut(elem, vs[0], order, f);
      var o, x := Offsets(elem, vs[0], 0, f.offset).0, Pieces(elem, vs[0], order);
      LaidOutStays(g, r, o, x);
      SerElemsLayOut(elem, vs[1..], order, g);
      LaidOutJoin(r, o, x, ElemOffsets(elem, vs[1..], 0, g.offset).0, ElemPieces(elem, vs[1..], order));
    }
  }

  // ---- in machine order, byte for byte ----

  /** The bytes at the offsets of a value in the order of the little-endian machine: of each primitive its memory image, of each
      string and variable array its length as four bytes, and the characters with their NUL. */
  function PlainPieces(ty: Ty, v: Val): seq<seq<byte>>
    requires WellFormed(ty) && HasType(ty, v)
    decreases ty, 0
  {
    match ty
    case Prim(_) => [v.image]
    case Str => [LE32(|v.chars| + 1) + (v.chars + [0])]
    case Msg(fields) => PlainFieldPieces(fields, v.vals)
    case FixedArr(elem, _) => PlainElemPieces(elem, v.elems)
    case VarArr(elem) => [LE32(|v.elems|)] + PlainElemPieces(elem, v.elems)
  }

  function PlainFieldPieces(tys: seq<Ty>, vs: seq<Val>): seq<seq<byte>>
    requires (forall t <- tys :: WellFormed(t)) && HaveTypes(tys, vs)
    decreases tys
  {
    if tys == [] then [] else PlainPieces(tys[0], vs[0]) + PlainFieldPieces(tys[1..], vs[1..])
  }

  function PlainElemPieces(elem: Ty, vs: seq<Val>): seq<seq<byte>>
    requires WellFormed(elem) && forall v <- vs :: HasType(elem, v)
    decreases elem, |vs|
  {
    if vs == [] then [] else PlainPieces(elem, vs[0]) + PlainElemPieces(elem, vs[1..])
  }

  lemma {:induction false} PiecesArePlain(ty: Ty, v: Val)
    requires WellFormed(ty) && HasType(ty, v)
    ensures Pieces(ty, v, LittleEndian) == PlainPieces(ty, v)
    decreases ty, 0
  {
    hide Wire, LE32, HasVarArr;
    match ty {
      case Prim(_) => WireIs(v.image);
      case Str => WireIs(LE32(|v.chars| + 1));
      case Msg(fields) => FieldPiecesArePlain(fields, v.vals);
      case FixedArr(elem, _) => ElemPiecesArePlain(elem, v.elems);
      case VarArr(elem) =>
        WireIs(LE32(|v.elems|));
        ElemPiecesArePlain(elem, v.elems);
    }
  }

  lemma {:induction false} FieldPiecesArePlain(tys: seq<Ty>, vs: seq<Val>)
    requires (forall t <- tys :: WellFormed(t)) && HaveTypes(tys, vs)
    ensures FieldPieces(tys, vs, LittleEndian) == PlainFieldPieces(tys, vs)
    decreases tys
  {
    hide Pieces, PlainPieces, WellFormed, HasType;
    if tys != [] {
      PiecesArePlain(tys[0], vs[0]);
      FieldPiecesArePlain(tys[1..], vs[1..]);
    }
  }

  lemma {:induction false} ElemPiecesArePlain(elem: Ty, vs: seq<Val>)
    requires WellFormed(elem) && forall v <- vs :: HasType(elem, v)
    ensures ElemPieces(elem, vs, LittleEndian) == PlainElemPieces(elem, vs)
    decreases elem, |vs|
  {
    hide Pieces, PlainPieces, WellFormed, HasType;
    if vs != [] {
      PiecesArePlain(elem, vs[0]);
      ElemPiecesArePlain(elem, vs[1..]);
    }
  }

  /** In machine order the memory image of every primitive lies, unchanged, exactly at its offset. */
  lemma SerLaysOutPlainly(ty: Ty, v: Val, f: Flat)
    requires f.Valid() && WellFormed(ty) && HasType(ty, v) && !Ser(ty, v, LittleEndian, f).error
    ensures LaidOut(Ser(ty, v, LittleEndian, f), Offsets(ty, v, 0, f.offset).0, PlainPieces(ty, v))
  {
    hide Ser, Offsets, Pieces, PlainPieces, LaidOut, WellFormed, HasType;
    SerLaysOut(ty, v, LittleEndian, f);
    PiecesArePlain(ty, v);
  }

  /** The four bytes of a count, as a number. */
  predicate Counts(s: seq<byte>, n: nat) {
    |s| == 4 && s[0] as int + 0x100 * s[1] as int + 0x1_0000 * s[2] as int + 0x100_0000 * s[3] as int == n
  }

  lemma PlainCount(n: nat)
    requires n < 0x1_0000_0000
    ensures Counts(LE32(n), n)
  {
  }

  /** In front of a variable array lies its number of elements. */
  lemma ArrayCountLies(elem: Ty, vs: seq<Val>, f: Flat)
    requires f.Valid() && WellFormed(VarArr(elem)) && HasType(VarArr(elem), VArr(vs))
    requires !Ser(VarArr(elem), VArr(vs), LittleEndian, f).error
    ensures var r, p := Ser(VarArr(elem), VArr(vs), LittleEndian, f), f.pos + Pad(f.offset, 4);
            p + 4 <= r.pos && Counts(r.mem[p..p + 4], |vs|)
  {
    hide Put, Wire, LE32, Pad, Ahead, WellFormed, HasType, Ser;
    VarArrParts(elem, vs, f);
    var image := LE32(|vs|);
    var h, r := Put(f, LittleEndian, image), Ser(VarArr(elem), VArr(vs), LittleEndian, f);
    SerElemsAhead(elem, vs, LittleEndian, h);
    NoErrorBefore(h, r);
    PutShape(f, LittleEndian, image);
    WireIs(image);
    PlainCount(|vs|);
    AheadKeeps(h, r, h.pos - 4, h.pos);
  }

  lemma VarArrParts(elem: Ty, vs: seq<Val>, f: Flat)
    requires f.Valid() && WellFormed(VarArr(elem)) && HasType(VarArr(elem), VArr(vs))
    ensures |vs| < 0x1_0000_0000 && WellFormed(elem) && forall v <- vs :: HasType(elem, v)
    ensures Ser(VarArr(elem), VArr(vs), LittleEndian, f) == SerElems(elem, vs, LittleEndian, Put(f, LittleEndian, LE32(|vs|)))
  {
    hide Put, LE32, SerElems;
  }

  lemma AheadKeeps(f: Flat, r: Flat, lo: nat, hi: nat)
    requires Ahead(f, r) && lo <= hi <= f.pos
    ensures hi <= r.pos <= |r.mem| && f.pos <= |f.mem| && r.mem[lo..hi] == f.mem[lo..hi]
  {
  }

  /** A string on the wire: the number of its characters and the NUL, the characters, and the NUL. */
  lemma StringOnWire(chars: seq<byte>, f: Flat)
    requires f.Valid() && |chars| + 1 < 0x1_0000_0000 && !PutString(f, LittleEndian, chars).error
    ensures var r, p, n := PutString(f, LittleEndian, chars), f.pos + Pad(f.offset, 4), |chars|;
            && r.pos == p + 4 + n + 1 && Counts(r.mem[p..p + 4], n + 1)
            && r.mem[p + 4..p + 4 + n] == chars && r.mem[p + 4 + n] == 0
  {
    hide Put, CopyIn, PutString, Wire, LE32, Pad, Ahead;
    var image, n := LE32(|chars| + 1), |chars|;
    var h, r := Put(f, LittleEndian, image), PutString(f, LittleEndian, chars);
    PutStringIs(f, LittleEndian, chars);
    CopyInAhead(h, chars + [0]);
    NoErrorBefore(h, r);
    PutShape(f, LittleEndian, image);
    WireIs(image);
    PlainCount(|chars| + 1);
    CopyInShape(h, chars + [0]);
    AheadKeeps(h, r, h.pos - 4, h.pos);
    var s := r.mem[h.pos..r.pos];
    assert s == chars + [0] && s[..n] == chars && s[n] == 0;
  }
}
