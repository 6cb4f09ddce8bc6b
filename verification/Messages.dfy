/**
 The serializers and deserializers that make_libraries.py emits for a message definition.  A type
 tree is what the generator has after parsing a .msg file; `Ser` and `Des` are what the emitted
 cdr_serialize and cdr_deserialize do to a buffer without fragments.
 */
module Messages {
  import opened Bytes
  import opened CdrFlat
  import CdrArrays

  datatype Ty =
    | Prim(size: nat)
    | Str
    | Msg(fields: seq<Ty>)
    | FixedArr(elem: Ty, n: nat)
    | VarArr(elem: Ty)

  /** A primitive is its memory image, a string its characters without the terminating NUL. */
  datatype Val =
    | VPrim(image: seq<byte>)
    | VStr(chars: seq<byte>)
    | VMsg(vals: seq<Val>)
    | VArr(elems: seq<Val>)

  predicate HasVarArr(ty: Ty) {
    match ty
    case Prim(_) => false
    case Str => false
    case Msg(fields) => exists t <- fields :: HasVarArr(t)
    case FixedArr(elem, _) => HasVarArr(elem)
    case VarArr(_) => true
  }

  /** Array elements are no arrays.  Two shapes that the generator does not handle are left out:
      fixed arrays of strings (the emitted field name is wrong) and variable arrays whose elements
      hold variable arrays (the elements would share one inner array). */
  predicate WellFormed(ty: Ty) {
    match ty
    case Prim(size) => IsSize(size)
    case Str => true
    case Msg(fields) => forall t <- fields :: WellFormed(t)
    case FixedArr(elem, n) => (elem.Prim? || elem.Msg?) && WellFormed(elem)
    case VarArr(elem) => (elem.Prim? || elem.Str? || elem.Msg?) && WellFormed(elem) && !HasVarArr(elem)
  }

  predicate HasType(ty: Ty, v: Val) {
    match (ty, v)
    case (Prim(size), VPrim(image)) => |image| == size
    case (Str, VStr(chars)) => 0 !in chars && |chars| + 1 < 0x1_0000_0000
    case (Msg(fields), VMsg(vals)) => HaveTypes(fields, vals)
    case (FixedArr(elem, n), VArr(elems)) => |elems| == n && forall e <- elems :: HasType(elem, e)
    case (VarArr(elem), VArr(elems)) => |elems| < 0x1_0000_0000 && forall e <- elems :: HasType(elem, e)
    case _ => false
  }

  predicate HaveTypes(tys: seq<Ty>, vs: seq<Val>) {
    |tys| == |vs| && forall i :: 0 <= i < |tys| ==> HasType(tys[i], vs[i])
  }

  // ---- the emitted serializer ----

  function Singles(s: seq<byte>): (r: seq<seq<byte>>)
    ensures |r| == |s| && forall e <- r :: |e| == 1
  {
    if s == [] then [] else [[s[0]]] + Singles(s[1..])
  }

  lemma {:induction false} FlattenSingles(s: seq<byte>)
    ensures Flatten(Singles(s)) == s
  {
    if s != [] {
      FlattenSingles(s[1..]);
      assert Singles(s)[1..] == Singles(s[1..]);
    }
  }

  /** ucdr_serialize_string: the characters and the NUL as a sequence of char. */
  function PutString(f: Flat, order: Endianness, chars: seq<byte>): (r: Flat)
    requires f.Valid() && |chars| + 1 < 0x1_0000_0000
    ensures r.Valid() && |r.mem| == |f.mem|
  {
    PutSequence(f, order, 1, Singles(chars + [0]))
  }

  lemma PutStringIs(f: Flat, order: Endianness, chars: seq<byte>)
    requires f.Valid() && |chars| + 1 < 0x1_0000_0000
    ensures PutString(f, order, chars) == CopyIn(Put(f, order, LE32(|chars| + 1)), chars + [0])
  {
    hide Put, CopyIn;
    FlattenSingles(chars + [0]);
  }

  function Ser(ty: Ty, v: Val, order: Endianness, f: Flat): (r: Flat)
    requires f.Valid() && WellFormed(ty) && HasType(ty, v)
    ensures r.Valid() && |r.mem| == |f.mem|
    decreases ty, 0
  {
    match ty
    case Prim(_) => Put(f, order, v.image)
    case Str => PutString(f, order, v.chars)
    case Msg(fields) => SerFields(fields, v.vals, order, f)
    case FixedArr(elem, _) => SerElems(elem, v.elems, order, f)
    case VarArr(elem) => SerElems(elem, v.elems, order, Put(f, order, LE32(|v.elems|)))
  }

  function SerFields(tys: seq<Ty>, vs: seq<Val>, order: Endianness, f: Flat): (r: Flat)
    requires f.Valid() && (forall t <- tys :: WellFormed(t)) && HaveTypes(tys, vs)
    ensures r.Valid() && |r.mem| == |f.mem|
    decreases tys
  {
    if tys == [] then f else SerFields(tys[1..], vs[1..], order, Ser(tys[0], vs[0], order, f))
  }

  function SerElems(elem: Ty, vs: seq<Val>, order: Endianness, f: Flat): (r: Flat)
    requires f.Valid() && WellFormed(elem) && forall v <- vs :: HasType(elem, v)
    ensures r.Valid() && |r.mem| == |f.mem|
    decreases elem, |vs|
  {
    if vs == [] then f else SerElems(elem, vs[1..], order, Ser(elem, vs[0], order, f))
  }

  // ---- the emitted deserializer ----

  /** Where the buffer stands, the value read, and whether the emitted function is still running:
      `ok` is false once it has returned false.  An empty image is a field that was not assigned. */
  datatype Read = Read(f: Flat, v: Val, ok: bool)

  datatype Reads = Reads(f: Flat, vs: seq<Val>, ok: bool)

  /** The C string that starts a block of bytes. */
  function UpToNul(s: seq<byte>): seq<byte> {
    if s == [] || s[0] == 0 then [] else [s[0]] + UpToNul(s[1..])
  }

  /** The string keeps pointing into the buffer.  A length of zero, or one beyond the end of the
      buffer, would make the emitted code look outside it; the model stops there. */
  function DesString(order: Endianness, f: Flat): (r: Read)
    requires f.Valid()
    ensures r.f.Valid() && r.f.mem == f.mem
  {
    var (g, image) := Get(f, order, 4);
    if g.error then Read(g, VStr([]), false) else
    var n := FromLE32(image);
    if n == 0 || g.pos + n > |g.mem| || g.mem[g.pos + n - 1] != 0 then Read(g, VStr([]), false)
    else Read(Skip(g, n), VStr(UpToNul(g.mem[g.pos..g.pos + n])), true)
  }

  function Des(ty: Ty, order: Endianness, f: Flat): (r: Read)
    requires f.Valid() && WellFormed(ty)
    ensures r.f.Valid() && r.f.mem == f.mem
    decreases ty, 0
  {
    match ty
    case Prim(size) => var (g, image) := Get(f, order, size); Read(g, VPrim(image), true)
    case Str => DesString(order, f)
    case Msg(fields) =>
      // the caller of a nested cdr_deserialize does not look at its result
      var r := DesFields(fields, order, f); Read(r.f, VMsg(r.vs), true)
    case FixedArr(elem, n) => var r := DesElems(elem, n, order, f); Read(r.f, VArr(r.vs), r.ok)
    case VarArr(elem) =>
      var (g, image) := Get(f, order, 4);
      if g.error then Read(g, VArr([]), false) else
      var r := DesElems(elem, FromLE32(image), order, g); Read(r.f, VArr(r.vs), r.ok)
  }

  /** Body of an emitted cdr_deserialize. */
  function DesFields(tys: seq<Ty>, order: Endianness, f: Flat): (r: Reads)
    requires f.Valid() && forall t <- tys :: WellFormed(t)
    ensures r.f.Valid() && r.f.mem == f.mem
    decreases tys
  {
    if tys == [] then Reads(f, [], true) else
    var a := Des(tys[0], order, f);
    if !a.ok then Reads(a.f, [a.v], false) else
    var b := DesFields(tys[1..], order, a.f);
    Reads(b.f, [a.v] + b.vs, b.ok)
  }

  function DesElems(elem: Ty, n: nat, order: Endianness, f: Flat): (r: Reads)
    requires f.Valid() && WellFormed(elem)
    ensures r.f.Valid() && r.f.mem == f.mem
    decreases elem, n
  {
    if n == 0 then Reads(f, [], true) else
    var a := Des(elem, order, f);
    if !a.ok then Reads(a.f, [a.v], false) else
    var b := DesElems(elem, n - 1, order, a.f);
    Reads(b.f, [a.v] + b.vs, b.ok)
  }

  // ---- what serialization leaves alone ----

  /** `r` lies ahead of `f`: an error stays, the position only moves on, earlier bytes are kept. */
  predicate Ahead(f: Flat, r: Flat) {
    && f.Valid() && r.Valid() && |r.mem| == |f.mem|
    && (f.error ==> r == f)
    && f.pos <= r.pos && r.pos - f.pos == r.offset - f.offset
    && forall i :: 0 <= i < f.pos ==> r.mem[i] == f.mem[i]
  }

  lemma AheadTrans(f: Flat, g: Flat, r: Flat)
    requires Ahead(f, g) && Ahead(g, r)
    ensures Ahead(f, r)
  {
  }

  lemma PutAhead(f: Flat, order: Endianness, image: seq<byte>)
    requires f.Valid() && IsSize(|image|)
    ensures Ahead(f, Put(f, order, image))
  {
    hide Pad, Wire;
  }

  lemma CopyInAhead(f: Flat, data: seq<byte>)
    requires f.Valid()
    ensures Ahead(f, CopyIn(f, data))
  {
  }

  lemma {:induction false} SerAhead(ty: Ty, v: Val, order: Endianness, f: Flat)
    requires f.Valid() && WellFormed(ty) && HasType(ty, v)
    ensures Ahead(f, Ser(ty, v, order, f))
    decreases ty, 0
  {
    hide Put, CopyIn, PutString, Ahead, HasVarArr;
    match ty {
      case Prim(_) => PutAhead(f, order, v.image);
      case Str =>
        var image := LE32(|v.chars| + 1);
        PutStringIs(f, order, v.chars);
        PutAhead(f, order, image);
        CopyInAhead(Put(f, order, image), v.chars + [0]);
        AheadTrans(f, Put(f, order, image), Ser(ty, v, order, f));
      case Msg(fields) => SerFieldsAhead(fields, v.vals, order, f);
      case FixedArr(elem, _) => SerElemsAhead(elem, v.elems, order, f);
      case VarArr(elem) =>
        var image := LE32(|v.elems|);
        PutAhead(f, order, image);
        SerElemsAhead(elem, v.elems, order, Put(f, order, image));
        AheadTrans(f, Put(f, order, image), Ser(ty, v, order, f));
    }
  }

  lemma {:induction false} SerFieldsAhead(tys: seq<Ty>, vs: seq<Val>, order: Endianness, f: Flat)
    requires f.Valid() && (forall t <- tys :: WellFormed(t)) && HaveTypes(tys, vs)
    ensures Ahead(f, SerFields(tys, vs, order, f))
    decreases tys
  {
    if tys != [] {
      hide Ahead, Ser, HasType;
      var g := Ser(tys[0], vs[0], order, f);
      SerAhead(tys[0], vs[0], order, f);
      SerFieldsAhead(tys[1..], vs[1..], order, g);
      AheadTrans(f, g, SerFields(tys, vs, order, f));
    }
  }

  lemma {:induction false} SerElemsAhead(elem: Ty, vs: seq<Val>, order: Endianness, f: Flat)
    requires f.Valid() && WellFormed(elem) && forall v <- vs :: HasType(elem, v)
    ensures Ahead(f, SerElems(elem, vs, order, f))
    decreases elem, |vs|
  {
    if vs != [] {
      hide Ahead, Ser, HasType;
      var g := Ser(elem, vs[0], order, f);
      SerAhead(elem, vs[0], order, f);
      SerElemsAhead(elem, vs[1..], order, g);
      AheadTrans(f, g, SerElems(elem, vs, order, f));
    }
  }

  // ---- round trip ----

  /** `g` reads, from where `f` started to write, the bytes that were there when `r` was done. */
  predicate ReadsBack(f: Flat, r: Flat, g: Flat) {
    && Ahead(f, r) && !r.error && g.Valid() && !g.error
    && g.pos == f.pos && g.offset == f.offset
    && r.pos <= |g.mem| && forall i :: f.pos <= i < r.pos ==> g.mem[i] == r.mem[i]
  }

  /** A reader behind the part that `r` wrote. */
  function After(g: Flat, r: Flat): Flat { g.(pos := r.pos, offset := r.offset) }

  lemma ReadsBackSplit(f: Flat, m: Flat, r: Flat, g: Flat)
    requires Ahead(f, m) && Ahead(m, r) && ReadsBack(f, r, g)
    ensures ReadsBack(f, m, g) && ReadsBack(m, r, After(g, m))
  {
  }

  lemma PutGet(f: Flat, order: Endianness, image: seq<byte>, g: Flat)
    requires f.Valid() && IsSize(|image|) && ReadsBack(f, Put(f, order, image), g)
    ensures Get(g, order, |image|) == (After(g, Put(f, order, image)), image)
  {
    hide Pad, Wire, Put, Ahead;
    var n, r := |image|, Put(f, order, image);
    PutShape(f, order, image);
    SameTail(g.mem, r.mem, f.pos, r.pos, n);
    WireInvolution(order, image);
  }

  lemma SameTail(a: seq<byte>, b: seq<byte>, lo: nat, hi: nat, n: nat)
    requires lo + n <= hi <= |a| && hi <= |b| && forall i :: lo <= i < hi ==> a[i] == b[i]
    ensures a[hi - n..hi] == b[hi - n..hi]
  {
  }

  lemma PutShape(f: Flat, order: Endianness, image: seq<byte>)
    requires f.Valid() && IsSize(|image|) && !Put(f, order, image).error
    ensures var n, r := |image|, Put(f, order, image);
            && r.pos == f.pos + Pad(f.offset, n) + n && r.offset == f.offset + Pad(f.offset, n) + n
            && r.mem[r.pos - n..r.pos] == Wire(order, image)
  {
    hide Pad, Wire;
  }

  lemma {:induction false} UpToNulOf(s: seq<byte>)
    requires 0 !in s
    ensures UpToNul(s + [0]) == s
  {
    if s != [] {
      UpToNulOf(s[1..]);
      assert (s + [0])[1..] == s[1..] + [0];
    }
  }

  lemma StringRoundTrip(order: Endianness, chars: seq<byte>, f: Flat, g: Flat)
    requires f.Valid() && 0 !in chars && |chars| + 1 < 0x1_0000_0000
    requires ReadsBack(f, PutString(f, order, chars), g)
    ensures DesString(order, g) == Read(After(g, PutString(f, order, chars)), VStr(chars), true)
  {
    hide Put, Get, Ahead, LE32, FromLE32, PutString, CopyIn, UpToNul;
    var n := |chars| + 1;
    var h, r := Put(f, order, LE32(n)), PutString(f, order, chars);
    PutStringIs(f, order, chars);
    PutAhead(f, order, LE32(n));
    CopyInAhead(h, chars + [0]);
    ReadsBackSplit(f, h, r, g);
    PutGet(f, order, LE32(n), g);
    LE32RoundTrip(n);
    CopyInShape(h, chars + [0]);
    var k := After(g, h);
    SameTail(k.mem, r.mem, k.pos, r.pos, n);
    assert k.mem[k.pos..k.pos + n] == chars + [0];
    assert k.mem[k.pos + n - 1] == k.mem[k.pos..k.pos + n][n - 1];
    UpToNulOf(chars);
  }

  lemma CopyInShape(f: Flat, data: seq<byte>)
    requires f.Valid() && !f.error && !CopyIn(f, data).error
    ensures var r := CopyIn(f, data);
            r.pos == f.pos + |data| && r.offset == f.offset + |data| && r.mem[f.pos..r.pos] == data
  {
    assert data[..|data|] == data;
  }

  /** Whatever a value serializes to without an error, the deserializer of its type reads back, from
      any buffer that holds the same bytes there, and it stops where serialization stopped. */
  lemma {:induction false} RoundTrip(ty: Ty, v: Val, order: Endianness, f: Flat, g: Flat)
    requires f.Valid() && WellFormed(ty) && HasType(ty, v)
    requires ReadsBack(f, Ser(ty, v, order, f), g)
    ensures Des(ty, order, g) == Read(After(g, Ser(ty, v, order, f)), v, true)
    decreases ty, 0
  {
    hide Put, Get, PutString, DesString, Ahead, LE32, FromLE32, HasVarArr, ReadsBack;
    match ty {
      case Prim(_) => PutGet(f, order, v.image, g);
      case Str => StringRoundTrip(order, v.chars, f, g);
      case Msg(fields) => FieldsRoundTrip(fields, v.vals, order, f, g);
      case FixedArr(elem, _) => ElemsRoundTrip(elem, v.elems, order, f, g);
      case VarArr(elem) =>
        var n := |v.elems|;
        var h, r := Put(f, order, LE32(n)), Ser(ty, v, order, f);
        PutAhead(f, order, LE32(n));
        SerElemsAhead(elem, v.elems, order, h);
        ReadsBackSplit(f, h, r, g);
        PutGet(f, order, LE32(n), g);
        LE32RoundTrip(n);
        ReadsBackClear(f, h, g);
        ElemsRoundTrip(elem, v.elems, order, h, After(g, h));
    }
  }

  lemma AfterNothing(f: Flat, g: Flat)
    requires ReadsBack(f, f, g)
    ensures After(g, f) == g
  {
  }

  lemma AfterAfter(g: Flat, m: Flat, r: Flat)
    ensures After(After(g, m), r) == After(g, r)
  {
  }

  lemma ReadsBackClear(f: Flat, r: Flat, g: Flat)
    requires ReadsBack(f, r, g)
    ensures After(g, r).Valid() && !After(g, r).error && !f.error
  {
  }

  lemma {:induction false} FieldsRoundTrip(tys: seq<Ty>, vs: seq<Val>, order: Endianness, f: Flat, g: Flat)
    requires f.Valid() && (forall t <- tys :: WellFormed(t)) && HaveTypes(tys, vs)
    requires ReadsBack(f, SerFields(tys, vs, order, f), g)
    ensures DesFields(tys, order, g) == Reads(After(g, SerFields(tys, vs, order, f)), vs, true)
    decreases tys
  {
    hide Ser, Des, Ahead, ReadsBack, HasType, WellFormed, After;
    if tys != [] {
      var m, r := Ser(tys[0], vs[0], order, f), SerFields(tys, vs, order, f);
      SerAhead(tys[0], vs[0], order, f);
      SerFieldsAhead(tys[1..], vs[1..], order, m);
      ReadsBackSplit(f, m, r, g);
      RoundTrip(tys[0], vs[0], order, f, g);
      ReadsBackClear(f, m, g);
      FieldsRoundTrip(tys[1..], vs[1..], order, m, After(g, m));
      AfterAfter(g, m, r);
      assert [vs[0]] + vs[1..] == vs;
    } else {
      AfterNothing(f, g);
      assert vs == [];
    }
  }

  lemma {:induction false} ElemsRoundTrip(elem: Ty, vs: seq<Val>, order: Endianness, f: Flat, g: Flat)
    requires f.Valid() && WellFormed(elem) && forall v <- vs :: HasType(elem, v)
    requires ReadsBack(f, SerElems(elem, vs, order, f), g)
    ensures DesElems(elem, |vs|, order, g) == Reads(After(g, SerElems(elem, vs, order, f)), vs, true)
    decreases elem, |vs|
  {
    hide Ser, Des, Ahead, ReadsBack, HasType, WellFormed, After;
    if vs != [] {
      var m, r := Ser(elem, vs[0], order, f), SerElems(elem, vs, order, f);
      SerAhead(elem, vs[0], order, f);
      SerElemsAhead(elem, vs[1..], order, m);
      ReadsBackSplit(f, m, r, g);
      RoundTrip(elem, vs[0], order, f, g);
      ReadsBackClear(f, m, g);
      ElemsRoundTrip(elem, vs[1..], order, m, After(g, m));
      AfterAfter(g, m, r);
      assert [vs[0]] + vs[1..] == vs;
    } else {
      AfterNothing(f, g);
      assert vs == [];
    }
  }

  // ---- arrays and sequences of the library ----

  lemma {:induction false} PutAllAhead(f: Flat, order: Endianness, elems: seq<seq<byte>>)
    requires f.Valid() && forall e <- elems :: IsSize(|e|)
    ensures Ahead(f, PutAll(f, order, elems))
    decreases |elems|
  {
    hide Put, Ahead;
    if elems == [] {
      AheadItself(f);
    } else {
      PutAhead(f, order, elems[0]);
      PutAllAhead(Put(f, order, elems[0]), order, elems[1..]);
      AheadTrans(f, Put(f, order, elems[0]), PutAll(f, order, elems));
    }
  }

  lemma AheadItself(f: Flat)
    requires f.Valid()
    ensures Ahead(f, f)
  {
  }

  lemma SkipAhead(f: Flat, n: nat)
    requires f.Valid()
    ensures Ahead(f, Skip(f, n))
  {
  }

  lemma {:induction false} AllRoundTrip(f: Flat, order: Endianness, size: nat, elems: seq<seq<byte>>, g: Flat)
    requires f.Valid() && IsSize(size) && (forall e <- elems :: |e| == size) && ReadsBack(f, PutAll(f, order, elems), g)
    ensures GetAll(g, order, size, |elems|) == (After(g, PutAll(f, order, elems)), Flatten(elems))
    decreases |elems|
  {
    hide Put, Get, Ahead, ReadsBack, After;
    if elems == [] {
      AfterNothing(f, g);
    } else {
      var m, r := Put(f, order, elems[0]), PutAll(f, order, elems);
      PutAhead(f, order, elems[0]);
      PutAllAhead(m, order, elems[1..]);
      ReadsBackSplit(f, m, r, g);
      PutGet(f, order, elems[0], g);
      ReadsBackClear(f, m, g);
      AllRoundTrip(m, order, size, elems[1..], After(g, m));
      AfterAfter(g, m, r);
    }
  }

  lemma BlockRoundTrip(f: Flat, data: seq<byte>, g: Flat)
    requires f.Valid() && ReadsBack(f, CopyIn(f, data), g)
    ensures CopyOut(g, |data|) == (After(g, CopyIn(f, data)), data)
  {
    hide Overwrite;
    CopyInShape(f, data);
    SameTail(g.mem, CopyIn(f, data).mem, f.pos, CopyIn(f, data).pos, |data|);
  }

  lemma SkipReadsBack(f: Flat, m: Flat, g: Flat, n: nat)
    requires f.Valid() && m == Skip(f, n) && ReadsBack(f, m, g)
    ensures Skip(g, n) == After(g, m)
  {
  }

  lemma ArrayAhead(f: Flat, order: Endianness, size: nat, elems: seq<seq<byte>>)
    requires f.Valid() && IsSize(size) && forall e <- elems :: |e| == size
    ensures var m, r := Skip(f, Pad(f.offset, size)), PutArray(f, order, size, elems); Ahead(f, m) && Ahead(m, r) && Ahead(f, r)
  {
    hide Ahead, CopyIn, PutAll, Skip, Pad;
    var m := Skip(f, Pad(f.offset, size));
    SkipAhead(f, Pad(f.offset, size));
    CopyInAhead(m, Flatten(elems));
    PutAllAhead(m, order, elems);
    AheadTrans(f, m, PutArray(f, order, size, elems));
  }

  /** An array that was stored without an error, as a block or element by element, is read back from any buffer that holds the
      same bytes there. */
  lemma ArrayRoundTrip(f: Flat, order: Endianness, size: nat, elems: seq<seq<byte>>, g: Flat)
    requires f.Valid() && IsSize(size) && (forall e <- elems :: |e| == size)
    requires ReadsBack(f, PutArray(f, order, size, elems), g)
    ensures GetArray(g, order, size, |elems|) == (After(g, PutArray(f, order, size, elems)), Flatten(elems))
  {
    CdrArrays.FlattenImages(elems, size);
    var m, r := Skip(f, Pad(f.offset, size)), PutArray(f, order, size, elems);
    ArrayAhead(f, order, size, elems);
    ReadsBackSplit(f, m, r, g);
    SameOffset(f, r, g);
    SkipReadsBack(f, m, g, Pad(f.offset, size));
    hide Ahead, CopyIn, CopyOut, PutAll, GetAll, Skip, Pad, ReadsBack, After;
    AfterAfter(g, m, r);
    if size == 1 || order == MACHINE {
      BlockRoundTrip(m, Flatten(elems), After(g, m));
    } else {
      AllRoundTrip(m, order, size, elems, After(g, m));
    }
  }

  lemma SameOffset(f: Flat, r: Flat, g: Flat)
    requires ReadsBack(f, r, g)
    ensures g.offset == f.offset
  {
  }

  /** A sequence that was stored without an error is read back, count and elements, unless it is longer than the capacity. */
  lemma SequenceRoundTrip(f: Flat, order: Endianness, size: nat, elems: seq<seq<byte>>, capacity: nat, length: nat, g: Flat)
    requires f.Valid() && IsSize(size) && (forall e <- elems :: |e| == size) && |elems| < 0x1_0000_0000
    requires |elems| <= capacity
    requires ReadsBack(f, PutSequence(f, order, size, elems), g)
    ensures GetSequence(g, order, size, capacity, length)
            == (After(g, PutSequence(f, order, size, elems)), Flatten(elems), |elems|)
  {
    hide Ahead, Put, Get, PutArray, GetArray, ReadsBack, After, LE32, FromLE32;
    var image := LE32(|elems|);
    var h, r := Put(f, order, image), PutSequence(f, order, size, elems);
    PutAhead(f, order, image);
    LE32RoundTrip(|elems|);
    if elems == [] {
      PutGet(f, order, image, g);
      ReadsBackClear(f, h, g);
    } else {
      ArrayAhead(h, order, size, elems);
      ReadsBackSplit(f, h, r, g);
      PutGet(f, order, image, g);
      ReadsBackClear(f, h, g);
      ArrayRoundTrip(h, order, size, elems, After(g, h));
      AfterAfter(g, h, r);
    }
  }
}
