/**
 The ROS side of a payload.  rclcpp reads and writes plain CDR: the encapsulation header, and then the fields with their
 alignment counted from behind it, while the device counts from its start.  The two agree on a value if and only if it
 writes no 8-byte primitive.
 */
module RosSide {
  import opened Bytes
  import opened CdrFlat
  import opened Messages
  import opened Alignment
  import opened Outbox

  // ---- the same call four bytes earlier ----

  function Back(f: Flat): Flat
    requires f.offset >= 4
  {
    f.(offset := f.offset - 4)
  }

  lemma PutBack(f: Flat, order: Endianness, image: seq<byte>)
    requires f.Valid() && f.offset >= 4 && IsSize(|image|) && |image| < 8
    ensures Put(f, order, image).offset >= 4 && Put(Back(f), order, image) == Back(Put(f, order, image))
  {
    hide Wire, Claim, Overwrite;
    ClaimBack(f, |image|);
  }

  lemma ClaimBack(f: Flat, n: nat)
    requires f.Valid() && f.offset >= 4 && IsSize(n) && n < 8
    ensures Claim(f, n).offset >= 4 && Claim(Back(f), n) == Back(Claim(f, n))
  {
    PadBack(f.offset, n);
    hide Pad;
  }

  lemma PadBack(at: nat, n: nat)
    requires at >= 4 && IsSize(n) && n < 8
    ensures Pad(at - 4, n) == Pad(at, n)
  {
    hide Rem;
    RemFourEarlier(at, n);
  }

  lemma CopyInBack(f: Flat, data: seq<byte>)
    requires f.Valid() && f.offset >= 4
    ensures CopyIn(f, data).offset >= 4 && CopyIn(Back(f), data) == Back(CopyIn(f, data))
  {
  }

  /** A value without an 8-byte primitive is serialized to the same bytes in the same places. */
  lemma {:induction false} SerBack(ty: Ty, v: Val, order: Endianness, f: Flat)
    requires f.Valid() && f.offset >= 4 && WellFormed(ty) && HasType(ty, v) && !WritesEight(ty, v)
    ensures Ser(ty, v, order, f).offset >= 4 && Ser(ty, v, order, Back(f)) == Back(Ser(ty, v, order, f))
    decreases ty, 0
  {
    hide Put, PutString, CopyIn, HasVarArr, Back;
    BackParts(f);
    match ty {
      case Prim(_) => PutBack(f, order, v.image);
      case Str =>
        var image := LE32(|v.chars| + 1);
        PutStringIs(f, order, v.chars);
        PutStringIs(Back(f), order, v.chars);
        PutBack(f, order, image);
        CopyInBack(Put(f, order, image), v.chars + [0]);
      case Msg(fields) => SerFieldsBack(fields, v.vals, order, f);
      case FixedArr(elem, _) => SerElemsBack(elem, v.elems, order, f);
      case VarArr(elem) =>
        PutBack(f, order, LE32(|v.elems|));
        SerElemsBack(elem, v.elems, order, Put(f, order, LE32(|v.elems|)));
    }
  }

  lemma BackParts(f: Flat)
    requires f.offset >= 4
    ensures Back(f).Valid() <==> f.Valid()
  {
  }

  lemma {:induction false} SerFieldsBack(tys: seq<Ty>, vs: seq<Val>, order: Endianness, f: Flat)
    requires f.Valid() && f.offset >= 4 && (forall t <- tys :: WellFormed(t)) && HaveTypes(tys, vs)
    requires forall i :: 0 <= i < |tys| ==> !WritesEight(tys[i], vs[i])
    ensures SerFields(tys, vs, order, f).offset >= 4
    ensures Back(f).Valid() && SerFields(tys, vs, order, Back(f)) == Back(SerFields(tys, vs, order, f))
    decreases tys
  {
    hide Ser, WellFormed, HasType, WritesEight, Back;
    BackParts(f);
    if tys != [] {
      SerBack(tys[0], vs[0], order, f);
      SerFieldsBack(tys[1..], vs[1..], order, Ser(tys[0], vs[0], order, f));
    }
  }

  lemma {:induction false} SerElemsBack(elem: Ty, vs: seq<Val>, order: Endianness, f: Flat)
    requires f.Valid() && f.offset >= 4 && WellFormed(elem) && (forall v <- vs :: HasType(elem, v))
    requires forall v <- vs :: !WritesEight(elem, v)
    ensures SerElems(elem, vs, order, f).offset >= 4
    ensures Back(f).Valid() && SerElems(elem, vs, order, Back(f)) == Back(SerElems(elem, vs, order, f))
    decreases elem, |vs|
  {
    hide Ser, WellFormed, HasType, WritesEight, Back;
    BackParts(f);
    if vs != [] {
      SerBack(elem, vs[0], order, f);
      SerElemsBack(elem, vs[1..], order, Ser(elem, vs[0], order, f));
    }
  }

  // ---- how long a value is, from one offset and from another ----

  function End(ty: Ty, v: Val, at: nat): nat
    requires WellFormed(ty) && HasType(ty, v)
  {
    Offsets(ty, v, 0, at).1
  }

  /** The ends of a value laid out from `at` and from `at - 4`: four apart, unless an 8-byte primitive has moved one of
      them by a whole 8 bytes. */
  predicate Apart(eight: bool, end: nat, earlier: nat) {
    if eight then end == earlier || end == earlier + 8 else end == earlier + 4
  }

  lemma OffsetOfRepeats(size: nat, at: nat)
    requires IsSize(size)
    ensures OffsetOf(size, 0, at + 8).1 == OffsetOf(size, 0, at).1 + 8
  {
    hide Rem;
    RemEightLater(at, size);
  }

  lemma RemEightLater(at: nat, size: nat)
    requires IsSize(size)
    ensures Rem(at + 8, size) == Rem(at, size)
  {
    EightTimes(at / 8 + 1, at % 8);
  }

  lemma OffsetOfApart(size: nat, at: nat)
    requires IsSize(size) && at >= 4
    ensures Apart(size == 8, OffsetOf(size, 0, at).1, OffsetOf(size, 0, at - 4).1)
  {
    hide Rem;
    RemFourEarlier(at, size);
  }

  lemma {:induction false} EndRepeats(ty: Ty, v: Val, at: nat)
    requires WellFormed(ty) && HasType(ty, v)
    ensures Offsets(ty, v, 0, at + 8).1 == Offsets(ty, v, 0, at).1 + 8
    decreases ty, 0
  {
    hide OffsetOf, HasVarArr;
    match ty {
      case Prim(size) => OffsetOfRepeats(size, at);
      case Str => OffsetOfRepeats(4, at);
      case Msg(fields) => FieldsEndRepeats(fields, v.vals, at);
      case FixedArr(elem, _) => ElemsEndRepeats(elem, v.elems, at);
      case VarArr(elem) =>
        OffsetOfRepeats(4, at);
        ElemsEndRepeats(elem, v.elems, OffsetOf(4, 0, at).1);
    }
  }

  lemma {:induction false} FieldsEndRepeats(tys: seq<Ty>, vs: seq<Val>, at: nat)
    requires (forall t <- tys :: WellFormed(t)) && HaveTypes(tys, vs)
    ensures FieldOffsets(tys, vs, 0, at + 8).1 == FieldOffsets(tys, vs, 0, at).1 + 8
    decreases tys
  {
    hide Offsets, WellFormed, HasType;
    if tys != [] {
      EndRepeats(tys[0], vs[0], at);
      FieldsEndRepeats(tys[1..], vs[1..], Offsets(tys[0], vs[0], 0, at).1);
    }
  }

  lemma {:induction false} ElemsEndRepeats(elem: Ty, vs: seq<Val>, at: nat)
    requires WellFormed(elem) && forall v <- vs :: HasType(elem, v)
    ensures ElemOffsets(elem, vs, 0, at + 8).1 == ElemOffsets(elem, vs, 0, at).1 + 8
    decreases elem, |vs|
  {
    hide Offsets, WellFormed, HasType;
    if vs != [] {
      EndRepeats(elem, vs[0], at);
      ElemsEndRepeats(elem, vs[1..], Offsets(elem, vs[0], 0, at).1);
    }
  }

  lemma {:induction false} EndsApart(ty: Ty, v: Val, at: nat)
    requires WellFormed(ty) && HasType(ty, v) && at >= 4
    ensures Apart(WritesEight(ty, v), Offsets(ty, v, 0, at).1, Offsets(ty, v, 0, at - 4).1)
    decreases ty, 0
  {
    hide OffsetOf, HasVarArr;
    match ty {
      case Prim(size) => OffsetOfApart(size, at);
      case Str => OffsetOfApart(4, at);
      case Msg(fields) => FieldsEndApart(fields, v.vals, at);
      case FixedArr(elem, _) => ElemsEndApart(elem, v.elems, at);
      case VarArr(elem) =>
        OffsetOfApart(4, at);
        OffsetOfGrows(4, 0, at);
        ElemsEndApart(elem, v.elems, OffsetOf(4, 0, at).1);
    }
  }

  lemma {:induction false} FieldsEndApart(tys: seq<Ty>, vs: seq<Val>, at: nat)
    requires (forall t <- tys :: WellFormed(t)) && HaveTypes(tys, vs) && at >= 4
    ensures Apart(exists i :: 0 <= i < |tys| && WritesEight(tys[i], vs[i]),
                  FieldOffsets(tys, vs, 0, at).1, FieldOffsets(tys, vs, 0, at - 4).1)
    decreases tys
  {
    hide Offsets, WellFormed, HasType, WritesEight;
    if tys != [] {
      var a, b := Offsets(tys[0], vs[0], 0, at).1, Offsets(tys[0], vs[0], 0, at - 4).1;
      var ts, us := tys[1..], vs[1..];
      EndsApart(tys[0], vs[0], at);
      if WritesEight(tys[0], vs[0]) {
        if a != b { FieldsEndRepeats(ts, us, b); }
      } else {
        FieldsEndApart(ts, us, a);
        assert (exists i :: 0 <= i < |ts| && WritesEight(ts[i], us[i]))
            == (exists i :: 0 <= i < |tys| && WritesEight(tys[i], vs[i])) by {
          if i :| 0 <= i < |ts| && WritesEight(ts[i], us[i]) { assert WritesEight(tys[i + 1], vs[i + 1]); }
          if i :| 0 <= i < |tys| && WritesEight(tys[i], vs[i]) { assert WritesEight(ts[i - 1], us[i - 1]); }
        }
      }
    }
  }

  lemma {:induction false} ElemsEndApart(elem: Ty, vs: seq<Val>, at: nat)
    requires WellFormed(elem) && (forall v <- vs :: HasType(elem, v)) && at >= 4
    ensures Apart(exists e <- vs :: WritesEight(elem, e),
                  ElemOffsets(elem, vs, 0, at).1, ElemOffsets(elem, vs, 0, at - 4).1)
    decreases elem, |vs|
  {
    hide Offsets, WellFormed, HasType, WritesEight;
    if vs != [] {
      var a, b := Offsets(elem, vs[0], 0, at).1, Offsets(elem, vs[0], 0, at - 4).1;
      var us := vs[1..];
      EndsApart(elem, vs[0], at);
      assert forall e :: e in vs <==> e == vs[0] || e in us;
      if WritesEight(elem, vs[0]) {
        if a != b { ElemsEndRepeats(elem, us, b); }
      } else {
        ElemsEndApart(elem, us, a);
      }
    }
  }

  // ---- writing ----

  /** What rclcpp serializes a value to, in a buffer that held `mem` before. */
  function RosEncoded(mem: seq<byte>, ty: Ty, v: Val): (r: Flat)
    requires WellFormed(ty) && HasType(ty, v) && |mem| >= 4
    ensures r.Valid() && |r.mem| == |mem|
  {
    Ser(ty, v, MACHINE, Flat(HEADER + mem[4..], 4, 0, false))
  }

  lemma RosStart(mem: seq<byte>)
    requires |mem| >= 4
    ensures var h := SerHeader(MACHINE, Flat(mem, 0, 0, false));
            h.Valid() && h.offset == 4 && Back(h) == Flat(HEADER + mem[4..], 4, 0, false)
  {
    hide SerHeader;
    HeaderThere(mem);
  }

  /** Both sides write a value without an 8-byte primitive byte for byte alike. */
  lemma WritersAgree(mem: seq<byte>, ty: Ty, v: Val)
    requires WellFormed(ty) && HasType(ty, v) && |mem| >= 4 && !WritesEight(ty, v)
    ensures Encoded(mem, ty, v).offset >= 4 && RosEncoded(mem, ty, v) == Back(Encoded(mem, ty, v))
  {
    hide Ser, SerHeader, WellFormed, HasType, WritesEight, Back, HEADER;
    RosStart(mem);
    SerBack(ty, v, MACHINE, SerHeader(MACHINE, Flat(mem, 0, 0, false)));
  }

  lemma RosCompleteIffFits(mem: seq<byte>, ty: Ty, v: Val)
    requires WellFormed(ty) && HasType(ty, v) && |mem| >= 4
    ensures var f := RosEncoded(mem, ty, v);
            && (!f.error <==> 4 + End(ty, v, 0) <= |mem|)
            && (!f.error ==> f.pos == 4 + End(ty, v, 0))
  {
    hide Ser, Offsets, WellFormed, HasType, Ahead;
    var h := Flat(HEADER + mem[4..], 4, 0, false);
    SerFits(ty, v, MACHINE, h);
    if !RosEncoded(mem, ty, v).error {
      SerFollowsLayout(ty, v, MACHINE, h);
      SerAhead(ty, v, MACHINE, h);
      AheadParts(h, RosEncoded(mem, ty, v));
    }
  }

  /** The payloads that the two sides write for a value are equal if and only if it writes no 8-byte primitive;
      otherwise they differ in length by four. */
  lemma WritersAgreeIff(mem: seq<byte>, ty: Ty, v: Val)
    requires WellFormed(ty) && HasType(ty, v) && |mem| >= 4
    requires !Encoded(mem, ty, v).error && !RosEncoded(mem, ty, v).error
    ensures var f, r := Encoded(mem, ty, v), RosEncoded(mem, ty, v);
            && (f.mem[..f.pos] == r.mem[..r.pos] <==> !WritesEight(ty, v))
            && (WritesEight(ty, v) ==> f.pos == r.pos + 4 || r.pos == f.pos + 4)
  {
    hide Encoded, RosEncoded, WellFormed, HasType, WritesEight, Offsets;
    CompleteIffFits(mem, ty, v);
    RosCompleteIffFits(mem, ty, v);
    EndsApart(ty, v, 4);
    if !WritesEight(ty, v) {
      WritersAgree(mem, ty, v);
    } else {
      var f, r := Encoded(mem, ty, v), RosEncoded(mem, ty, v);
      assert |f.mem[..f.pos]| == f.pos && |r.mem[..r.pos]| == r.pos;
    }
  }

  // ---- reading ----

  /** The device: deserialize_encapsulation and then cdr_deserialize. */
  predicate DeviceReads(received: seq<byte>, ty: Ty, v: Val)
    requires WellFormed(ty)
  {
    var (g, ok) := DesHeader(MACHINE, Flat(received, 0, 0, false));
    var r := Des(ty, MACHINE, g);
    ok && r.ok && !r.f.error && r.v == v
  }

  /** rclcpp: a header for plain little-endian CDR, and the fields aligned from behind it. */
  predicate RosReads(received: seq<byte>, ty: Ty, v: Val)
    requires WellFormed(ty)
  {
    && |received| >= 4 && received[0] == 0 && received[1] == 1
    && var r := Des(ty, MACHINE, Flat(received, 4, 0, false));
       r.ok && !r.f.error && r.v == v
  }

  predicate StartsWith(received: seq<byte>, f: Flat)
    requires f.Valid()
  {
    f.pos <= |received| && received[..f.pos] == f.mem[..f.pos]
  }

  lemma Starts(received: seq<byte>, f: Flat)
    requires f.Valid() && StartsWith(received, f)
    ensures forall i :: 0 <= i < f.pos ==> received[i] == f.mem[i]
  {
    forall i | 0 <= i < f.pos ensures received[i] == f.mem[i] {
      assert received[i] == received[..f.pos][i] == f.mem[..f.pos][i];
    }
  }

  /** What rclcpp wrote, rclcpp reads. */
  lemma RosReadsRos(mem: seq<byte>, ty: Ty, v: Val, received: seq<byte>)
    requires WellFormed(ty) && HasType(ty, v) && |mem| >= 4
    requires !RosEncoded(mem, ty, v).error && StartsWith(received, RosEncoded(mem, ty, v))
    ensures RosReads(received, ty, v)
  {
    hide Ser, Des, WellFormed, HasType;
    var h, f := Flat(HEADER + mem[4..], 4, 0, false), RosEncoded(mem, ty, v);
    SerAhead(ty, v, MACHINE, h);
    Starts(received, f);
    assert received[0] == f.mem[0] == h.mem[0] == HEADER[0] && received[1] == f.mem[1] == h.mem[1] == HEADER[1];
    RoundTrip(ty, v, MACHINE, h, Flat(received, 4, 0, false));
  }

  lemma DeviceReadsDevice(mem: seq<byte>, ty: Ty, v: Val, received: seq<byte>)
    requires WellFormed(ty) && HasType(ty, v) && |mem| >= 4
    requires !Encoded(mem, ty, v).error && StartsWith(received, Encoded(mem, ty, v))
    ensures DeviceReads(received, ty, v)
  {
    hide Encoded, Des, DesHeader, WellFormed, HasType;
    PayloadDecodes(mem, ty, v, received);
  }

  lemma BackStarts(received: seq<byte>, f: Flat)
    requires f.Valid() && f.offset >= 4
    ensures Back(f).Valid() && (StartsWith(received, Back(f)) <==> StartsWith(received, f)) && Back(f).error == f.error
  {
  }

  /** What the device published, rclcpp reads, as long as no 8-byte primitive was written. */
  lemma RosReadsDevice(mem: seq<byte>, ty: Ty, v: Val, received: seq<byte>)
    requires WellFormed(ty) && HasType(ty, v) && |mem| >= 4 && !WritesEight(ty, v)
    requires !Encoded(mem, ty, v).error && StartsWith(received, Encoded(mem, ty, v))
    ensures RosReads(received, ty, v)
  {
    hide Encoded, RosEncoded, RosReads, WellFormed, HasType, WritesEight, Back, StartsWith;
    WritersAgree(mem, ty, v);
    BackStarts(received, Encoded(mem, ty, v));
    RosReadsRos(mem, ty, v, received);
  }

  /** What rclcpp wrote, the device reads, as long as no 8-byte primitive was written. */
  lemma DeviceReadsRos(mem: seq<byte>, ty: Ty, v: Val, received: seq<byte>)
    requires WellFormed(ty) && HasType(ty, v) && |mem| >= 4 && !WritesEight(ty, v)
    requires !RosEncoded(mem, ty, v).error && StartsWith(received, RosEncoded(mem, ty, v))
    ensures DeviceReads(received, ty, v)
  {
    hide Encoded, RosEncoded, DeviceReads, WellFormed, HasType, WritesEight, Back, StartsWith;
    WritersAgree(mem, ty, v);
    BackStarts(received, Encoded(mem, ty, v));
    DeviceReadsDevice(mem, ty, v, received);
  }

  // ---- an 8-byte value ----

  const DOUBLE: Ty := Msg([Prim(8)])

  function DoubleVal(image: seq<byte>): Val { VMsg([VPrim(image)]) }

  lemma DoubleTyped(image: seq<byte>)
    requires |image| == 8
    ensures WellFormed(DOUBLE) && HasType(DOUBLE, DoubleVal(image)) && WritesEight(DOUBLE, DoubleVal(image))
  {
    var v := DoubleVal(image);
    assert HasType(DOUBLE.fields[0], v.vals[0]);
    assert HaveTypes(DOUBLE.fields, v.vals) && WritesEight(DOUBLE.fields[0], v.vals[0]);
  }

  lemma DesDouble(received: seq<byte>, offset: nat)
    requires |received| >= 16 && (offset == 0 || offset == 4)
    ensures WellFormed(DOUBLE)
    ensures Des(DOUBLE, MACHINE, Flat(received, 4, offset, false))
            == Read(Flat(received, 12 + offset, 8 + 2 * offset, false), DoubleVal(received[4 + offset..12 + offset]), true)
  {
    var f := Flat(received, 4, offset, false);
    var (g, image) := Get(f, MACHINE, 8);
    assert Pad(offset, 8) == offset;
    assert g == Flat(received, 12 + offset, 8 + 2 * offset, false) && image == received[4 + offset..12 + offset];
    assert DesFields([Prim(8)], MACHINE, f) == Reads(g, [VPrim(image)], true) by {
      assert [Prim(8)][1..] == [];
      assert Des(Prim(8), MACHINE, f) == Read(g, VPrim(image), true);
    }
  }

  /** Of one and the same payload, the device reads bytes 8 to 16 as the value and rclcpp bytes 4 to 12. */
  lemma DoubleIsMisread(received: seq<byte>)
    requires |received| >= 16 && received[0] == 0 && received[1] == 1
    ensures WellFormed(DOUBLE)
    ensures forall v :: DeviceReads(received, DOUBLE, v) <==> v == DoubleVal(received[8..16])
    ensures forall v :: RosReads(received, DOUBLE, v) <==> v == DoubleVal(received[4..12])
  {
    DesHeaderReads(received);
    DesDouble(received, 4);
    DesDouble(received, 0);
    hide Des, DesHeader, WellFormed, DOUBLE, DoubleVal;
  }

  lemma DoubleEnds(image: seq<byte>)
    requires |image| == 8
    ensures WellFormed(DOUBLE) && HasType(DOUBLE, DoubleVal(image))
    ensures End(DOUBLE, DoubleVal(image), 4) == 16 && End(DOUBLE, DoubleVal(image), 0) == 8
  {
    DoubleTyped(image);
    var vs := DoubleVal(image).vals;
    assert DOUBLE.fields[1..] == [] && vs[1..] == [];
    assert Offsets(Prim(8), vs[0], 0, 4).1 == 16 && Offsets(Prim(8), vs[0], 0, 0).1 == 8;
  }

  lemma Halves(received: seq<byte>, image: seq<byte>, at: nat)
    requires |image| == 8 && at + 8 <= |received|
    ensures received[at..at + 8] == image <==> received[at..at + 4] == image[..4] && received[at + 4..at + 8] == image[4..]
  {
    var r := received[at..at + 8];
    assert r[..4] == received[at..at + 4] && r[4..] == received[at + 4..at + 8];
    assert r == r[..4] + r[4..] && image == image[..4] + image[4..];
  }

  /** A double that the device published is read as another one by rclcpp, unless its two halves are equal and the padding
      in front of it, which message_out happened to hold, is the same again. */
  lemma DoubleFromDevice(mem: seq<byte>, image: seq<byte>, received: seq<byte>)
    requires |mem| >= 16 && |image| == 8
    requires (DoubleTyped(image); StartsWith(received, Encoded(mem, DOUBLE, DoubleVal(image))))
    ensures WellFormed(DOUBLE) && |received| >= 16
    ensures RosReads(received, DOUBLE, DoubleVal(image)) <==> received[4..8] == image[..4] == image[4..]
  {
    hide *;
    DoubleTyped(image);
    DoubleEnds(image);
    var v, f := DoubleVal(image), Encoded(mem, DOUBLE, DoubleVal(image));
    EncodedFits(mem, DOUBLE, v);
    DeviceReadsDevice(mem, DOUBLE, v, received);
    StartsLong(received, f);
    HeaderOf(mem, DOUBLE, v, received);
    DoubleIsMisread(received);
    SameDouble(received[8..16], image);
    SameDouble(received[4..12], image);
    Halves(received, image, 8);
    Halves(received, image, 4);
  }

  /** A double that rclcpp wrote is read as another one by the device, unless its two halves are equal and message_in happens
      to hold the same again behind the payload. */
  lemma DoubleFromRos(mem: seq<byte>, image: seq<byte>, received: seq<byte>)
    requires |mem| >= 12 && |image| == 8 && |received| >= 16
    requires (DoubleTyped(image); StartsWith(received, RosEncoded(mem, DOUBLE, DoubleVal(image))))
    ensures WellFormed(DOUBLE)
    ensures DeviceReads(received, DOUBLE, DoubleVal(image)) <==> received[12..16] == image[4..] == image[..4]
  {
    hide *;
    DoubleTyped(image);
    DoubleEnds(image);
    var v := DoubleVal(image);
    RosCompleteIffFits(mem, DOUBLE, v);
    RosReadsRos(mem, DOUBLE, v, received);
    RosHeader(received, DOUBLE, v);
    DoubleIsMisread(received);
    SameDouble(received[8..16], image);
    SameDouble(received[4..12], image);
    Halves(received, image, 8);
    Halves(received, image, 4);
  }

  lemma SameDouble(a: seq<byte>, b: seq<byte>)
    ensures DoubleVal(a) == DoubleVal(b) <==> a == b
  {
    if DoubleVal(a) == DoubleVal(b) { assert DoubleVal(a).vals[0] == DoubleVal(b).vals[0]; }
  }

  lemma EncodedFits(mem: seq<byte>, ty: Ty, v: Val)
    requires WellFormed(ty) && HasType(ty, v) && |mem| >= 4 && End(ty, v, 4) <= |mem|
    ensures !Encoded(mem, ty, v).error && Encoded(mem, ty, v).pos == End(ty, v, 4)
  {
    hide Encoded, WellFormed, HasType, Offsets;
    CompleteIffFits(mem, ty, v);
  }

  lemma StartsLong(received: seq<byte>, f: Flat)
    requires f.Valid() && StartsWith(received, f)
    ensures f.pos <= |received|
  {
  }

  lemma RosHeader(received: seq<byte>, ty: Ty, v: Val)
    requires WellFormed(ty) && RosReads(received, ty, v)
    ensures |received| >= 4 && received[0] == 0 && received[1] == 1
  {
    hide Des, WellFormed;
  }

  /** The header that the device wrote. */
  lemma HeaderOf(mem: seq<byte>, ty: Ty, v: Val, received: seq<byte>)
    requires WellFormed(ty) && HasType(ty, v) && |mem| >= 4 && StartsWith(received, Encoded(mem, ty, v))
    ensures |received| >= 4 && received[0] == 0 && received[1] == 1
  {
    hide Ser, SerHeader, WellFormed, HasType;
    var h, f := SerHeader(MACHINE, Flat(mem, 0, 0, false)), Encoded(mem, ty, v);
    HeaderThere(mem);
    SerAhead(ty, v, MACHINE, h);
    Starts(received, f);
    assert received[0] == f.mem[0] == h.mem[0] == HEADER[0] && received[1] == f.mem[1] == h.mem[1] == HEADER[1];
  }
}
