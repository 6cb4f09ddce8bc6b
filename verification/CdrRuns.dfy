/**
 Whole runs of micro-CDR calls: the fragments that a full-buffer callback supplies are invisible,
 the first error freezes the buffer, and every reachable buffer keeps its invariant.
 */
module CdrRuns {
  import opened Bytes
  import opened CdrFlat
  import opened CdrCursor
  import opened CdrArrays

  // ---- ucdr/types/sequence.c ----

  /** Neither the count nor an element is split in the opposite byte order. */
  predicate SequenceUnsplit(c: Cursor, order: Endianness, size: nat, elems: seq<seq<byte>>)
    requires c.Valid() && IsSize(size) && |elems| < 0x1_0000_0000 && Images(elems, size)
  {
    Unsplit(c, order, 4) &&
    (elems == [] ||
     (SerializeValid(c, order, LE32(|elems|)); ArrayUnsplit(Serialize(c, order, LE32(|elems|)), order, size, elems)))
  }

  /** What the header of a sequence leaves: buffer and element count. */
  function SequenceHeader(c: Cursor, order: Endianness, capacity: nat, length: nat): (r: (Cursor, nat))
    requires c.Valid() && Unsplit(c, order, 4)
    ensures r.0.Valid()
  {
    DeserializeAbs(c, order, 4);
    var (h, image) := Deserialize(c, order, 4);
    var n := if h.error then length else FromLE32(image);
    (if n > capacity then h.(error := true) else h, n)
  }

  predicate SequenceUnsplitGet(c: Cursor, order: Endianness, size: nat, capacity: nat, length: nat)
    requires c.Valid() && IsSize(size)
  {
    Unsplit(c, order, 4) &&
    (var (g, n) := SequenceHeader(c, order, capacity, length); n == 0 || ArrayUnsplitGet(g, order, size, n))
  }

  /** ucdr_serialize_endian_sequence_TYPE. */
  function SerializeSequence(c: Cursor, order: Endianness, size: nat, elems: seq<seq<byte>>): Cursor
    requires c.Valid() && IsSize(size) && |elems| < 0x1_0000_0000 && Images(elems, size)
    requires SequenceUnsplit(c, order, size, elems)
  {
    SerializeValid(c, order, LE32(|elems|));
    var h := Serialize(c, order, LE32(|elems|));
    if elems == [] then h else SerializeArray(h, order, size, elems)
  }

  /** ucdr_deserialize_endian_sequence_TYPE; `length` is what the count held before the call. */
  function DeserializeSequence(c: Cursor, order: Endianness, size: nat, capacity: nat, length: nat)
    : (Cursor, seq<byte>, nat)
    requires c.Valid() && IsSize(size) && SequenceUnsplitGet(c, order, size, capacity, length)
  {
    var (g, n) := SequenceHeader(c, order, capacity, length);
    if n == 0 then (g, [], n) else var (a, data) := DeserializeArray(g, order, size, n); (a, data, n)
  }

  lemma SerializeSequenceAbs(c: Cursor, order: Endianness, size: nat, elems: seq<seq<byte>>)
    requires c.Valid() && IsSize(size) && |elems| < 0x1_0000_0000 && Images(elems, size)
    requires SequenceUnsplit(c, order, size, elems)
    ensures var r := SerializeSequence(c, order, size, elems);
            r.Valid() && Abs(r) == PutSequence(Abs(c), order, size, elems) && Follows(c, r)
  {
    hide Cursor.Mem, Cursor.Pos, Cursor.LastDividesOffset, Serialize, SerializeArray, Put, PutArray, Sizes, Unsplit, ArrayUnsplit;
    var image := LE32(|elems|);
    SerializeAbs(c, order, image);
    SerializeFollows(c, order, image);
    if elems != [] { SerializeArrayAbs(Serialize(c, order, image), order, size, elems); }
  }

  lemma DeserializeSequenceAbs(c: Cursor, order: Endianness, size: nat, capacity: nat, length: nat)
    requires c.Valid() && IsSize(size) && SequenceUnsplitGet(c, order, size, capacity, length)
    ensures var (r, data, n) := DeserializeSequence(c, order, size, capacity, length);
            && r.Valid() && (Abs(r), data, n) == GetSequence(Abs(c), order, size, capacity, length)
            && Follows(c, r)
  {
    hide Cursor.Mem, Cursor.Pos, Deserialize, DeserializeArray, Get, GetArray, Sizes, Unsplit, ArrayUnsplitGet;
    DeserializeAbs(c, order, 4);
    DeserializeFollows(c, order, 4);
    var (h, image) := Deserialize(c, order, 4);
    var n := if h.error then length else FromLE32(image);
    var g := if n > capacity then h.(error := true) else h;
    ErrorAside(h);
    SameFragments(h, g);
    if n != 0 { DeserializeArrayAbs(g, order, size, n); }
  }

  // ---- runs ----

  datatype Call =
    | PutCall(order: Endianness, image: seq<byte>)
    | GetCall(order: Endianness, size: nat)
    | PutArrayCall(order: Endianness, size: nat, elems: seq<seq<byte>>)
    | GetArrayCall(order: Endianness, size: nat, n: nat)
    | PutSequenceCall(order: Endianness, size: nat, elems: seq<seq<byte>>)
    | GetSequenceCall(order: Endianness, size: nat, capacity: nat, length: nat)
    | AdvanceCall(order: Endianness, n: nat)
  {
    predicate WellFormed() {
      match this
      case PutCall(_, image) => IsSize(|image|)
      case GetCall(_, size) => IsSize(size)
      case PutArrayCall(_, size, elems) => IsSize(size) && Images(elems, size)
      case GetArrayCall(_, size, n) => IsSize(size)
      case PutSequenceCall(_, size, elems) => IsSize(size) && Images(elems, size) && |elems| < 0x1_0000_0000
      case GetSequenceCall(_, size, _, _) => IsSize(size)
      case AdvanceCall(_, _) => true
    }
  }

  /** A call that splits no value in the opposite byte order. */
  predicate CallUnsplit(c: Cursor, call: Call)
    requires c.Valid() && call.WellFormed()
  {
    match call
    case PutCall(order, image) => Unsplit(c, order, |image|)
    case GetCall(order, size) => Unsplit(c, order, size)
    case PutArrayCall(order, size, elems) => ArrayUnsplit(c, order, size, elems)
    case GetArrayCall(order, size, n) => ArrayUnsplitGet(c, order, size, n)
    case PutSequenceCall(order, size, elems) => SequenceUnsplit(c, order, size, elems)
    case GetSequenceCall(order, size, capacity, length) => SequenceUnsplitGet(c, order, size, capacity, length)
    case AdvanceCall(_, _) => true
  }

  /** A call on the real buffer, and the bytes it hands back. */
  function Step(c: Cursor, call: Call): (Cursor, seq<byte>)
    requires c.Valid() && call.WellFormed() && CallUnsplit(c, call)
  {
    match call
    case PutCall(order, image) => (Serialize(c, order, image), [])
    case GetCall(order, size) => Deserialize(c, order, size)
    case PutArrayCall(order, size, elems) => (SerializeArray(c, order, size, elems), [])
    case GetArrayCall(order, size, n) => DeserializeArray(c, order, size, n)
    case PutSequenceCall(order, size, elems) => (SerializeSequence(c, order, size, elems), [])
    case GetSequenceCall(order, size, capacity, length) =>
      var (r, data, n) := DeserializeSequence(c, order, size, capacity, length); (r, data)
    case AdvanceCall(_, n) => (Advance(c, n), [])
  }

  /** The same call in the reference semantics. */
  function FlatStep(f: Flat, call: Call): (r: (Flat, seq<byte>))
    requires f.Valid() && call.WellFormed()
    ensures r.0.Valid() && |r.0.mem| == |f.mem|
  {
    match call
    case PutCall(order, image) => (Put(f, order, image), [])
    case GetCall(order, size) => Get(f, order, size)
    case PutArrayCall(order, size, elems) => (PutArray(f, order, size, elems), [])
    case GetArrayCall(order, size, n) => GetArray(f, order, size, n)
    case PutSequenceCall(order, size, elems) => (PutSequence(f, order, size, elems), [])
    case GetSequenceCall(order, size, capacity, length) =>
      var (r, data, n) := GetSequence(f, order, size, capacity, length); (r, data)
    case AdvanceCall(_, n) => (Skip(f, n), [])
  }

  lemma StepAbs(c: Cursor, call: Call)
    requires c.Valid() && call.WellFormed() && CallUnsplit(c, call)
    ensures var (r, data) := Step(c, call);
            r.Valid() && (Abs(r), data) == FlatStep(Abs(c), call) && Follows(c, r)
  {
    hide Unsplit, ArrayUnsplit, ArrayUnsplitGet, SequenceUnsplit, SequenceUnsplitGet;
    hide Cursor.Mem, Cursor.Pos, Cursor.LastDividesOffset, Sizes, Put, Get, PutArray, GetArray, PutSequence, GetSequence, Skip,
         Serialize, Deserialize, SerializeArray, DeserializeArray, SerializeSequence, DeserializeSequence, Advance;
    match call {
      case PutCall(order, image) => SerializeAbs(c, order, image); SerializeFollows(c, order, image);
      case GetCall(order, size) => DeserializeAbs(c, order, size); DeserializeFollows(c, order, size);
      case PutArrayCall(order, size, elems) => SerializeArrayAbs(c, order, size, elems);
      case GetArrayCall(order, size, n) => DeserializeArrayAbs(c, order, size, n);
      case PutSequenceCall(order, size, elems) => SerializeSequenceAbs(c, order, size, elems);
      case GetSequenceCall(order, size, capacity, length) => DeserializeSequenceAbs(c, order, size, capacity, length);
      case AdvanceCall(_, n) => AdvanceAbs(c, n); AdvanceFollows(c, n);
    }
  }

  /** Well-formed calls that split no value in the opposite byte order. */
  predicate Runnable(c: Cursor, calls: seq<Call>)
    requires c.Valid()
    decreases |calls|
  {
    calls == [] ||
    (calls[0].WellFormed() && CallUnsplit(c, calls[0]) && (StepAbs(c, calls[0]); Runnable(Step(c, calls[0]).0, calls[1..])))
  }

  lemma {:induction false} RunnableIsWellFormed(c: Cursor, calls: seq<Call>)
    requires c.Valid() && Runnable(c, calls)
    ensures forall call <- calls :: call.WellFormed()
    decreases |calls|
  {
    hide Step, CallUnsplit;
    if calls != [] {
      StepAbs(c, calls[0]);
      RunnableIsWellFormed(Step(c, calls[0]).0, calls[1..]);
    }
  }

  /** In machine order, in the last fragment, and after an error, every run of well-formed calls is such a run. */
  lemma {:induction false} LooseIsRunnable(c: Cursor, calls: seq<Call>)
    requires c.Valid() && forall call <- calls :: call.WellFormed()
    requires c.next == [] || c.error || forall call <- calls :: call.order == MACHINE
    ensures Runnable(c, calls)
    decreases |calls|
  {
    hide Step, CallUnsplit, Cursor.Mem, Cursor.Pos, Sizes, FlatStep, Call.WellFormed;
    if calls != [] {
      assert calls[0] in calls;
      LooseCall(c, calls[0]);
      StepAbs(c, calls[0]);
      var d := Step(c, calls[0]).0;
      FollowsSupply(c, d);
      FlatError(Abs(c), calls[0]);
      LooseIsRunnable(d, calls[1..]);
    }
  }

  lemma FlatError(f: Flat, call: Call)
    requires f.Valid() && call.WellFormed()
    ensures f.error ==> FlatStep(f, call).0.error
  {
    hide Put, Get, PutAll, GetAll, CopyIn, CopyOut, Skip, LE32;
    if f.error {
      match call
      case PutCall(order, image) => PutError(f, order, image);
      case GetCall(order, size) => PutError(f, order, seq(size, _ => 0));
      case PutArrayCall(order, size, elems) => PutArrayError(f, order, size, elems);
      case GetArrayCall(order, size, n) => GetArrayError(f, order, size, n);
      case PutSequenceCall(order, size, elems) =>
        PutError(f, order, LE32(|elems|));
        PutArrayError(Put(f, order, LE32(|elems|)), order, size, elems);
      case GetSequenceCall(order, size, capacity, length) =>
        PutError(f, order, LE32(0));
        var h := Get(f, order, 4).0;
        GetArrayError(h, order, size, length);
        GetArrayError(h.(error := true), order, size, length);
      case AdvanceCall(_, n) => SkipError(f, n);
    }
  }

  lemma PutArrayError(f: Flat, order: Endianness, size: nat, elems: seq<seq<byte>>)
    requires f.Valid() && IsSize(size) && Images(elems, size) && f.error
    ensures PutArray(f, order, size, elems).error
  {
    hide Put;
    SkipError(f, Pad(f.offset, size));
    PutAllError(Skip(f, Pad(f.offset, size)), order, elems);
  }

  lemma {:induction false} PutAllError(f: Flat, order: Endianness, elems: seq<seq<byte>>)
    requires f.Valid() && (forall e <- elems :: IsSize(|e|)) && f.error
    ensures PutAll(f, order, elems).error
    decreases |elems|
  {
    hide Put;
    if elems != [] {
      PutError(f, order, elems[0]);
      PutAllError(Put(f, order, elems[0]), order, elems[1..]);
    }
  }

  lemma GetArrayError(f: Flat, order: Endianness, size: nat, n: nat)
    requires f.Valid() && IsSize(size) && f.error
    ensures GetArray(f, order, size, n).0.error
  {
    hide Get;
    SkipError(f, Pad(f.offset, size));
    GetAllError(Skip(f, Pad(f.offset, size)), order, size, n);
  }

  lemma {:induction false} GetAllError(f: Flat, order: Endianness, size: nat, n: nat)
    requires f.Valid() && IsSize(size) && f.error
    ensures GetAll(f, order, size, n).0.error
    decreases n
  {
    hide Get;
    if n != 0 {
      PutError(f, order, seq(size, _ => 0));
      GetAllError(Get(f, order, size).0, order, size, n - 1);
    }
  }

  lemma LooseCall(c: Cursor, call: Call)
    requires c.Valid() && call.WellFormed() && (c.next == [] || c.error || call.order == MACHINE)
    ensures CallUnsplit(c, call)
  {
    hide Unsplit, ArrayUnsplit, ArrayUnsplitGet, Cursor.Mem, Cursor.Pos, Sizes, Serialize, SequenceUnsplit, SequenceUnsplitGet;
    match call {
      case PutCall(order, image) => LastIsUnsplit(c, order, |image|);
      case GetCall(order, size) => LastIsUnsplit(c, order, size);
      case PutArrayCall(order, size, elems) => LooseArray(c, order, size);
      case GetArrayCall(order, size, n) => LooseArray(c, order, size);
      case PutSequenceCall(order, size, elems) => LooseSequence(c, order, size, elems);
      case GetSequenceCall(order, size, capacity, length) => LooseSequenceGet(c, order, size, capacity, length);
      case AdvanceCall(_, _) =>
    }
  }

  lemma LooseSequence(c: Cursor, order: Endianness, size: nat, elems: seq<seq<byte>>)
    requires c.Valid() && IsSize(size) && |elems| < 0x1_0000_0000 && Images(elems, size) && Loose(c, order)
    ensures SequenceUnsplit(c, order, size, elems)
  {
    hide Unsplit, ArrayUnsplit, Serialize, Cursor.Valid, Loose;
    LoosePut(c, order, LE32(|elems|));
    LooseArray(Serialize(c, order, LE32(|elems|)), order, size);
  }

  lemma LooseSequenceGet(c: Cursor, order: Endianness, size: nat, capacity: nat, length: nat)
    requires c.Valid() && IsSize(size) && Loose(c, order)
    ensures SequenceUnsplitGet(c, order, size, capacity, length)
  {
    hide Unsplit, ArrayUnsplitGet, Deserialize;
    LooseGet(c, order, 4);
    var (g, n) := SequenceHeader(c, order, capacity, length);
    LooseArray(g, order, size);
  }

  function Run(c: Cursor, calls: seq<Call>): (Cursor, seq<seq<byte>>)
    requires c.Valid() && Runnable(c, calls)
    decreases |calls|
  {
    if calls == [] then (c, []) else
    StepAbs(c, calls[0]);
    var (d, data) := Step(c, calls[0]);
    var (r, rest) := Run(d, calls[1..]);
    (r, [data] + rest)
  }

  function FlatRun(f: Flat, calls: seq<Call>): (Flat, seq<seq<byte>>)
    requires f.Valid() && forall call <- calls :: call.WellFormed()
    decreases |calls|
  {
    if calls == [] then (f, []) else
    var (g, data) := FlatStep(f, calls[0]);
    var (r, rest) := FlatRun(g, calls[1..]);
    (r, [data] + rest)
  }

  /** Every run keeps the buffer invariant and the fragment sizes, and does what the reference does. */
  lemma {:induction false} RunRefinesFlat(c: Cursor, calls: seq<Call>)
    requires c.Valid() && Runnable(c, calls)
    ensures forall call <- calls :: call.WellFormed()
    ensures var (r, data) := Run(c, calls);
            r.Valid() && (Abs(r), data) == FlatRun(Abs(c), calls) && Follows(c, r)
    decreases |calls|
  {
    hide Cursor.Mem, Cursor.Pos, Cursor.LastDividesOffset, Sizes, Step, FlatStep, CallUnsplit;
    if calls != [] {
      StepAbs(c, calls[0]);
      var d := Step(c, calls[0]).0;
      RunRefinesFlat(d, calls[1..]);
    }
  }

  /** Calls over any fragments of at least eight bytes, in machine order or at least splitting no value in the other, leave, in the concatenated
      fragments, what they leave in one large buffer; they read the same bytes and agree on the error.
      So the fragments before the current one hold, to their last byte, what one buffer holds before it,
      and the current one goes on from there to the same position. */
  lemma FragmentsAreInvisible(c: Cursor, calls: seq<Call>)
    requires c.Valid() && Runnable(c, calls)
    ensures Runnable(OneBuffer(c), calls)
    ensures var (r, data) := Run(c, calls);
            var (one, data1) := Run(OneBuffer(c), calls);
            && r.Mem() == one.cur && r.Pos() == one.it && r.offset == one.offset
            && r.error == one.error && data == data1
            && Sizes(r.done + [r.cur] + r.next) == Sizes(c.done + [c.cur] + c.next)
            && |Flatten(r.done)| <= one.it <= |one.cur| && r.it <= |r.cur|
            && Flatten(r.done) == one.cur[..|Flatten(r.done)|] && r.cur[..r.it] == one.cur[|Flatten(r.done)|..one.it]
  {
    hide Run, FlatRun, Sizes, Runnable, Flatten, Cursor.Mem, Cursor.Pos, Cursor.LastDividesOffset;
    RunRefinesFlat(c, calls);
    LooseIsRunnable(OneBuffer(c), calls);
    RunRefinesFlat(OneBuffer(c), calls);
    var r, one := Run(c, calls).0, Run(OneBuffer(c), calls).0;
    OneBufferStaysOne(OneBuffer(c), one);
    FilledParts(r);
  }

  lemma FilledParts(r: Cursor)
    requires r.it <= |r.cur|
    ensures |Flatten(r.done)| <= r.Pos() <= |r.Mem()|
    ensures Flatten(r.done) == r.Mem()[..|Flatten(r.done)|] && r.cur[..r.it] == r.Mem()[|Flatten(r.done)|..r.Pos()]
  {
    hide Flatten;
    var x, y := Flatten(r.done), Flatten(r.next);
    assert r.Mem() == x + (r.cur + y);
    assert r.cur == r.cur[..r.it] + r.cur[r.it..];
  }

  lemma OneBufferStaysOne(c: Cursor, r: Cursor)
    requires c.done == [] && c.next == [] && Follows(c, r)
    ensures r.done == [] && r.next == [] && r.Mem() == r.cur && r.Pos() == r.it
  {
    assert |Sizes(c.done + [c.cur] + c.next)| == 1;
    assert |Sizes(r.done + [r.cur] + r.next)| == |r.done| + 1 + |r.next|;
  }

  // ---- errors ----

  lemma FrozenPut(c: Cursor, order: Endianness, image: seq<byte>)
    requires c.Valid() && c.error && IsSize(|image|) && Unsplit(c, order, |image|)
    ensures var r := Serialize(c, order, image); r.(last := c.last) == c && r.Valid()
  {
  }

  lemma FrozenGet(c: Cursor, order: Endianness, n: nat)
    requires c.Valid() && c.error && IsSize(n) && Unsplit(c, order, n)
    ensures var (r, data) := Deserialize(c, order, n); r.(last := c.last) == c && r.Valid() && data == []
  {
    assert |Wire(order, [])| == 0;
  }

  lemma {:induction false} FrozenPuts(c: Cursor, order: Endianness, elems: seq<seq<byte>>)
    requires c.Valid() && c.error && (forall e <- elems :: IsSize(|e|)) && AllUnsplit(c, order, elems)
    ensures SerializeAll(c, order, elems).(last := c.last) == c
    decreases |elems|
  {
    hide Serialize, Unsplit, Cursor.Mem, Cursor.Pos, Sizes;
    if elems != [] {
      FrozenPut(c, order, elems[0]);
      FrozenPuts(Serialize(c, order, elems[0]), order, elems[1..]);
    }
  }

  lemma {:induction false} FrozenGets(c: Cursor, order: Endianness, size: nat, n: nat)
    requires c.Valid() && c.error && IsSize(size) && AllUnsplitGet(c, order, size, n)
    ensures var (r, data) := DeserializeAll(c, order, size, n); r.(last := c.last) == c && data == []
    decreases n
  {
    hide Deserialize, Unsplit, Cursor.Mem, Cursor.Pos, Sizes;
    if n != 0 {
      FrozenGet(c, order, size);
      FrozenGets(Deserialize(c, order, size).0, order, size, n - 1);
    }
  }

  lemma FrozenPutArray(c: Cursor, order: Endianness, size: nat, elems: seq<seq<byte>>)
    requires c.Valid() && c.error && IsSize(size) && Images(elems, size) && ArrayUnsplit(c, order, size, elems)
    ensures var r := SerializeArray(c, order, size, elems); r.(last := c.last) == c && r.Valid()
  {
    hide Sizes, SerializeAll, AllUnsplit;
    if size != 1 && order != MACHINE { FrozenPuts(ArrayPad(c, size), order, elems); }
  }

  lemma FrozenGetArray(c: Cursor, order: Endianness, size: nat, n: nat)
    requires c.Valid() && c.error && IsSize(size) && ArrayUnsplitGet(c, order, size, n)
    ensures var (r, data) := DeserializeArray(c, order, size, n);
            r.(last := c.last) == c && r.Valid() && data == []
  {
    hide Sizes, DeserializeAll, AllUnsplitGet;
    if size != 1 && order != MACHINE { FrozenGets(ArrayPad(c, size), order, size, n); }
  }

  /** With the error set, a call moves nothing, stores nothing and hands nothing back. */
  lemma FrozenStep(c: Cursor, call: Call)
    requires c.Valid() && c.error && call.WellFormed() && CallUnsplit(c, call)
    ensures var (r, data) := Step(c, call); r.(last := c.last) == c && data == []
  {
    hide Cursor.Mem, Cursor.Pos, Sizes, Serialize, Deserialize, SerializeArray, DeserializeArray, Unsplit, ArrayUnsplit,
         ArrayUnsplitGet;
    match call {
      case PutCall(order, image) => FrozenPut(c, order, image);
      case GetCall(order, size) => FrozenGet(c, order, size);
      case PutArrayCall(order, size, elems) => FrozenPutArray(c, order, size, elems);
      case GetArrayCall(order, size, n) => FrozenGetArray(c, order, size, n);
      case PutSequenceCall(order, size, elems) =>
        FrozenPut(c, order, LE32(|elems|));
        if elems != [] { FrozenPutArray(Serialize(c, order, LE32(|elems|)), order, size, elems); }
      case GetSequenceCall(order, size, capacity, length) =>
        FrozenGet(c, order, 4);
        var h := Deserialize(c, order, 4).0;
        assert h.(error := true) == h;
        if length != 0 { FrozenGetArray(h, order, size, length); }
      case AdvanceCall(_, n) =>
    }
  }

  /** The first error is final: no later run of calls changes contents, position or offset. */
  lemma {:induction false} ErrorIsFinal(c: Cursor, calls: seq<Call>)
    requires c.Valid() && c.error && forall call <- calls :: call.WellFormed()
    ensures Runnable(c, calls)
    ensures var (r, data) := Run(c, calls);
            r.(last := c.last) == c && forall d <- data :: d == []
    decreases |calls|
  {
    hide Cursor.Mem, Cursor.Pos, Sizes, Step, CallUnsplit, Call.WellFormed;
    LooseIsRunnable(c, calls);
    if calls != [] {
      assert calls[0] in calls;
      StepAbs(c, calls[0]);
      FrozenStep(c, calls[0]);
      ErrorIsFinal(Step(c, calls[0]).0, calls[1..]);
    }
  }

  /** A sequence length over the capacity sets the error, and no element is read. */
  lemma OverCapacityReadsNothing(c: Cursor, order: Endianness, size: nat, capacity: nat, length: nat)
    requires c.Valid() && IsSize(size) && SequenceUnsplitGet(c, order, size, capacity, length)
    ensures var (r, data, n) := DeserializeSequence(c, order, size, capacity, length);
            n > capacity ==> r.error && data == []
  {
    hide Sizes, DeserializeArray, ArrayUnsplitGet, Unsplit;
    var (g, n) := SequenceHeader(c, order, capacity, length);
    if n > capacity {
      FrozenGetArray(g, order, size, n);
    }
  }

  // ---- the other ways to move the cursor ----

  /** ucdr_align_to.  It asks neither the error flag nor the callback: the offset moves by the whole padding, the
      iterator at most to the end of its fragment. */
  function AlignTo(c: Cursor, size: nat): Cursor
    requires IsSize(size)
  {
    var k := BufferAlignment(c, size);
    c.(offset := c.offset + k, it := if c.it + k > |c.cur| then |c.cur| else c.it + k, last := size)
  }

  /** ucdr_reset_buffer_offset; ucdr_reset_buffer with `at` zero. */
  function ResetTo(c: Cursor, origin: nat, at: nat): Cursor {
    c.(it := at, offset := origin + at, last := 0, error := false)
  }

  /** On an error-free buffer ucdr_align_to is the padding that every aligned call makes first, if and only if that padding
      does not go beyond the current fragment. */
  lemma AlignIsPaddingIff(c: Cursor, size: nat)
    requires c.Valid() && !c.error && IsSize(size)
    ensures Abs(AlignTo(c, size).(last := 0)) == Skip(Abs(c), Pad(c.offset, size)) <==> c.it + Pad(c.offset, size) <= |c.cur|
  {
    ShortcutIsAlignment(c, size);
    var a, f := AlignTo(c, size).(last := 0), Abs(c);
    MemOf(c.(last := 0, it := a.it), a);
    hide Pad, Flatten;
    assert a.Mem() == c.Mem() && |c.Mem()| == |Flatten(c.done)| + |c.cur| + |Flatten(c.next)|;
  }

  datatype Act = CallAct(call: Call) | AlignAct(size: nat) | ResetAct(origin: nat, at: nat)

  predicate Allowed(c: Cursor, act: Act)
    requires c.Valid()
  {
    match act
    case CallAct(call) => call.WellFormed() && CallUnsplit(c, call)
    case AlignAct(size) => IsSize(size)
    case ResetAct(_, at) => at <= |c.cur|
  }

  function Do(c: Cursor, act: Act): Cursor
    requires c.Valid() && Allowed(c, act)
  {
    match act
    case CallAct(call) => Step(c, call).0
    case AlignAct(size) => AlignTo(c, size)
    case ResetAct(origin, at) => ResetTo(c, origin, at)
  }

  lemma DoKeeps(c: Cursor, act: Act)
    requires c.Valid() && Allowed(c, act)
    ensures Do(c, act).Valid() && Follows(c, Do(c, act))
  {
    hide Step, CallUnsplit, Cursor.Mem, Cursor.Pos, Sizes;
    match act {
      case CallAct(call) => StepAbs(c, call);
      case AlignAct(size) => AlignKeeps(c, size); SameFragments(c, AlignTo(c, size));
      case ResetAct(origin, at) => SameFragments(c, ResetTo(c, origin, at));
    }
  }

  lemma AlignKeeps(c: Cursor, size: nat)
    requires c.Valid() && IsSize(size)
    ensures AlignTo(c, size).Valid()
  {
    if !c.error { ShortcutIsAlignment(c, size); }
    hide Rem;
  }

  lemma AlignDivides(c: Cursor, size: nat)
    requires c.Valid() && IsSize(size)
    ensures !c.error ==> Rem(c.offset + BufferAlignment(c, size), size) == 0
  {
    if !c.error { ShortcutIsAlignment(c, size); }
    hide Rem;
  }

  predicate AllAllowed(c: Cursor, acts: seq<Act>)
    requires c.Valid()
    decreases |acts|
  {
    acts == [] || (Allowed(c, acts[0]) && (DoKeeps(c, acts[0]); AllAllowed(Do(c, acts[0]), acts[1..])))
  }

  function DoAll(c: Cursor, acts: seq<Act>): Cursor
    requires c.Valid() && AllAllowed(c, acts)
    decreases |acts|
  {
    if acts == [] then c else
    DoKeeps(c, acts[0]);
    DoAll(Do(c, acts[0]), acts[1..])
  }

  /** In every buffer that calls, alignments and resets can reach, the iterator is inside its fragment, the fragments have
      their sizes, and without an error the remembered data size divides the offset, so that the shortcut of
      ucdr_buffer_alignment is the plain padding. */
  lemma {:induction false} ReachableIsValid(c: Cursor, acts: seq<Act>)
    requires c.Valid() && AllAllowed(c, acts)
    ensures var r := DoAll(c, acts);
            && r.Valid() && Sizes(r.done + [r.cur] + r.next) == Sizes(c.done + [c.cur] + c.next)
            && forall size :: IsSize(size) && !r.error ==> BufferAlignment(r, size) == Pad(r.offset, size)
    decreases |acts|
  {
    hide Allowed, Do, Sizes, BufferAlignment, Pad, Cursor.Mem, Cursor.Pos;
    if acts == [] {
      forall size | IsSize(size) && !c.error ensures BufferAlignment(c, size) == Pad(c.offset, size) {
        ShortcutIsAlignment(c, size);
      }
    } else {
      DoKeeps(c, acts[0]);
      ReachableIsValid(Do(c, acts[0]), acts[1..]);
    }
  }
}
