/**
 ucdrBuffer as the C code has it: pointers into byte arrays, updated in place.  Every method is
 proved to do to the buffer's value `View()` what the functions of `CdrCursor`, `CdrArrays` and
 `CdrRuns` say.
 */
module CdrBuffer {
  import opened Bytes
  import opened CdrFlat
  import opened CdrCursor
  import opened CdrArrays
  import opened CdrRuns

  /** memcpy into an array. */
  method MemCpy(dst: array<byte>, at: nat, src: seq<byte>)
    requires at + |src| <= dst.Length
    modifies dst
    ensures forall k :: 0 <= k < |src| ==> dst[at + k] == src[k]
    ensures forall k :: 0 <= k < dst.Length && !(at <= k < at + |src|) ==> dst[k] == old(dst[k])
  {
    var i := 0;
    while i < |src|
      invariant 0 <= i <= |src|
      invariant forall k :: 0 <= k < i ==> dst[at + k] == src[k]
      invariant forall k :: 0 <= k < dst.Length && !(at <= k < at + i) ==> dst[k] == old(dst[k])
    {
      dst[at + i] := src[i];
      i := i + 1;
    }
  }

  lemma StoredText(was: seq<byte>, now: seq<byte>, lo: nat, hi: nat, at: nat, src: seq<byte>)
    requires lo <= at && at + |src| <= hi <= |was| == |now|
    requires forall k :: 0 <= k < |src| ==> now[at + k] == src[k]
    requires forall k :: 0 <= k < |was| && !(at <= k < at + |src|) ==> now[k] == was[k]
    ensures now[lo..hi] == Overwrite(was[lo..hi], at - lo, src)
  {
    var d, l, r := at - lo, now[lo..hi], Overwrite(was[lo..hi], at - lo, src);
    forall i | 0 <= i < hi - lo ensures l[i] == r[i] {
      assert l[i] == now[lo + i] && was[lo..hi][i] == was[lo + i];
      OverwriteAt(was[lo..hi], d, src, i);
      if d <= i < d + |src| {
        assert now[at + (i - d)] == src[i - d];
      }
    }
  }

  lemma OverwriteAt(s: seq<byte>, at: nat, t: seq<byte>, i: nat)
    requires at + |t| <= |s| && i < |s|
    ensures Overwrite(s, at, t)[i] == if at <= i < at + |t| then t[i - at] else s[i]
  {
  }

  lemma SliceOfSlice(a: array<byte>, lo: nat, hi: nat, x: nat, y: nat)
    requires lo <= x <= y <= hi <= a.Length
    ensures a[lo..hi][x - lo..y - lo] == a[x..y]
  {
    var l, r := a[lo..hi][x - lo..y - lo], a[x..y];
    forall i | 0 <= i < |l| ensures l[i] == r[i] {
      assert l[i] == a[lo..hi][x - lo + i];
    }
  }

  /** The bytes of `a` from `lo` up to `hi`: a buffer between its init and final pointers. */
  datatype Region = Region(a: array<byte>, lo: nat, hi: nat)

  ghost predicate Separate(rs: seq<Region>) {
    && (forall r <- rs :: r.lo <= r.hi <= r.a.Length)
    && (forall i, j :: 0 <= i < j < |rs| ==> rs[i].a != rs[j].a)
  }

  ghost function Arrays(rs: seq<Region>): set<object> { set r | r in rs :: r.a }

  ghost function Texts(rs: seq<Region>): (t: seq<seq<byte>>)
    requires Separate(rs)
    reads Arrays(rs)
    ensures |t| == |rs| && forall i :: 0 <= i < |rs| ==> |t[i]| == rs[i].hi - rs[i].lo
  {
    seq(|rs|, i requires 0 <= i < |rs| reads Arrays(rs) => rs[i].a[rs[i].lo..rs[i].hi])
  }

  /** What surrounds the buffers in their arrays: no call may write there. */
  ghost function Margins(rs: seq<Region>): seq<(seq<byte>, seq<byte>)>
    requires Separate(rs)
    reads Arrays(rs)
  {
    seq(|rs|, i requires 0 <= i < |rs| reads Arrays(rs) => (rs[i].a[..rs[i].lo], rs[i].a[rs[i].hi..]))
  }

  lemma Around<T>(t: seq<T>, i: nat, u: T)
    requires i < |t|
    ensures t[i := u][..i] == t[..i] && t[i := u][i] == u && t[i := u][i + 1..] == t[i + 1..]
  {
  }

  class UcdrBuffer {
    var buf: array<byte>
    var init: nat
    var final: nat
    var iterator_: nat
    var offset: nat
    var lastDataSize: nat
    var error: bool
    var endianness: Endianness

    /** The buffers that the on_full_buffer callback switches to, in order, and how many it has used;
        none without a callback. */
    const pool: seq<array<byte>>
    var used: nat

    /** The stream offset at the start of the first buffer. */
    const origin: nat

    /** The first buffer and those of the pool. */
    ghost const regions: seq<Region>

    ghost predicate Pooled() {
      && Separate(regions) && |regions| == |pool| + 1 && this !in Arrays(regions)
      && (forall i :: 0 <= i < |pool| ==> pool[i].Length >= 8 && regions[i + 1] == Region(pool[i], 0, pool[i].Length))
    }

    ghost predicate Valid()
      reads this
    {
      && Pooled() && used < |regions| && regions[used] == Region(buf, init, final)
      && init <= iterator_ <= final
      && (!error && lastDataSize != 0 ==> IsSize(lastDataSize) && Rem(offset, lastDataSize) == 0)
    }

    ghost function View(): (c: Cursor)
      requires Valid()
      reads this, Arrays(regions)
      ensures c.Valid() && c.error == error && c.offset == offset && c.last == lastDataSize
      ensures c.it == iterator_ - init && |c.cur| == final - init && |c.done| == used
      ensures |c.next| == |pool| - used
    {
      var t := Texts(regions);
      assert forall i :: used < i < |t| ==> |t[i]| == pool[i - 1].Length;
      Cursor(t[..used], t[used], iterator_ - init, t[used + 1..], offset, lastDataSize, error)
    }

    /** ucdr_init_buffer_origin_offset_endian and ucdr_set_on_full_buffer_callback. */
    constructor (data: array<byte>, lo: nat, hi: nat, origin: nat, start: nat, order: Endianness,
                 more: seq<array<byte>>)
      requires lo + start <= hi <= data.Length
      requires data !in more && (forall a <- more :: a.Length >= 8)
      requires forall i, j :: 0 <= i < j < |more| ==> more[i] != more[j]
      ensures Valid() && buf == data && init == lo && final == hi && pool == more && used == 0
      ensures |regions| == 1 + |more| && View().done == [] && View().cur == data[lo..hi]
      ensures iterator_ == lo + start && offset == origin + start && lastDataSize == 0 && !error
      ensures endianness == order && this.origin == origin
    {
      this.origin := origin;
      buf, init, final, iterator_ := data, lo, hi, lo + start;
      offset, lastDataSize, error := origin + start, 0, false;
      endianness, pool, used := order, more, 0;
      regions := [Region(data, lo, hi)]
                 + seq(|more|, i requires 0 <= i < |more| => Region(more[i], 0, more[i].Length));
    }

    /** ucdr_check_final_buffer_behavior: at the end of the buffer, ask the callback for the next one. */
    method CheckFinalBehavior() returns (ok: bool)
      requires Valid()
      modifies this
      ensures Valid() && ok == !error && endianness == old(endianness) && (old(error) ==> error)
      ensures ok && old(iterator_ == final) ==>
                used == old(used) + 1 && offset == old(offset) && iterator_ == init && final - init >= 8
      ensures !ok ==> unchanged(`iterator_, `init, `final, `offset)
      ensures View() == CheckFinal(old(View()))
    {
      hide Cursor.LastDividesOffset, Rem, Texts, Separate, Arrays;
      if !error && iterator_ >= final {
        if used == |pool| {
          SetError();
        } else {
          Switch();
        }
      }
      ok := !error;
    }

    /** The callback supplies the next buffer of the pool. */
    method Switch()
      requires Valid() && used < |pool| && iterator_ == final
      modifies `buf, `init, `final, `iterator_, `used
      ensures Valid() && used == old(used) + 1 && iterator_ == init && final - init >= 8
      ensures var v := old(View()); View() == v.(done := v.done + [v.cur], cur := v.next[0], it := 0, next := v.next[1..])
    {
      hide Cursor.LastDividesOffset, Rem, Texts, Separate, Arrays;
      ghost var t := Texts(regions);
      assert t[..used] + [t[used]] == t[..used + 1];
      buf, init, final, iterator_, used := pool[used], 0, pool[used].Length, 0, used + 1;
      assert Texts(regions) == t;
    }

    /** ucdr_check_final_buffer_behavior_array. */
    method NextRoom(n: nat) returns (k: nat)
      requires Valid()
      modifies this
      ensures Valid() && endianness == old(endianness)
      ensures View() == CheckFinalArray(old(View()), n) && k == Room(View(), n)
    {
      hide CheckFinal, View, Valid;
      if n > 0 {
        var _ := CheckFinalBehavior();
      }
      assert View().Valid();
      k := if error then 0 else Min(n, final - iterator_);
    }

    method Move(n: nat, size: nat)
      requires Valid() && iterator_ + n <= final
      requires !error ==> IsSize(size) && Rem(offset + n, size) == 0
      modifies `iterator_, `offset, `lastDataSize
      ensures Valid() && View() == Moved(old(View()), n).(last := size)
    {
      hide Rem, Texts, Separate, Arrays;
      iterator_, offset, lastDataSize := iterator_ + n, offset + n, size;
      assert Texts(regions) == old(Texts(regions));
    }

    /** memcpy inside one of the buffers. */
    method Write(ghost j: nat, dst: array<byte>, at: nat, src: seq<byte>)
      requires Separate(regions) && j < |regions| && regions[j].a == dst
      requires regions[j].lo <= at && at + |src| <= regions[j].hi
      modifies dst
      ensures Margins(regions) == old(Margins(regions))
      ensures var t := old(Texts(regions));
              Texts(regions) == t[j := Overwrite(t[j], at - regions[j].lo, src)]
    {
      hide Overwrite, Pooled;
      ghost var t0, was := Texts(regions), dst[..];
      MemCpy(dst, at, src);
      ghost var lo, hi := regions[j].lo, regions[j].hi;
      StoredText(was, dst[..], lo, hi, at, src);
      ghost var t1 := Texts(regions);
      forall i | 0 <= i < |regions| && i != j ensures t1[i] == t0[i] {
        assert regions[i].a != dst;
      }
      assert was[lo..hi] == t0[j] && dst[..][lo..hi] == t1[j];
      forall i | 0 <= i < |regions| ensures Margins(regions)[i] == old(Margins(regions)[i]) {
        if i == j {
          assert dst[..lo] == old(dst[..lo]) && dst[hi..] == old(dst[hi..]);
        } else {
          assert regions[i].a != dst;
        }
      }
    }

    /** memcpy into the current buffer. */
    method Store(at: nat, src: seq<byte>)
      requires Valid() && init <= at && at + |src| <= final
      modifies Arrays(regions)
      ensures Valid() && Margins(regions) == old(Margins(regions)) && View() == Stored(old(View()), at - init, src)
    {
      hide Overwrite, Texts, Separate, Margins, Rem, Cursor.Valid, Cursor.LastDividesOffset;
      ghost var t := Texts(regions);
      Write(used, buf, at, src);
      Around(t, used, Overwrite(t[used], at - init, src));
    }

    /** ucdr_advance_buffer. */
    method AdvanceBuffer(size: nat)
      requires Valid()
      modifies this
      ensures Valid() && endianness == old(endianness)
      ensures View() == Advance(old(View()), size)
    {
      hide CheckFinal, Cursor.Mem, Cursor.Pos, SkipLoop, Valid, View;
      if !error && iterator_ + size <= final {
        Move(size, 1);
      } else {
        ghost var start, v := View(), View();
        var remaining := size;
        var k := NextRoom(remaining);
        while 0 < k
          invariant Valid() && endianness == old(endianness)
          invariant View() == CheckFinalArray(v, remaining) && k == Room(View(), remaining) && v.Valid()
          invariant SkipLoop(start, size) == SkipLoop(v, remaining)
          decreases remaining
        {
          SkipLoopUnrolls(v, remaining);
          remaining := remaining - k;
          Move(k, 1);
          v := View();
          k := NextRoom(remaining);
        }
        SkipLoopUnrolls(v, remaining);
        Move(0, 1);
      }
    }

    /** UCDR_SERIALIZE_BYTE_1. */
    method SerializeByte(value: byte) returns (ok: bool)
      requires Valid()
      modifies this, Arrays(regions)
      ensures Valid() && Margins(regions) == old(Margins(regions)) && endianness == old(endianness) && ok == !error
      ensures View() == Serialize(old(View()), MACHINE, [value])
    {
      hide View, Valid, Cursor.LastDividesOffset, Overwrite, CheckFinal, Separate, Serialize;
      SerializeByteIs(View(), value);
      ok := CheckFinalBehavior();
      if ok {
        Store(iterator_, [value]);
        Move(1, 1);
      }
    }

    /** The branch of UCDR_SERIALIZE_BYTE_N for a value that does not fit before the end of the buffer. */
    method SerializeSplit(order: Endianness, image: seq<byte>, last: nat)
      requires Valid() && lastDataSize == 1 && IsSize(|image|)
      requires order == MACHINE || !Place(View(), |image|, last).1.Split?
      requires error || iterator_ + |image| > final
      requires final > iterator_ && (!error ==> Rem(offset + |image|, |image|) == 0)
      modifies this, Arrays(regions)
      ensures Valid() && Margins(regions) == old(Margins(regions)) && endianness == old(endianness)
      ensures var (r, slot) := Place(old(View()), |image|, last);
              SlotFits(r, slot, |image|) && View() == Fill(r, slot, Wire(order, image))
    {
      hide View, Cursor.Valid, Cursor.LastDividesOffset, Overwrite, Texts, Separate, Margins, CheckFinal, SlotFits, Place, Fill, Rem;
      ghost var a := View();
      PlaceSplitIs(a, |image|, last);
      var firstBuf, firstAt, first := buf, iterator_, final - iterator_;
      assert regions[used] == Region(firstBuf, init, final);
      Move(first, 1);
      assert View() == Moved(a, first);
      var ok := CheckFinalBehavior();
      if ok {
        StoreAcross(firstBuf, firstAt, first, image);
      } else {
        Restore(first, last);
        NothingFilled(View(), Wire(order, image));
      }
    }

    lemma NothingFilled(v: Cursor, w: seq<byte>)
      ensures SlotFits(v, NoSlot, |w|) && Fill(v, NoSlot, w) == v
    {
    }

    /** The two memcpy calls for a value that is split over two buffers. */
    method StoreAcross(firstBuf: array<byte>, firstAt: nat, first: nat, image: seq<byte>)
      requires Valid() && !error && used > 0 && iterator_ == init && IsSize(|image|) && final - init >= 8
      requires var r := regions[used - 1]; r.a == firstBuf && r.lo <= firstAt && firstAt + first == r.hi
      requires 0 < first < |image| && Rem(offset + |image| - first, |image|) == 0
      modifies this, Arrays(regions)
      ensures Valid() && Margins(regions) == old(Margins(regions)) && endianness == old(endianness)
      ensures var r := Moved(old(View()), |image| - first).(last := |image|);
              SlotFits(r, Split(first), |image|) && View() == Fill(r, Split(first), image)
    {
      hide Cursor.Valid, Overwrite, Texts, Fill, Stored, Moved, SlotFits, Rem, Margins;
      ghost var v, t, i := View(), Texts(regions), used - 1;
      Write(i, firstBuf, firstAt, image[..first]);
      ghost var d := Overwrite(t[i], |t[i]| - first, image[..first]);
      assert t[i := d][..used] == t[..used][i := d] && t[i := d][used + 1..] == t[used + 1..];
      assert View() == v.(done := v.done[i := d]);
      FillSplitIs(v, image, first);
      WriteOn(image, first);
    }

    method WriteOn(image: seq<byte>, first: nat)
      requires Valid() && !error && iterator_ == init && IsSize(|image|) && final - init >= 8
      requires 0 < first < |image| && Rem(offset + |image| - first, |image|) == 0
      modifies this, Arrays(regions)
      ensures Valid() && Margins(regions) == old(Margins(regions)) && endianness == old(endianness)
      ensures View() == Moved(Stored(old(View()), 0, image[first..]), |image| - first).(last := |image|)
    {
      hide View, Overwrite, Texts, Separate, Rem;
      Store(iterator_, image[first..]);
      Move(|image| - first, |image|);
    }

    method Restore(n: nat, last: nat)
      requires Valid() && error && init + n <= iterator_ && n <= offset
      modifies `iterator_, `offset, `lastDataSize
      ensures Valid() && error
      ensures var v := old(View()); View() == v.(it := v.it - n, offset := v.offset - n, last := last)
    {
      hide Rem, Texts, Separate, Arrays;
      iterator_, offset, lastDataSize := iterator_ - n, offset - n, last;
      assert Texts(regions) == old(Texts(regions));
    }

    method StoreHere(w: seq<byte>)
      requires Valid() && iterator_ + |w| <= final && IsSize(|w|)
      requires !error ==> Rem(offset + |w|, |w|) == 0
      modifies this, Arrays(regions)
      ensures Valid() && Margins(regions) == old(Margins(regions)) && endianness == old(endianness)
      ensures var v := old(View()); View() == Moved(Stored(v, v.it, w), |w|).(last := |w|)
    {
      hide View, Valid, Overwrite, Separate;
      assert View().Valid();
      Store(iterator_, w);
      Move(|w|, |w|);
    }

    /** UCDR_SERIALIZE_BYTE_N after the padding. */
    method PlaceValue(order: Endianness, image: seq<byte>, last: nat)
      requires Valid() && lastDataSize == 1 && IsSize(|image|)
      requires order == MACHINE || !Place(View(), |image|, last).1.Split?
      requires !error ==> Rem(offset + |image|, |image|) == 0
      modifies this, Arrays(regions)
      ensures Valid() && Margins(regions) == old(Margins(regions)) && endianness == old(endianness)
      ensures var (r, slot) := Place(old(View()), |image|, last);
              SlotFits(r, slot, |image|) && View() == Fill(r, slot, Wire(order, image))
    {
      hide View, Valid, Cursor.Mem, Cursor.Pos, Cursor.LastDividesOffset, Overwrite, Separate, CheckFinal, Rem;
      PlaceAbs(View(), |image|, last);
      if !error && iterator_ + |image| <= final {
        StoreHere(Wire(order, image));
      } else if final > iterator_ {
        SerializeSplit(order, image, last);
      } else {
        var more := CheckFinalBehavior();
        if more {
          StoreHere(Wire(order, image));
        }
      }
    }

    /** UCDR_SERIALIZE_BYTE_N. */
    method SerializeValue(order: Endianness, image: seq<byte>) returns (ok: bool)
      requires Valid() && IsSize(|image|) && |image| != 1 && Unsplit(View(), order, |image|)
      modifies this, Arrays(regions)
      ensures Valid() && Margins(regions) == old(Margins(regions)) && endianness == old(endianness) && ok == !error
      ensures View() == Serialize(old(View()), order, image)
    {
      hide View, Valid, Separate, Advance, Place, Fill, SlotFits, Serialize, ShortAlignment, Rem;
      SerializeIs(View(), order, image);
      var last := lastDataSize;
      AdvanceBuffer(ShortAlignment(offset, lastDataSize, |image|));
      PlaceValue(order, image, last);
      ok := !error;
    }

    /** The next `n` bytes of the current buffer. */
    function Peek(n: nat): seq<byte>
      requires Valid() && iterator_ + n <= final
      reads this, Arrays(regions)
    {
      buf[iterator_..iterator_ + n]
    }

    lemma PeekIs(n: nat)
      requires Valid() && iterator_ + n <= final
      ensures var v := View(); v.it + n <= |v.cur| && Peek(n) == v.cur[v.it..v.it + n]
    {
      hide Rem, Arrays, Cursor.Valid;
      assert View().cur == buf[init..final];
      SliceOfSlice(buf, init, final, iterator_, iterator_ + n);
    }

    /** UCDR_DESERIALIZE_BYTE_1; on an error the target keeps its value `was`. */
    method DeserializeByte(was: byte) returns (ok: bool, value: byte)
      requires Valid()
      modifies this
      ensures Valid() && endianness == old(endianness) && ok == !error
      ensures Deserialize(old(View()), MACHINE, 1) == (View(), if ok then [value] else [])
      ensures !ok ==> value == was
    {
      hide View, Valid, Deserialize, CheckFinal, Separate;
      DeserializeByteIs(View());
      ok := CheckFinalBehavior();
      value := was;
      assert View().Valid();
      if ok {
        PeekIs(1);
        value := Peek(1)[0];
        Move(1, 1);
      }
    }

    /** UCDR_DESERIALIZE_BYTE_N after the padding; empty when nothing was read. */
    method FetchValue(n: nat, last: nat) returns (w: seq<byte>)
      requires Valid() && lastDataSize == 1 && IsSize(n)
      requires !error ==> Rem(offset + n, n) == 0
      modifies this
      ensures Valid() && endianness == old(endianness)
      ensures var (r, slot) := Place(old(View()), n, last);
              SlotFits(r, slot, n) && (View(), w) == (r, Fetch(r, slot, n))
    {
      hide View, Valid, Cursor.Mem, Cursor.Pos, Cursor.LastDividesOffset, Separate, CheckFinal, Rem;
      PlaceAbs(View(), n, last);
      assert View().Valid();
      w := [];
      if !error && iterator_ + n <= final {
        PeekIs(n);
        w := Peek(n);
        Move(n, n);
      } else if final > iterator_ {
        w := FetchSplit(n, last);
      } else {
        var more := CheckFinalBehavior();
        assert View().Valid();
        if more {
          PeekIs(n);
        w := Peek(n);
          Move(n, n);
        }
      }
    }

    method FetchSplit(n: nat, last: nat) returns (w: seq<byte>)
      requires Valid() && lastDataSize == 1 && IsSize(n) && final > iterator_ && (error || iterator_ + n > final)
      requires !error ==> Rem(offset + n, n) == 0
      modifies this
      ensures Valid() && endianness == old(endianness)
      ensures var (r, slot) := Place(old(View()), n, last);
              SlotFits(r, slot, n) && (View(), w) == (r, Fetch(r, slot, n))
    {
      hide View, Valid, Cursor.Valid, Separate, Rem, Place, Fetch, SlotFits, CheckFinal;
      ghost var a := View();
      PlaceSplitIs(a, n, last);
      var first := final - iterator_;
      PeekIs(first);
      var head := Peek(first);
      assert a.cur[a.it..] == head;
      Move(first, 1);
      assert View() == Moved(a, first);
      var more := CheckFinalBehavior();
      if more {
        PeekIs(n - first);
        var tail := Peek(n - first);
        assert View().cur[..n - first] == tail;
        w := head + tail;
        Move(n - first, n);
      } else {
        w := [];
        Restore(first, last);
      }
    }

    /** UCDR_DESERIALIZE_BYTE_N; on an error the target keeps its image `was`. */
    method DeserializeValue(order: Endianness, was: seq<byte>) returns (ok: bool, image: seq<byte>)
      requires Valid() && IsSize(|was|) && |was| != 1 && Unsplit(View(), order, |was|)
      modifies this
      ensures Valid() && endianness == old(endianness) && ok == !error && |image| == |was|
      ensures Deserialize(old(View()), order, |was|) == (View(), if ok then image else [])
      ensures !ok ==> image == was
    {
      hide View, Valid, Separate, Advance, Place, Fetch, Deserialize, ShortAlignment, Rem;
      var n, last := |was|, lastDataSize;
      ghost var c := View();
      DeserializeIs(c, order, n);
      DeserializeAbs(c, order, n);
      AdvanceBuffer(ShortAlignment(offset, lastDataSize, n));
      var w := FetchValue(n, last);
      ok := !error;
      image := if ok then Wire(order, w) else was;
    }

    /** ucdr_reset_buffer_offset, and with `at` zero ucdr_reset_buffer. */
    method Reset(at: nat)
      requires Valid() && init + at <= final
      modifies `iterator_, `offset, `lastDataSize, `error
      ensures Valid() && iterator_ == init + at && offset == origin + at && lastDataSize == 0 && !error
      ensures View() == ResetTo(old(View()), origin, at)
    {
      hide Texts, Separate, Arrays, Rem;
      iterator_, offset, lastDataSize, error := init + at, origin + at, 0, false;
      assert Texts(regions) == old(Texts(regions));
    }

    /** ucdr_align_to. */
    method Align(size: nat)
      requires Valid() && IsSize(size)
      modifies `iterator_, `offset, `lastDataSize
      ensures Valid() && View() == AlignTo(old(View()), size)
    {
      hide Texts, Separate, Arrays, Rem, ShortAlignment, Cursor.Valid;
      AlignKeeps(View(), size);
      var alignment := ShortAlignment(offset, lastDataSize, size);
      AlignDivides(View(), size);
      var it := iterator_ + alignment;
      iterator_, offset, lastDataSize := if it > final then final else it, offset + alignment, size;
      assert Texts(regions) == old(Texts(regions));
    }

    method SetLast(size: nat)
      requires Valid() && (!error && size != 0 ==> IsSize(size) && Rem(offset, size) == 0)
      modifies `lastDataSize
      ensures Valid() && View() == old(View()).(last := size)
    {
      hide Texts, Separate, Arrays, Rem;
      lastDataSize := size;
      assert Texts(regions) == old(Texts(regions));
    }

    method SetError()
      requires Valid()
      modifies `error
      ensures Valid() && View() == old(View()).(error := true)
    {
      hide Texts, Separate, Arrays, Rem;
      error := true;
      assert Texts(regions) == old(Texts(regions));
    }

    /** memcpy of `data` to the cursor, which moves behind it. */
    method StoreBlock(data: seq<byte>)
      requires Valid() && iterator_ + |data| <= final
      modifies this, Arrays(regions)
      ensures Valid() && Margins(regions) == old(Margins(regions)) && endianness == old(endianness)
      ensures var v := old(View()); View() == Moved(Stored(v, v.it, data), |data|).(last := 1)
    {
      hide View, Valid, Overwrite, Separate;
      assert View().Valid();
      Store(iterator_, data);
      Move(|data|, 1);
    }

    /** ucdr_array_to_buffer. */
    method CopyToBuffer(array_: seq<byte>, size: nat)
      requires Valid() && IsSize(size)
      requires !error ==> Rem(offset, size) == 0 && Rem(offset + |array_|, size) == 0
      modifies this, Arrays(regions)
      ensures Valid() && Margins(regions) == old(Margins(regions)) && endianness == old(endianness)
      ensures View() == ArrayToBuffer(old(View()), array_, size)
    {
      hide View, Valid, Overwrite, Separate, CheckFinal, CopyInLoop, Rem, Cursor.LastDividesOffset, Sizes, Cursor.Mem, Cursor.Pos;
      ghost var start := View();
      ArrayToBufferAbs(start, array_, size);
      if !error && iterator_ + |array_| <= final {
        StoreBlock(array_);
      } else {
        CopyLoopToBuffer(array_);
      }
      SetLast(size);
    }

    method CopyLoopToBuffer(array_: seq<byte>)
      requires Valid()
      modifies this, Arrays(regions)
      ensures Valid() && Margins(regions) == old(Margins(regions)) && endianness == old(endianness)
      ensures View() == CopyInLoop(old(View()), array_)
    {
      hide View, Overwrite, Separate, CheckFinal, CopyInLoop, Rem, Cursor.LastDividesOffset, Cursor.Mem, Cursor.Pos;
      ghost var start, v := View(), View();
      var rest := array_;
      var k := NextRoom(|rest|);
      while 0 < k
        invariant Valid() && Margins(regions) == old(Margins(regions)) && endianness == old(endianness)
        invariant v.Valid() && View() == CheckFinalArray(v, |rest|) && k == Room(View(), |rest|)
        invariant CopyInLoop(start, array_) == CopyInLoop(v, rest)
        decreases |rest|
      {
        CopyInLoopUnrolls(v, rest);
        StoreBlock(rest[..k]);
        v := View();
        rest := rest[k..];
        k := NextRoom(|rest|);
      }
      CopyInLoopUnrolls(v, rest);
    }

    /** ucdr_buffer_to_array; what is copied out. */
    method CopyFromBuffer(n: nat, size: nat) returns (data: seq<byte>)
      requires Valid() && IsSize(size)
      requires !error ==> Rem(offset, size) == 0 && Rem(offset + n, size) == 0
      modifies this
      ensures Valid() && endianness == old(endianness)
      ensures (View(), data) == BufferToArray(old(View()), n, size)
    {
      hide View, Valid, Separate, CheckFinal, CopyOutLoop, Rem, Cursor.LastDividesOffset, Sizes, Cursor.Mem, Cursor.Pos;
      ghost var start := View();
      BufferToArrayAbs(start, n, size);
      assert View().Valid();
      if !error && iterator_ + n <= final {
        PeekIs(n);
        data := Peek(n);
        Move(n, 1);
      } else {
        data := CopyLoopFromBuffer(n);
      }
      SetLast(size);
    }

    method CopyLoopFromBuffer(n: nat) returns (data: seq<byte>)
      requires Valid()
      modifies this
      ensures Valid() && endianness == old(endianness)
      ensures (View(), data) == CopyOutLoop(old(View()), n)
    {
      hide View, Valid, Separate, CheckFinal, CopyOutLoop, Rem, Cursor.LastDividesOffset, Cursor.Mem, Cursor.Pos, Arrays;
      ghost var start, v := View(), View();
      var rest := n;
      data := [];
      assert data + CopyOutLoop(v, rest).1 == CopyOutLoop(v, rest).1;
      var k := NextRoom(rest);
      while 0 < k
        invariant Valid() && endianness == old(endianness)
        invariant v.Valid() && View() == CheckFinalArray(v, rest) && k == Room(View(), rest)
        invariant CopyOutLoop(start, n) == (CopyOutLoop(v, rest).0, data + CopyOutLoop(v, rest).1)
        decreases rest
      {
        CopyOutLoopUnrolls(v, rest);
        assert View().Valid();
        PeekIs(k);
        ghost var before := data;
        var part := Peek(k);
        data := data + part;
        Move(k, 1);
        v := View();
        ghost var more := CopyOutLoop(v, rest - k).1;
        assert before + (part + more) == data + more;
        rest := rest - k;
        k := NextRoom(rest);
      }
      CopyOutLoopUnrolls(v, rest);
      assert data + [] == data;
    }

    /** The padding before an array, after which the remembered data size is put back. */
    method PadArray(size: nat)
      requires Valid() && IsSize(size)
      modifies this
      ensures Valid() && endianness == old(endianness) && View() == ArrayPad(old(View()), size)
      ensures !error ==> Rem(offset, size) == 0
    {
      ArrayPadAbs(View(), size);
      hide View, Separate, Texts, Advance, ShortAlignment, Rem, Sizes, Cursor.Mem, Cursor.Pos;
      var last := lastDataSize;
      AdvanceBuffer(ShortAlignment(offset, lastDataSize, size));
      SetLast(last);
    }

    /** UCDR_SERIALIZE_ARRAY_BYTE_N and _1. */
    method SerializeElements(order: Endianness, size: nat, elems: seq<seq<byte>>)
      requires Valid() && IsSize(size) && Images(elems, size) && ArrayUnsplit(View(), order, size, elems)
      modifies this, Arrays(regions)
      ensures Valid() && Margins(regions) == old(Margins(regions)) && endianness == old(endianness)
      ensures View() == SerializeArray(old(View()), order, size, elems)
    {
      hide View, Valid, Separate, ArrayToBuffer, SerializeAll, AllUnsplit, ArrayPad, Flatten, Rem;
      FlattenImages(elems, size);
      if size == 1 {
        CopyToBuffer(Flatten(elems), 1);
      } else {
        ArrayPadValid(View(), size);
        PadArray(size);
        if order == MACHINE {
          if !error { Multiple(|elems|, size, offset); }
          CopyToBuffer(Flatten(elems), size);
        } else {
          SerializeEach(order, elems);
        }
      }
    }

    /** The element loop for the opposite byte order. */
    method SerializeEach(order: Endianness, elems: seq<seq<byte>>)
      requires Valid() && (forall e <- elems :: IsSize(|e|) && |e| != 1) && AllUnsplit(View(), order, elems)
      modifies this, Arrays(regions)
      ensures Valid() && Margins(regions) == old(Margins(regions)) && endianness == old(endianness)
      ensures View() == SerializeAll(old(View()), order, elems)
    {
      hide View, Separate, Serialize, Unsplit, Rem, Cursor.LastDividesOffset, Sizes, Cursor.Mem, Cursor.Pos;
      ghost var start := View();
      var i := 0;
      assert elems[0..] == elems;
      while i < |elems|
        invariant 0 <= i <= |elems|
        invariant Valid() && Margins(regions) == old(Margins(regions)) && endianness == old(endianness)
        invariant AllUnsplit(View(), order, elems[i..])
        invariant SerializeAll(start, order, elems) == SerializeAll(View(), order, elems[i..])
      {
        assert elems[i..][1..] == elems[i + 1..];
        var _ := SerializeValue(order, elems[i]);
        i := i + 1;
      }
    }

    /** UCDR_DESERIALIZE_ARRAY_BYTE_N and _1; the bytes stored into the target. */
    method DeserializeElements(order: Endianness, size: nat, n: nat) returns (data: seq<byte>)
      requires Valid() && IsSize(size) && ArrayUnsplitGet(View(), order, size, n)
      modifies this
      ensures Valid() && endianness == old(endianness)
      ensures (View(), data) == DeserializeArray(old(View()), order, size, n)
    {
      hide View, Valid, Separate, BufferToArray, DeserializeAll, AllUnsplitGet, ArrayPad, Rem;
      if size == 1 {
        data := CopyFromBuffer(n, 1);
      } else {
        ArrayPadValid(View(), size);
        PadArray(size);
        if order == MACHINE {
          if !error { Multiple(n, size, offset); }
          data := CopyFromBuffer(n * size, size);
        } else {
          data := DeserializeEach(order, size, n);
        }
      }
    }

    method DeserializeEach(order: Endianness, size: nat, n: nat) returns (data: seq<byte>)
      requires Valid() && IsSize(size) && size != 1 && AllUnsplitGet(View(), order, size, n)
      modifies this
      ensures Valid() && endianness == old(endianness)
      ensures (View(), data) == DeserializeAll(old(View()), order, size, n)
    {
      hide View, Valid, Separate, Deserialize, Unsplit, Rem, Cursor.Valid, Cursor.Mem, Cursor.Pos;
      ghost var start := View();
      var i := 0;
      data := [];
      assert data + DeserializeAll(start, order, size, n).1 == DeserializeAll(start, order, size, n).1;
      while i < n
        invariant 0 <= i <= n && Valid() && endianness == old(endianness) && AllUnsplitGet(View(), order, size, n - i)
        invariant var (r, more) := DeserializeAll(View(), order, size, n - i);
                  DeserializeAll(start, order, size, n) == (r, data + more)
      {
        ghost var before := data;
        var ok, image := DeserializeValue(order, seq(size, _ => 0));
        var part := if ok then image else [];
        data := data + part;
        ghost var more := DeserializeAll(View(), order, size, n - i - 1).1;
        assert before + (part + more) == data + more;
        i := i + 1;
      }
      assert data + [] == data;
    }

    /** ucdr_serialize_endian_sequence_TYPE. */
    method SerializeCounted(order: Endianness, size: nat, elems: seq<seq<byte>>)
      requires Valid() && IsSize(size) && Images(elems, size) && |elems| < 0x1_0000_0000
      requires SequenceUnsplit(View(), order, size, elems)
      modifies this, Arrays(regions)
      ensures Valid() && Margins(regions) == old(Margins(regions)) && endianness == old(endianness)
      ensures View() == SerializeSequence(old(View()), order, size, elems)
    {
      hide View, Separate, Serialize, SerializeArray, Unsplit, ArrayUnsplit, Cursor.LastDividesOffset, Sizes, Cursor.Mem, Cursor.Pos;
      var _ := SerializeValue(order, LE32(|elems|));
      if elems != [] {
        SerializeElements(order, size, elems);
      }
    }

    /** ucdr_deserialize_endian_sequence_TYPE. */
    method DeserializeCounted(order: Endianness, size: nat, capacity: nat, length: nat)
      returns (data: seq<byte>, n: nat)
      requires Valid() && IsSize(size) && length < 0x1_0000_0000
      requires SequenceUnsplitGet(View(), order, size, capacity, length)
      modifies this
      ensures Valid() && endianness == old(endianness)
      ensures (View(), data, n) == DeserializeSequence(old(View()), order, size, capacity, length)
    {
      hide View, Separate, Deserialize, DeserializeArray, Unsplit, ArrayUnsplitGet, Cursor.LastDividesOffset, Sizes, Cursor.Mem,
           Cursor.Pos;
      LE32RoundTrip(length);
      var ok, image := DeserializeValue(order, LE32(length));
      n := FromLE32(image);
      if n > capacity {
        SetError();
      }
      data := [];
      if n != 0 {
        data := DeserializeElements(order, size, n);
      }
    }
  }
}
