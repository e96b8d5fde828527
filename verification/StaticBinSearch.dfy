/**
 The static binary search: the recursion that the templates unfold over the constants
 `from` and `count`. The subtractions of the source are on `std::size_t`: where one may wrap around it is
 `SizeSub`, and every plain subtraction below is proved not to.
 */
module StaticBinSearch {
  import opened Options
  import opened IdTuples

  function MidIdx(from: nat, count: nat): nat {
    from + count / 2
  }

  // ---- Strictly sorted tuples --------------------------------------------------

  /** The right half keeps the midpoint. */
  function StrongSearch(ids: IdTuple, from: nat, count: nat, id: int): Option<nat>
    requires from + count <= |ids|
    decreases count
  {
    if count == 0 then None
    else if count == 1 then
      (if id != ids[from] then None else Some(from))
    else
      var mid := MidIdx(from, count);
      if id < ids[mid] then StrongSearch(ids, from, mid - from, id)
      else if ids[mid] < id then StrongSearch(ids, mid, count - (mid - from), id)
      else Some(mid)
  }

  /** The same recursion, counting the types with the ID. */
  function StrongTypeCount(ids: IdTuple, from: nat, count: nat, id: int): nat
    requires from + count <= |ids|
    decreases count
  {
    if count == 0 then 0
    else if count == 1 then (if id != ids[from] then 0 else 1)
    else
      var mid := MidIdx(from, count);
      if id < ids[mid] then StrongTypeCount(ids, from, mid - from, id)
      else if ids[mid] < id then StrongTypeCount(ids, mid, count - (mid - from), id)
      else 1
  }

  /** Whatever range is left, the searches find the one type with the ID if it is inside. */
  lemma {:induction false} StrongSearchFinds(ids: IdTuple, from: nat, count: nat, id: int, at: nat)
    requires from + count <= |ids|
    requires StrongSorted(ids)
    requires at <= |ids|
    requires at < |ids| ==> ids[at] == id && from <= at < from + count
    requires at == |ids| ==> id !in ids
    ensures StrongSearch(ids, from, count, id) == if at < |ids| then Some(at) else None
    ensures StrongTypeCount(ids, from, count, id) == if at < |ids| then 1 else 0
    decreases count
  {
    if count > 1 {
      var mid := MidIdx(from, count);
      assert at < |ids| ==> (mid < at ==> ids[mid] < id) && (at < mid ==> id < ids[mid]);
      hide StrongSorted;
      if id < ids[mid] {
        StrongSearchFinds(ids, from, mid - from, id, at);
      } else if ids[mid] < id {
        StrongSearchFinds(ids, mid, count - (mid - from), id, at);
      }
    }
  }

  // ---- Tuples in which types may share an ID -------------------------------------

  /** Going back from `idx` while the ID stays the same. */
  function WeakStartIdx(ids: IdTuple, idx: nat): (start: nat)
    requires idx < |ids|
    ensures start <= idx
  {
    if idx == 0 then 0
    else if ids[idx] == ids[idx - 1] then WeakStartIdx(ids, idx - 1)
    else idx
  }

  /** Going back stops at the start of the run. */
  lemma {:induction false} WeakStartIdxInRun(ids: IdTuple, idx: nat, lo: nat, hi: nat)
    requires idx < |ids|
    requires IsRun(ids, ids[idx], lo, hi)
    requires lo <= idx < hi
    ensures WeakStartIdx(ids, idx) == lo
  {
    if lo < idx {
      WeakStartIdxInRun(ids, idx - 1, lo, hi);
    }
  }

  function MidRangeStartIdx(ids: IdTuple, from: nat, count: nat): nat
    requires 0 < count && from + count <= |ids|
  {
    var tmp := WeakStartIdx(ids, MidIdx(from, count));
    if tmp >= from then tmp else from
  }

  /** The counter of the run in the middle, capped by `count - start`. The cap omits `from`;
      when `count < start` it wraps around to a huge number. */
  function MidRangeCount(ids: IdTuple, from: nat, count: nat): nat
    requires 0 < count && from + count <= |ids|
  {
    var start := MidRangeStartIdx(ids, from, count);
    var cap := SizeSub(count, start);
    var tmp := CountSameIds(ids, start, |ids| - start);
    if cap <= tmp then cap else tmp
  }

  /** What every range instantiated by the weak search satisfies: both ends lie between runs,
      and the range starts at zero or beyond its own length. */
  ghost predicate Reachable(ids: IdTuple, from: nat, count: nat) {
    && from + count <= |ids|
    && BetweenRuns(ids, from)
    && BetweenRuns(ids, from + count)
    && (from == 0 || count < from)
  }

  ghost predicate BetweenRuns(ids: IdTuple, i: nat) {
    0 < i < |ids| ==> ids[i - 1] != ids[i]
  }

  /** A run does not cross a boundary between runs. */
  lemma RunInside(ids: IdTuple, from: nat, to: nat, at: nat, lo: nat, hi: nat)
    requires from <= at < to <= |ids|
    requires BetweenRuns(ids, from) && BetweenRuns(ids, to)
    requires IsRun(ids, ids[at], lo, hi)
    ensures from <= lo && hi <= to
  {}

  lemma RunInSingle(ids: IdTuple, at: nat, id: int, lo: nat, hi: nat)
    requires at < |ids| && BetweenRuns(ids, at) && BetweenRuns(ids, at + 1)
    requires IsRun(ids, id, lo, hi)
    requires lo < hi ==> at <= lo && hi <= at + 1
    ensures if ids[at] == id then lo == at && hi == at + 1 else lo == hi
  {}

  /** In a reachable range the middle run is found exactly: the wrapping cap never cuts it
      short, it stays inside the range, and both parts that are left are reachable again. */
  lemma MidRangeExact(ids: IdTuple, from: nat, count: nat)
    requires WeakSorted(ids)
    requires 0 < count && Reachable(ids, from, count)
    ensures var mid := MidIdx(from, count);
            var start := MidRangeStartIdx(ids, from, count);
            var len := MidRangeCount(ids, from, count);
            && from <= start <= mid < start + len <= from + count
            && IsRun(ids, ids[mid], start, start + len)
            && Reachable(ids, from, start - from)
            && Reachable(ids, start + len, from + count - (start + len))
  {
    var mid := MidIdx(from, count);
    var start := MidRangeStartIdx(ids, from, count);
    var lo, hi := RunExists(ids, ids[mid]);
    RunInside(ids, from, from + count, mid, lo, hi);
    WeakStartIdxInRun(ids, mid, lo, hi);
    CountSameIdsInRun(ids, start, |ids| - start, lo, hi);
  }

  /** The search for (ID, offset). */
  function WeakSearch(ids: IdTuple, from: nat, count: nat, id: int, offset: nat): Option<nat>
    requires WeakSorted(ids)
    requires Reachable(ids, from, count)
    decreases count
  {
    if count == 0 then None
    else if count == 1 then
      (if offset != 0 then None else if id != ids[from] then None else Some(from))
    else
      var mid := MidIdx(from, count);
      var start := MidRangeStartIdx(ids, from, count);
      var midCount := MidRangeCount(ids, from, count);
      MidRangeExact(ids, from, count);
      if id < ids[mid] then
        WeakSearch(ids, from, start - from, id, offset)
      else if ids[mid] < id then
        var newStart := start + midCount;
        WeakSearch(ids, newStart, count - (newStart - from), id, offset)
      else if midCount <= offset then None
      else SearchOffset(start, midCount, offset)
  }

  /** The search inside a run. The right half starts again at `midOffset`, not at
      `from + midOffset`. */
  function SearchOffset(from: nat, count: nat, offset: nat): (r: Option<nat>)
    requires from + count < SIZE_T_RANGE
    ensures count == 0 || (count == 1 && offset != 0) ==> r == None
    decreases offset, count
  {
    if count == 0 then None
    else if count == 1 then (if offset != 0 then None else Some(from))
    else
      var midOffset := count / 2;
      if offset < midOffset then SearchOffset(from, midOffset, offset)
      else if midOffset < offset then
        SearchOffset(midOffset, SizeSub(count, SizeSub(midOffset, from)), offset - midOffset)
      else Some(MidIdx(from, count))
  }

  /** The search for the number of types with the ID. */
  function WeakTypeCount(ids: IdTuple, from: nat, count: nat, id: int): nat
    requires WeakSorted(ids)
    requires Reachable(ids, from, count)
    decreases count
  {
    if count == 0 then 0
    else if count == 1 then (if id != ids[from] then 0 else 1)
    else
      var mid := MidIdx(from, count);
      var start := MidRangeStartIdx(ids, from, count);
      var midCount := MidRangeCount(ids, from, count);
      MidRangeExact(ids, from, count);
      if id < ids[mid] then
        WeakTypeCount(ids, from, start - from, id)
      else if ids[mid] < id then
        var newStart := start + midCount;
        WeakTypeCount(ids, newStart, count - (newStart - from), id)
      else midCount
  }

  /** The middle run and the run of any ID do not overlap, or they are the same. */
  lemma RunInHalf(ids: IdTuple, from: nat, count: nat, id: int, lo: nat, hi: nat)
    requires WeakSorted(ids)
    requires 0 < count && Reachable(ids, from, count)
    requires IsRun(ids, id, lo, hi)
    ensures var mid := MidIdx(from, count);
            var start := MidRangeStartIdx(ids, from, count);
            var next := start + MidRangeCount(ids, from, count);
            && start <= mid < next <= |ids|
            && ids[start] == ids[mid]
            && (id < ids[mid] ==> hi <= start)
            && (ids[mid] < id ==> next <= lo)
            && (id == ids[mid] ==> lo == start && hi == next)
  {
    var mid := MidIdx(from, count);
    var start := MidRangeStartIdx(ids, from, count);
    var next := start + MidRangeCount(ids, from, count);
    MidRangeExact(ids, from, count);
    RunsOrdered(ids, id, lo, hi, ids[mid], start, next);
    RunsOrdered(ids, ids[mid], start, next, id, lo, hi);
  }

  lemma WeakTypeCountUnfold(ids: IdTuple, from: nat, count: nat, id: int)
    requires WeakSorted(ids)
    requires 1 < count && Reachable(ids, from, count)
    ensures var mid := MidIdx(from, count);
            var start := MidRangeStartIdx(ids, from, count);
            var next := start + MidRangeCount(ids, from, count);
            && from <= start <= mid < next <= from + count
            && Reachable(ids, from, start - from)
            && Reachable(ids, next, from + count - next)
            && WeakTypeCount(ids, from, count, id) ==
               (if id < ids[mid] then WeakTypeCount(ids, from, start - from, id)
                else if ids[mid] < id then WeakTypeCount(ids, next, from + count - next, id)
                else next - start)
  {
    MidRangeExact(ids, from, count);
  }

  /** One step of the counting search: either it goes to the side of the range where the run of
      the ID is, or it stands in the run. */
  lemma WeakTypeCountStep(ids: IdTuple, from: nat, count: nat, id: int, lo: nat, hi: nat)
    returns (start: nat, next: nat)
    requires WeakSorted(ids)
    requires 1 < count && Reachable(ids, from, count)
    requires IsRun(ids, id, lo, hi)
    ensures from <= start < next <= from + count <= |ids|
    ensures Reachable(ids, from, start - from) && Reachable(ids, next, from + count - next)
    ensures (id < ids[start] && hi <= start
             && WeakTypeCount(ids, from, count, id) == WeakTypeCount(ids, from, start - from, id))
         || (ids[start] < id && next <= lo
             && WeakTypeCount(ids, from, count, id) == WeakTypeCount(ids, next, from + count - next, id))
         || (id == ids[start] && lo == start && hi == next
             && WeakTypeCount(ids, from, count, id) == hi - lo)
  {
    hide *;
    RunInHalf(ids, from, count, id, lo, hi);
    WeakTypeCountUnfold(ids, from, count, id);
    start := MidRangeStartIdx(ids, from, count);
    next := start + MidRangeCount(ids, from, count);
  }

  lemma WeakTypeCountLeaf(ids: IdTuple, from: nat, count: nat, id: int, lo: nat, hi: nat)
    requires WeakSorted(ids)
    requires count <= 1 && Reachable(ids, from, count)
    requires IsRun(ids, id, lo, hi)
    requires lo < hi ==> from <= lo && hi <= from + count
    ensures WeakTypeCount(ids, from, count, id) == hi - lo
  {
    if count == 1 {
      RunInSingle(ids, from, id, lo, hi);
    }
  }

  /** Whatever reachable range is left, if the run of the ID is inside it then the counting search
      returns its length. */
  lemma {:induction false} WeakTypeCountFinds(
      ids: IdTuple, from: nat, count: nat, id: int, lo: nat, hi: nat)
    requires WeakSorted(ids)
    requires Reachable(ids, from, count)
    requires IsRun(ids, id, lo, hi)
    requires lo < hi ==> from <= lo && hi <= from + count
    ensures WeakTypeCount(ids, from, count, id) == hi - lo
    decreases count
  {
    hide *;
    if count <= 1 {
      WeakTypeCountLeaf(ids, from, count, id, lo, hi);
    } else {
      var start, next := WeakTypeCountStep(ids, from, count, id, lo, hi);
      if id < ids[start] {
        WeakTypeCountFinds(ids, from, start - from, id, lo, hi);
      } else if ids[start] < id {
        WeakTypeCountFinds(ids, next, from + count - next, id, lo, hi);
      }
    }
  }

  lemma WeakSearchUnfold(ids: IdTuple, from: nat, count: nat, id: int, offset: nat)
    requires WeakSorted(ids)
    requires 1 < count && Reachable(ids, from, count)
    ensures var mid := MidIdx(from, count);
            var start := MidRangeStartIdx(ids, from, count);
            var next := start + MidRangeCount(ids, from, count);
            && from <= start <= mid < next <= from + count
            && Reachable(ids, from, start - from)
            && Reachable(ids, next, from + count - next)
            && WeakSearch(ids, from, count, id, offset) ==
               (if id < ids[mid] then WeakSearch(ids, from, start - from, id, offset)
                else if ids[mid] < id then WeakSearch(ids, next, from + count - next, id, offset)
                else if next - start <= offset then None
                else SearchOffset(start, next - start, offset))
  {
    MidRangeExact(ids, from, count);
  }

  /** One step of the search for a type. */
  lemma WeakSearchStep(ids: IdTuple, from: nat, count: nat, id: int, offset: nat, lo: nat, hi: nat)
    returns (start: nat, next: nat)
    requires WeakSorted(ids)
    requires 1 < count && Reachable(ids, from, count)
    requires IsRun(ids, id, lo, hi)
    ensures from <= start < next <= from + count <= |ids|
    ensures Reachable(ids, from, start - from) && Reachable(ids, next, from + count - next)
    ensures (id < ids[start] && hi <= start
             && WeakSearch(ids, from, count, id, offset) == WeakSearch(ids, from, start - from, id, offset))
         || (ids[start] < id && next <= lo
             && WeakSearch(ids, from, count, id, offset) == WeakSearch(ids, next, from + count - next, id, offset))
         || (id == ids[start] && lo == start && hi == next
             && WeakSearch(ids, from, count, id, offset) ==
                (if offset < hi - lo then SearchOffset(lo, hi - lo, offset) else None))
  {
    hide *;
    RunInHalf(ids, from, count, id, lo, hi);
    WeakSearchUnfold(ids, from, count, id, offset);
    start := MidRangeStartIdx(ids, from, count);
    next := start + MidRangeCount(ids, from, count);
  }

  lemma WeakSearchLeaf(ids: IdTuple, from: nat, count: nat, id: int, offset: nat, lo: nat, hi: nat)
    requires WeakSorted(ids)
    requires count <= 1 && Reachable(ids, from, count)
    requires IsRun(ids, id, lo, hi)
    requires lo < hi ==> from <= lo && hi <= from + count
    ensures WeakSearch(ids, from, count, id, offset) ==
            if offset < hi - lo then SearchOffset(lo, hi - lo, offset) else None
  {
    if count == 1 {
      RunInSingle(ids, from, id, lo, hi);
    }
  }

  /** Likewise the search for a type reaches the run and then searches the offset inside it. */
  lemma {:induction false} WeakSearchFinds(
      ids: IdTuple, from: nat, count: nat, id: int, offset: nat, lo: nat, hi: nat)
    requires WeakSorted(ids)
    requires Reachable(ids, from, count)
    requires IsRun(ids, id, lo, hi)
    requires lo < hi ==> from <= lo && hi <= from + count
    ensures WeakSearch(ids, from, count, id, offset) ==
            if offset < hi - lo then SearchOffset(lo, hi - lo, offset) else None
    decreases count
  {
    hide *;
    if count <= 1 {
      WeakSearchLeaf(ids, from, count, id, offset, lo, hi);
    } else {
      var start, next := WeakSearchStep(ids, from, count, id, offset, lo, hi);
      if id < ids[start] {
        WeakSearchFinds(ids, from, start - from, id, offset, lo, hi);
      } else if ids[start] < id {
        WeakSearchFinds(ids, next, from + count - next, id, offset, lo, hi);
      }
    }
  }

  // ---- When the offset search lands on the right type ---------------------------------

  /** `count` halved `k` times. */
  function Halved(count: nat, k: nat): (r: nat)
    ensures r <= count
  {
    if k == 0 then count else Halved(count / 2, k - 1)
  }

  /** The offsets met by halving `count` at least once; zero is always among them. */
  ghost predicate OnHalvings(count: nat, offset: nat) {
    exists k: nat :: 0 < k && Halved(count, k) == offset
  }

  /** An offset strictly between two successive halvings of `count`, at a distance from the
      lower one that is on the halvings of the gap. */
  ghost predicate InGap(count: nat, k: nat, offset: nat) {
    && Halved(count, k + 1) < offset < Halved(count, k)
    && OnHalvings(Halved(count, k) - Halved(count, k + 1), offset - Halved(count, k + 1))
  }

  /** The offsets that the search inside a run serves: the halvings of the length of the run,
      and for the run at the front of the tuple also those in the gaps between halvings. */
  ghost predicate Served(from: nat, count: nat, offset: nat) {
    OnHalvings(count, offset) || (from == 0 && exists k: nat :: InGap(count, k, offset))
  }

  lemma {:induction false} HalvedShrinks(count: nat, k: nat)
    ensures Halved(count, k) <= count
    ensures 0 < k && 0 < count ==> Halved(count, k) <= count / 2
  {
    if k > 0 {
      HalvedShrinks(count / 2, k - 1);
    }
  }

  lemma {:induction false} ZeroOnHalvings(count: nat)
    ensures OnHalvings(count, 0)
  {
    if count <= 1 {
      assert Halved(count, 1) == 0;
    } else {
      ZeroOnHalvings(count / 2);
      var k: nat :| 0 < k && Halved(count / 2, k) == 0;
      assert Halved(count, k + 1) == 0;
    }
  }

  /** One step of the halving chain. */
  lemma OnHalvingsStep(count: nat, offset: nat)
    requires 2 <= count && offset < count
    ensures OnHalvings(count, offset) <==> offset == count / 2 || (offset < count / 2 && OnHalvings(count / 2, offset))
  {
    if OnHalvings(count, offset) {
      var k: nat :| 0 < k && Halved(count, k) == offset;
      HalvedShrinks(count, k);
      if k == 1 {
        assert Halved(count / 2, 0) == count / 2;
      } else {
        assert Halved(count / 2, k - 1) == offset;
        HalvedShrinks(count / 2, k - 1);
        assert count / 2 >= 1;
      }
    }
    if offset == count / 2 {
      assert Halved(count / 2, 0) == count / 2;
      assert Halved(count, 1) == offset;
    }
    if OnHalvings(count / 2, offset) {
      var k: nat :| 0 < k && Halved(count / 2, k) == offset;
      assert Halved(count, k + 1) == offset;
    }
  }

  lemma InGapShift(count: nat, k: nat, offset: nat)
    ensures InGap(count, k + 1, offset) <==> InGap(count / 2, k, offset)
  {}

  /** The gaps one halving at a time: the first gap lies above `count / 2`, the others are
      those of `count / 2`. */
  lemma InGapStep(count: nat, offset: nat)
    requires 2 <= count && offset < count && offset != count / 2
    ensures (exists k: nat :: InGap(count, k, offset)) <==>
            if offset < count / 2 then exists k: nat :: InGap(count / 2, k, offset)
            else OnHalvings(count - count / 2, offset - count / 2)
  {
    var half := count / 2;
    assert Halved(half, 0) == half;
    assert InGap(count, 0, offset) <==> (half < offset && OnHalvings(count - half, offset - half));
    if k: nat :| InGap(half, k, offset) {
      HalvedShrinks(half, k);
      InGapShift(count, k, offset);
    }
    if k: nat :| InGap(count, k, offset) {
      if k > 0 {
        InGapShift(count, k - 1, offset);
        HalvedShrinks(half, k - 1);
      }
    }
  }

  /** The offset search always lands on a type of the range's own prefix, and never beyond the
      wanted one. */
  lemma {:induction false} SearchOffsetBounds(from: nat, count: nat, offset: nat)
    requires from + count < SIZE_T_RANGE
    requires offset < count
    ensures var r := SearchOffset(from, count, offset);
            r.Some? && r.value <= from + offset
    decreases offset, count
  {
    if count > 1 {
      var midOffset := count / 2;
      if offset < midOffset {
        SearchOffsetBounds(from, midOffset, offset);
      } else if midOffset < offset {
        SearchOffsetBounds(midOffset, count - midOffset + from, offset - midOffset);
      }
    }
  }

  lemma FirstServed(from: nat)
    ensures Served(from, 1, 0)
  {
    ZeroOnHalvings(1);
  }

  /** The served offsets one halving at a time. */
  lemma ServedStep(from: nat, count: nat, offset: nat)
    requires 2 <= count && offset < count
    ensures var half := count / 2;
            Served(from, count, offset) <==>
            (if offset == half then true
             else if offset < half then Served(from, half, offset)
             else from == 0 && Served(half, count - half, offset - half))
  {
    OnHalvingsStep(count, offset);
    if offset != count / 2 {
      InGapStep(count, offset);
    }
    hide OnHalvings, InGap;
  }

  /** Exactly when the offset search lands on the wanted type: the right half loses `from`,
      so a run away from the front must never take it. */
  lemma {:induction false} SearchOffsetExact(from: nat, count: nat, offset: nat)
    requires from + count < SIZE_T_RANGE
    requires offset < count
    ensures SearchOffset(from, count, offset) == Some(from + offset) <==> Served(from, count, offset)
    decreases offset, count
  {
    hide Served;
    if count == 1 {
      FirstServed(from);
    } else {
      var midOffset := count / 2;
      ServedStep(from, count, offset);
      if offset < midOffset {
        SearchOffsetExact(from, midOffset, offset);
      } else if midOffset < offset {
        SearchOffsetBounds(midOffset, count - midOffset + from, offset - midOffset);
        if from == 0 {
          SearchOffsetExact(midOffset, count - midOffset, offset - midOffset);
        }
      }
    }
  }

  /** Where the search ends for an offset between two successive halvings of `count`: it goes left
      until the lower halving is in the middle, then right, and goes on from there. With the middle
      of a range being served, this says where it ends for every offset. */
  lemma {:induction false} SearchOffsetInGap(from: nat, count: nat, offset: nat, k: nat)
    requires from + count < SIZE_T_RANGE
    requires Halved(count, k + 1) < offset < Halved(count, k)
    ensures var lower := Halved(count, k + 1);
            SearchOffset(from, count, offset) ==
            SearchOffset(lower, from + Halved(count, k) - lower, offset - lower)
    decreases k
  {
    if 0 < k {
      HalvedShrinks(count, k);
      SearchOffsetInGap(from, count / 2, offset, k - 1);
      hide Halved;
      assert offset < count / 2;
    }
  }

  /** A run away from the front misses its last offset as soon as it has three types. */
  lemma LastOffsetMissed(from: nat, count: nat)
    requires 0 < from && 3 <= count && from + count < SIZE_T_RANGE
    ensures SearchOffset(from, count, count - 1) != Some(from + count - 1)
  {
    var midOffset := count / 2;
    SearchOffsetBounds(midOffset, count - midOffset + from, count - 1 - midOffset);
  }

  /** In a run that is longer, the last offset is always missed. */
  lemma LastOffsetExact(from: nat, count: nat)
    requires 0 < count && from + count < SIZE_T_RANGE
    ensures SearchOffset(from, count, count - 1) == Some(from + (count - 1)) <==>
            count <= 2 || (from == 0 && count <= 4)
  {
    if from == 0 && 4 < count {
      LastOffsetMissed(count / 2, count - count / 2);
    } else if 0 < from && 2 < count {
      LastOffsetMissed(from, count);
    }
  }

  lemma ShortRunServed(from: nat, count: nat, offset: nat)
    requires from + count < SIZE_T_RANGE
    requires offset < count && (count <= 2 || (from == 0 && count <= 4))
    ensures SearchOffset(from, count, offset) == Some(from + offset)
  {}

  /** Every offset of a run is served exactly for runs of at most two types, and for the run
      at the front of the tuple up to four. */
  lemma RunServed(from: nat, count: nat)
    requires from + count < SIZE_T_RANGE
    ensures (forall offset: nat :: offset < count ==> SearchOffset(from, count, offset) == Some(from + offset))
       <==> (count <= 2 || (from == 0 && count <= 4))
  {
    hide SearchOffset;
    if count <= 2 || (from == 0 && count <= 4) {
      forall offset: nat | offset < count
        ensures SearchOffset(from, count, offset) == Some(from + offset)
      {
        ShortRunServed(from, count, offset);
      }
    } else {
      var last: nat := count - 1;
      LastOffsetExact(from, count);
      assert SearchOffset(from, count, last) != Some(from + last);
      assert !forall offset: nat :: offset < count ==> SearchOffset(from, count, offset) == Some(from + offset);
    }
  }

  // ---- Entry points -----------------------------------------------------------------

  /** The indexed entry point. */
  function Dispatch(ids: IdTuple, id: int, offset: nat): Option<nat>
    requires WeakSorted(ids)
  {
    if |ids| == 0 then None
    else if AllMessagesAreStrongSorted(ids) then
      (if offset != 0 then None else StrongSearch(ids, 0, |ids|, id))
    else WeakSearch(ids, 0, |ids|, id, offset)
  }

  /** The entry point without an index. */
  function DispatchFirst(ids: IdTuple, id: int): Option<nat>
    requires WeakSorted(ids)
  {
    if |ids| == 0 then None
    else if AllMessagesAreStrongSorted(ids) then StrongSearch(ids, 0, |ids|, id)
    else WeakSearch(ids, 0, |ids|, id, 0)
  }

  function TypeCount(ids: IdTuple, id: int): nat
    requires WeakSorted(ids)
  {
    if |ids| == 0 then 0
    else if AllMessagesAreStrongSorted(ids) then
      StrongTypeCount(ids, 0, |ids|, id)
    else WeakTypeCount(ids, 0, |ids|, id)
  }
}
