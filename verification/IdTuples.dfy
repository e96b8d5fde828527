/**
 A tuple of message types, seen as the sequence of their numeric IDs, and the reference
 meaning of "the type number `offset` among those with this ID".
 */
module IdTuples {
  import opened Options

  /** The number of values of `std::size_t`. */
  const SIZE_T_RANGE: nat := 0x1_0000_0000_0000_0000

  /** Unsigned subtraction on `std::size_t`. */
  function SizeSub(a: nat, b: nat): (r: nat)
    requires a < SIZE_T_RANGE && b < SIZE_T_RANGE
    ensures r < SIZE_T_RANGE && (b + r) % SIZE_T_RANGE == a
  {
    if b <= a then a - b else a - b + SIZE_T_RANGE
  }

  /** The values of the ID type, up to a 64-bit signed integer. */
  type MsgId = id: int | -0x8000_0000_0000_0000 <= id < 0x8000_0000_0000_0000

  /** A tuple the compiler can hold: eleven times its size, which is computed at compile time,
      is a `std::size_t`. */
  type IdTuple = ids: seq<MsgId> | 11 * |ids| < SIZE_T_RANGE

  ghost predicate WeakSorted(ids: seq<int>) {
    forall i, j :: 0 <= i < j < |ids| ==> ids[i] <= ids[j]
  }

  ghost predicate StrongSorted(ids: seq<int>) {
    forall i, j :: 0 <= i < j < |ids| ==> ids[i] < ids[j]
  }

  /** The compile-time check that walks over neighbours. */
  predicate AllMessagesAreStrongSorted(ids: seq<int>)
    ensures AllMessagesAreStrongSorted(ids) <==> StrongSorted(ids)
  {
    if |ids| <= 1 then true else ids[0] < ids[1] && AllMessagesAreStrongSorted(ids[1..])
  }

  predicate AllMessagesAreWeakSorted(ids: seq<int>)
    ensures AllMessagesAreWeakSorted(ids) <==> WeakSorted(ids)
  {
    if |ids| <= 1 then true else ids[0] <= ids[1] && AllMessagesAreWeakSorted(ids[1..])
  }

  // ---- The reference meaning -------------------------------------------------

  /** Scanning from `from`, skip `offset` types whose ID is `id` and select the next one. */
  function Select(ids: seq<int>, id: int, offset: nat, from: nat := 0): (r: Option<nat>)
    requires from <= |ids|
    decreases |ids| - from
  {
    if from == |ids| then None
    else if ids[from] != id then Select(ids, id, offset, from + 1)
    else if offset == 0 then Some(from)
    else Select(ids, id, offset - 1, from + 1)
  }

  /** How many types of the tuple have this ID. */
  function Occurrences(ids: seq<int>, id: int, from: nat := 0): nat
    requires from <= |ids|
    decreases |ids| - from
  {
    if from == |ids| then 0
    else (if ids[from] == id then 1 else 0) + Occurrences(ids, id, from + 1)
  }

  /** `Select` answers exactly when there are enough types with the ID, and then names the
      one that `offset` others precede. */
  lemma {:induction false} SelectMeaning(ids: seq<int>, id: int, offset: nat, from: nat)
    requires from <= |ids|
    ensures var r := Select(ids, id, offset, from);
            && (r.Some? <==> offset < Occurrences(ids, id, from))
            && (r.Some? ==>
                  && from <= r.value < |ids|
                  && ids[r.value] == id
                  && Occurrences(ids, id, from) == offset + Occurrences(ids, id, r.value))
    decreases |ids| - from
  {
    if from < |ids| {
      if ids[from] != id {
        SelectMeaning(ids, id, offset, from + 1);
      } else if offset > 0 {
        SelectMeaning(ids, id, offset - 1, from + 1);
      }
    }
  }

  // ---- Runs of equal IDs -----------------------------------------------------

  /** The types with this ID are exactly those at positions `lo` up to `hi`, with smaller
      IDs before and larger IDs after. An absent ID has the empty run at its place. */
  ghost predicate IsRun(ids: seq<int>, id: int, lo: nat, hi: nat) {
    && lo <= hi <= |ids|
    && (forall k :: 0 <= k < lo ==> ids[k] < id)
    && (forall k :: lo <= k < hi ==> ids[k] == id)
    && (forall k :: hi <= k < |ids| ==> id < ids[k])
  }

  ghost function CountBelow(ids: seq<int>, id: int): (lo: nat)
    requires WeakSorted(ids)
    ensures lo <= |ids|
    ensures forall k :: 0 <= k < |ids| ==> (k < lo <==> ids[k] < id)
  {
    if |ids| == 0 then 0
    else if ids[|ids| - 1] < id then |ids|
    else CountBelow(ids[..|ids| - 1], id)
  }

  /** Every ID has its run in a weakly sorted tuple. */
  lemma RunExists(ids: seq<int>, id: int) returns (lo: nat, hi: nat)
    requires WeakSorted(ids)
    ensures IsRun(ids, id, lo, hi)
  {
    lo := CountBelow(ids, id);
    hi := CountBelow(ids, id + 1);
    if hi < |ids| {
      assert id + 1 <= ids[hi];
    }
  }

  /** Runs follow each other in the order of their IDs, and an ID has only one. */
  lemma RunsOrdered(ids: seq<int>, a: int, aLo: nat, aHi: nat, b: int, bLo: nat, bHi: nat)
    requires IsRun(ids, a, aLo, aHi) && IsRun(ids, b, bLo, bHi)
    ensures a < b ==> aHi <= bLo
    ensures a == b ==> aLo == bLo && aHi == bHi
  {
    if aHi < |ids| {
      assert a < ids[aHi];
    }
    if bLo < |ids| {
      assert b <= ids[bLo];
    }
    if bHi < |ids| {
      assert b < ids[bHi];
    }
    if aLo < |ids| {
      assert a <= ids[aLo];
    }
  }

  lemma StrongRunsAreSingle(ids: seq<int>, id: int, lo: nat, hi: nat)
    requires StrongSorted(ids) && IsRun(ids, id, lo, hi)
    ensures hi <= lo + 1
  {
    if lo + 1 < |ids| {
      assert ids[lo] < ids[lo + 1];
    }
  }

  lemma {:induction false} SelectInRun(ids: seq<int>, id: int, lo: nat, hi: nat, offset: nat, from: nat)
    requires IsRun(ids, id, lo, hi)
    requires from <= |ids|
    ensures var start := if from < lo then lo else from;
            && Occurrences(ids, id, from) == (if start < hi then hi - start else 0)
            && Select(ids, id, offset, from) ==
               (if start + offset < hi then Some(start + offset) else None)
    decreases |ids| - from
  {
    if from < |ids| {
      SelectInRun(ids, id, lo, hi, offset, from + 1);
      if offset > 0 {
        SelectInRun(ids, id, lo, hi, offset - 1, from + 1);
      }
    }
  }

  /** In a sorted tuple the selected type is `offset` places after the start of the run. */
  lemma SelectFromRun(ids: seq<int>, id: int, lo: nat, hi: nat, offset: nat)
    requires IsRun(ids, id, lo, hi)
    ensures Occurrences(ids, id) == hi - lo
    ensures Select(ids, id, offset) == if offset < hi - lo then Some(lo + offset) else None
  {
    SelectInRun(ids, id, lo, hi, offset, 0);
  }

  // ---- The run counter shared by the weak strategies ---------------------------

  /** The counter instantiated by the weak linear and the weak static search: starting at the
      position `rem` places before the end of the tuple, count types whose ID equals that of
      the type at `origIdx`, up to the first that differs. */
  function CountSameIds(ids: seq<int>, origIdx: nat, rem: nat): nat
    requires origIdx < |ids| && rem <= |ids|
  {
    if rem == 0 then 0
    else if ids[origIdx] == ids[|ids| - rem] then 1 + CountSameIds(ids, origIdx, rem - 1)
    else 0
  }

  /** Started inside a run, the counter measures what is left of the run. */
  lemma {:induction false} CountSameIdsInRun(ids: seq<int>, origIdx: nat, rem: nat, lo: nat, hi: nat)
    requires origIdx < |ids| && rem <= |ids|
    requires IsRun(ids, ids[origIdx], lo, hi)
    requires lo <= |ids| - rem <= hi
    ensures CountSameIds(ids, origIdx, rem) == hi - (|ids| - rem)
  {
    if |ids| - rem < hi {
      CountSameIdsInRun(ids, origIdx, rem - 1, lo, hi);
    }
  }
}
