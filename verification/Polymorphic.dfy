/**
 The polymorphic strategies: tables of dispatch methods that are filled before the first
 dispatch, and looked up directly or by binary search. A dispatch method is the position of
 its message type in the tuple.
 */
module Polymorphic {
  import opened Options
  import opened IdTuples

  // ---- Standard library searches -------------------------------------------------

  /** `std::lower_bound` over `[from, from + count)`: the first position whose number is not
      below `value`. */
  function LowerBound(numbers: seq<int>, from: nat, count: nat, value: int): (r: nat)
    requires from + count <= |numbers|
    ensures from <= r <= from + count
    decreases count
  {
    if count == 0 then from
    else
      var step := count / 2;
      if numbers[from + step] < value then LowerBound(numbers, from + step + 1, count - (step + 1), value)
      else LowerBound(numbers, from, step, value)
  }

  /** `std::upper_bound`: the first position whose number is above `value`. */
  function UpperBound(numbers: seq<int>, from: nat, count: nat, value: int): (r: nat)
    requires from + count <= |numbers|
    ensures from <= r <= from + count
    decreases count
  {
    if count == 0 then from
    else
      var step := count / 2;
      if !(value < numbers[from + step]) then UpperBound(numbers, from + step + 1, count - (step + 1), value)
      else UpperBound(numbers, from, step, value)
  }

  lemma SortedAt(numbers: seq<int>, i: nat, j: nat)
    requires WeakSorted(numbers) && i < |numbers| && j < |numbers|
    ensures i <= j ==> numbers[i] <= numbers[j]
    ensures j <= i ==> numbers[j] <= numbers[i]
  {}

  lemma LowerBoundStep(numbers: seq<int>, from: nat, count: nat, value: int)
    requires 0 < count && from + count <= |numbers|
    ensures var step := count / 2;
            LowerBound(numbers, from, count, value) ==
            if numbers[from + step] < value then LowerBound(numbers, from + step + 1, count - (step + 1), value)
            else LowerBound(numbers, from, step, value)
  {}

  /** On sorted numbers exactly the smaller ones lie before the lower bound. */
  lemma {:induction false} LowerBoundSplits(numbers: seq<int>, from: nat, count: nat, value: int, k: nat)
    requires WeakSorted(numbers)
    requires from <= k < from + count <= |numbers|
    ensures k < LowerBound(numbers, from, count, value) <==> numbers[k] < value
    decreases count
  {
    hide WeakSorted, LowerBound;
    var step := count / 2;
    var mid := from + step;
    SortedAt(numbers, k, mid);
    LowerBoundStep(numbers, from, count, value);
    if numbers[mid] < value {
      if mid < k {
        LowerBoundSplits(numbers, mid + 1, count - (step + 1), value, k);
      }
    } else if k < mid {
      LowerBoundSplits(numbers, from, step, value, k);
    }
  }

  lemma UpperBoundStep(numbers: seq<int>, from: nat, count: nat, value: int)
    requires 0 < count && from + count <= |numbers|
    ensures var step := count / 2;
            UpperBound(numbers, from, count, value) ==
            if numbers[from + step] <= value then UpperBound(numbers, from + step + 1, count - (step + 1), value)
            else UpperBound(numbers, from, step, value)
  {}

  /** On sorted numbers exactly the larger ones lie from the upper bound on. */
  lemma {:induction false} UpperBoundSplits(numbers: seq<int>, from: nat, count: nat, value: int, k: nat)
    requires WeakSorted(numbers)
    requires from <= k < from + count <= |numbers|
    ensures k < UpperBound(numbers, from, count, value) <==> numbers[k] <= value
    decreases count
  {
    hide WeakSorted, UpperBound;
    var step := count / 2;
    var mid := from + step;
    SortedAt(numbers, k, mid);
    UpperBoundStep(numbers, from, count, value);
    if numbers[mid] <= value {
      if mid < k {
        UpperBoundSplits(numbers, mid + 1, count - (step + 1), value, k);
      }
    } else if k < mid {
      UpperBoundSplits(numbers, from, step, value, k);
    }
  }

  /** Together the two bounds delimit the run of an ID. */
  lemma BoundsDelimitRun(ids: seq<int>, id: int, lo: nat, hi: nat)
    requires WeakSorted(ids)
    requires IsRun(ids, id, lo, hi)
    ensures LowerBound(ids, 0, |ids|, id) == lo
    ensures UpperBound(ids, lo, |ids| - lo, id) == hi
  {
    hide LowerBound, UpperBound;
    if 0 < lo {
      LowerBoundSplits(ids, 0, |ids|, id, lo - 1);
    }
    if lo < |ids| {
      LowerBoundSplits(ids, 0, |ids|, id, lo);
    }
    if lo < hi {
      UpperBoundSplits(ids, lo, |ids| - lo, id, hi - 1);
    }
    if hi < |ids| {
      UpperBoundSplits(ids, lo, |ids| - lo, id, hi);
    }
  }

  // ---- Lookup by binary search ------------------------------------------------------

  /** A filled table for the binary searches: the types in the order of the tuple. */
  ghost predicate IsBinSearchRegistry(ids: IdTuple, registry: seq<Option<nat>>) {
    && |registry| == |ids|
    && (forall i :: 0 <= i < |ids| ==> registry[i] == Some(i))
  }

  /** Fill the table for the binary searches. */
  method FillBinSearchRegistry(ids: IdTuple) returns (registry: array<Option<nat>>)
    ensures IsBinSearchRegistry(ids, registry[..])
  {
    registry := new Option<nat>[|ids|](_ => None);
    var idx := 0;
    for k := 0 to |ids|
      invariant idx == k
      invariant forall i :: 0 <= i < k ==> registry[i] == Some(i)
    {
      registry[idx] := Some(k);
      idx := idx + 1;
    }
  }

  /** What `getId()` of a dispatch method returns. A table that was not filled gives nothing
      meaningful. */
  function GetId(ids: IdTuple, dispatchMethod: Option<nat>): int {
    if dispatchMethod.Some? && dispatchMethod.value < |ids| then ids[dispatchMethod.value] else 0
  }

  /** The IDs that the searches read from the table. */
  function RegisteredIds(ids: IdTuple, registry: seq<Option<nat>>): (numbers: seq<int>)
    ensures |numbers| == |registry|
    ensures IsBinSearchRegistry(ids, registry) ==> numbers == ids
  {
    seq(|registry|, i requires 0 <= i < |registry| => GetId(ids, registry[i]))
  }

  function StrongLookup(ids: IdTuple, registry: seq<Option<nat>>, id: int): Option<nat> {
    var numbers := RegisteredIds(ids, registry);
    var iter := LowerBound(numbers, 0, |numbers|, id);
    if iter == |numbers| || numbers[iter] != id then None else registry[iter]
  }

  function WeakLookup(ids: IdTuple, registry: seq<Option<nat>>, id: int, offset: nat): Option<nat> {
    var numbers := RegisteredIds(ids, registry);
    var lower := LowerBound(numbers, 0, |numbers|, id);
    if lower == |numbers| || numbers[lower] != id then None
    else
      var upper := UpperBound(numbers, lower, |numbers| - lower, id);
      var dist := upper - lower;
      if dist <= offset then None else registry[lower + offset]
  }

  /** In the filled table, lower bound, upper bound, distance check and offset select exactly the
      type the reference selects, for every offset and run length. */
  lemma LookupSelects(ids: IdTuple, registry: seq<Option<nat>>, id: int, offset: nat)
    requires WeakSorted(ids)
    requires IsBinSearchRegistry(ids, registry)
    ensures WeakLookup(ids, registry, id, offset) == Select(ids, id, offset)
    ensures StrongLookup(ids, registry, id) == Select(ids, id, 0)
  {
    hide LowerBound, UpperBound, Select, RegisteredIds, Occurrences, WeakSorted;
    assert RegisteredIds(ids, registry) == ids;
    var lo, hi := RunExists(ids, id);
    BoundsDelimitRun(ids, id, lo, hi);
    SelectFromRun(ids, id, lo, hi, offset);
    SelectFromRun(ids, id, lo, hi, 0);
    assert lo < |ids| && ids[lo] == id <==> lo < hi;
    hide IsRun;
  }

  // ---- Lookup in a table indexed by the ID ----------------------------------------------

  /** An ID seen as a `std::size_t`; a negative one becomes a huge index. */
  function ToIndex(id: MsgId): (index: nat)
    ensures index < SIZE_T_RANGE && (index - id) % SIZE_T_RANGE == 0
  {
    if 0 <= id then id else id + SIZE_T_RANGE
  }

  /** The table has a slot for every index up to the ID of the last type. For a last ID of minus
      one this size wraps around to zero. */
  function DirectRegistrySize(ids: IdTuple): nat
  {
    if |ids| == 0 then 0 else (ToIndex(ids[|ids| - 1]) + 1) % SIZE_T_RANGE
  }

  /** A filled table: every type in the slot of its ID, and nothing elsewhere. */
  ghost predicate IsDirectRegistry(ids: IdTuple, registry: seq<Option<nat>>)
  {
    && |registry| == DirectRegistrySize(ids)
    && (forall i :: 0 <= i < |ids| ==> ToIndex(ids[i]) < |registry| && registry[ToIndex(ids[i])] == Some(i))
    && (forall slot :: 0 <= slot < |registry| && !HasSlot(ids, slot) ==> registry[slot] == None)
  }

  /** One of the types has this slot. */
  ghost predicate HasSlot(ids: seq<MsgId>, slot: int) {
    exists i :: 0 <= i < |ids| && ToIndex(ids[i]) == slot
  }

  /** Whether the direct table is worth its size, judged by the ID of the last type. */
  predicate IsDirectSuitable(ids: IdTuple)
  {
    if |ids| == 0 then true
    else
      var maxId := ToIndex(ids[|ids| - 1]);
      maxId <= |ids| + 10 || maxId <= |ids| * 11 / 10
  }

  /** The IDs of the tuple are dense enough for a table: the last is not negative, and exceeds the
      number of types by at most ten, or by at most a tenth. */
  ghost predicate DenseIds(ids: IdTuple) {
    var n := |ids|;
    0 < n ==> 0 <= ids[n - 1] && (ids[n - 1] <= n + 10 || 10 * ids[n - 1] <= 11 * n)
  }

  /** Exactly such tuples are suitable for the direct table. */
  lemma SuitableExactly(ids: IdTuple)
    ensures IsDirectSuitable(ids) <==> DenseIds(ids)
  {}

  /** Every write of the filler is inside the table. */
  ghost predicate WritesInside(ids: IdTuple) {
    forall i :: 0 <= i < |ids| ==> ToIndex(ids[i]) < DirectRegistrySize(ids)
  }

  /** They are exactly when no ID is negative; or all are, and the size of the table does not wrap
      around. */
  lemma FillInBoundsExactly(ids: IdTuple)
    requires StrongSorted(ids) && |ids| > 0
    ensures WritesInside(ids) <==> 0 <= ids[0] || ids[|ids| - 1] < -1
  {
    var last := |ids| - 1;
    assert ids[0] <= ids[last];
    if 0 <= ids[0] || ids[last] < -1 {
      forall i | 0 <= i < |ids|
        ensures ToIndex(ids[i]) < DirectRegistrySize(ids)
      {
        assert ids[0] <= ids[i] <= ids[last];
      }
    } else {
      assert DirectRegistrySize(ids) <= ToIndex(ids[0]);
    }
  }

  /** Fill the table: every type is written to the slot of its ID. The table has one slot for every
      index up to that of the last ID, and where it is the chosen one it is never much larger than
      the tuple. */
  method FillDirectRegistry(ids: IdTuple) returns (registry: array<Option<nat>>)
    requires StrongSorted(ids) && WritesInside(ids)
    ensures IsDirectRegistry(ids, registry[..])
    ensures registry.Length == if ids == [] then 0 else ToIndex(ids[|ids| - 1]) + 1
    ensures IsDirectSuitable(ids) ==> registry.Length <= |ids| + 11 || registry.Length <= |ids| * 11 / 10 + 1
  {
    registry := new Option<nat>[DirectRegistrySize(ids)](_ => None);
    SizeSuitable(ids);
    hide StrongSorted, ToIndex, DirectRegistrySize, HasSlot, WritesInside, IsDirectSuitable;
    for k := 0 to |ids|
      invariant FilledUpTo(ids, k, registry[..])
    {
      FillOne(ids, k, registry[..]);
      registry[ToIndex(ids[k])] := Some(k);
    }
    assert ids[..|ids|] == ids;
  }

  lemma SizeSuitable(ids: IdTuple)
    requires WritesInside(ids)
    ensures DirectRegistrySize(ids) == if ids == [] then 0 else ToIndex(ids[|ids| - 1]) + 1
    ensures IsDirectSuitable(ids) ==>
              DirectRegistrySize(ids) <= |ids| + 11 || DirectRegistrySize(ids) <= |ids| * 11 / 10 + 1
  {}

  /** The first `k` types are in the table, and nothing else. */
  ghost predicate FilledUpTo(ids: IdTuple, k: nat, table: seq<Option<nat>>)
    requires k <= |ids|
  {
    && |table| == DirectRegistrySize(ids)
    && (forall i :: 0 <= i < k ==> ToIndex(ids[i]) < |table| && table[ToIndex(ids[i])] == Some(i))
    && (forall slot :: 0 <= slot < |table| && !HasSlot(ids[..k], slot) ==> table[slot] == None)
  }

  lemma FillOne(ids: IdTuple, k: nat, table: seq<Option<nat>>)
    requires StrongSorted(ids) && WritesInside(ids)
    requires k < |ids| && FilledUpTo(ids, k, table)
    ensures ToIndex(ids[k]) < |table|
    ensures FilledUpTo(ids, k + 1, table[ToIndex(ids[k]) := Some(k)])
  {
    forall i | 0 <= i < k
      ensures ToIndex(ids[i]) != ToIndex(ids[k])
    {
      assert ids[i] < ids[k];
    }
    forall slot
      ensures HasSlot(ids[..k], slot) || slot == ToIndex(ids[k]) ==> HasSlot(ids[..k + 1], slot)
    {
      SlotStays(ids, k, slot);
    }
    hide ToIndex, DirectRegistrySize, StrongSorted, HasSlot;
  }

  lemma SlotStays(ids: IdTuple, k: nat, slot: int)
    requires k < |ids|
    ensures HasSlot(ids[..k], slot) || slot == ToIndex(ids[k]) ==> HasSlot(ids[..k + 1], slot)
  {
    if HasSlot(ids[..k], slot) {
      var i :| 0 <= i < k && ToIndex(ids[..k][i]) == slot;
      assert ToIndex(ids[..k + 1][i]) == slot;
    }
    assert ids[..k + 1][k] == ids[k];
  }

  function DirectLookup(registry: seq<Option<nat>>, id: MsgId): Option<nat>
  {
    var index := ToIndex(id);
    if |registry| <= index || registry[index] == None then None else registry[index]
  }

  /** The lookup in the filled table selects what the reference selects, for every ID,
      negative and unknown ones included. */
  lemma DirectLookupSelects(ids: IdTuple, registry: seq<Option<nat>>, id: MsgId)
    requires StrongSorted(ids)
    requires IsDirectRegistry(ids, registry)
    ensures DirectLookup(registry, id) == Select(ids, id, 0)
  {
    var lo, hi := RunExists(ids, id);
    SelectFromRun(ids, id, lo, hi, 0);
    StrongRunsAreSingle(ids, id, lo, hi);
    if HasSlot(ids, ToIndex(id)) {
      var k :| 0 <= k < |ids| && ToIndex(ids[k]) == ToIndex(id);
      assert lo <= k < hi;
    }
  }

  // ---- The choice between them ------------------------------------------------------------

  /** The table of the strategy is filled: the direct one where it is chosen. */
  ghost predicate TableReady(ids: IdTuple, registry: seq<Option<nat>>)
  {
    if StrongSorted(ids) && IsDirectSuitable(ids) then IsDirectRegistry(ids, registry)
    else IsBinSearchRegistry(ids, registry)
  }

  /** It can be filled exactly if the direct table is not chosen, or no ID is negative. */
  lemma TableExistsExactly(ids: IdTuple)
    ensures (exists registry :: TableReady(ids, registry)) <==>
            (StrongSorted(ids) && IsDirectSuitable(ids) && ids != [] ==> 0 <= ids[0])
  {
    if StrongSorted(ids) && IsDirectSuitable(ids) {
      if ids != [] {
        FillInBoundsExactly(ids);
        SuitableExactly(ids);
      }
      if WritesInside(ids) {
        var registry := DirectTableExists(ids);
        assert TableReady(ids, registry);
      }
    } else {
      var registry := seq(|ids|, i requires 0 <= i < |ids| => Some(i as nat));
      assert TableReady(ids, registry);
    }
  }

  /** The type that is written to a slot. */
  ghost function TypeInSlot(ids: IdTuple, slot: int): (r: Option<nat>)
    requires StrongSorted(ids)
    ensures forall i :: 0 <= i < |ids| && ToIndex(ids[i]) == slot ==> r == Some(i)
    ensures !HasSlot(ids, slot) ==> r == None
  {
    if HasSlot(ids, slot) then
      var i :| 0 <= i < |ids| && ToIndex(ids[i]) == slot;
      Some(i)
    else None
  }

  /** The table that the filler makes. */
  lemma DirectTableExists(ids: IdTuple) returns (registry: seq<Option<nat>>)
    requires StrongSorted(ids) && WritesInside(ids)
    ensures IsDirectRegistry(ids, registry)
  {
    registry := seq(DirectRegistrySize(ids), slot => TypeInSlot(ids, slot));
    hide ToIndex, DirectRegistrySize;
  }

  /** In a strictly sorted tuple that is suitable for the direct table, one negative ID is written
      far outside of it. */
  lemma NegativeIdOutside()
    ensures StrongSorted([-1, 3]) && IsDirectSuitable([-1, 3])
    ensures DirectRegistrySize([-1, 3]) == 4 && ToIndex(-1) == SIZE_T_RANGE - 1
    ensures forall registry :: !TableReady([-1, 3], registry)
  {
    TableExistsExactly([-1, 3]);
  }

  /** The indexed entry point, with the table of the strategy. */
  function Dispatch(ids: IdTuple, registry: seq<Option<nat>>, id: MsgId, offset: nat): Option<nat>
  {
    if AllMessagesAreStrongSorted(ids) then
      if offset != 0 then None
      else if IsDirectSuitable(ids) then DirectLookup(registry, id)
      else StrongLookup(ids, registry, id)
    else WeakLookup(ids, registry, id, offset)
  }

  /** The entry point without an index. */
  function DispatchFirst(ids: IdTuple, registry: seq<Option<nat>>, id: MsgId): Option<nat>
  {
    if AllMessagesAreStrongSorted(ids) then
      (if IsDirectSuitable(ids) then DirectLookup(registry, id) else StrongLookup(ids, registry, id))
    else WeakLookup(ids, registry, id, 0)
  }

  lemma DispatchSelects(ids: IdTuple, registry: seq<Option<nat>>, id: MsgId, offset: nat)
    requires WeakSorted(ids) && TableReady(ids, registry)
    ensures Dispatch(ids, registry, id, offset) == Select(ids, id, offset)
    ensures DispatchFirst(ids, registry, id) == Select(ids, id, 0)
  {
    if StrongSorted(ids) {
      var lo, hi := RunExists(ids, id);
      SelectFromRun(ids, id, lo, hi, offset);
      StrongRunsAreSingle(ids, id, lo, hi);
    }
    if StrongSorted(ids) && IsDirectSuitable(ids) {
      DirectLookupSelects(ids, registry, id);
    } else {
      LookupSelects(ids, registry, id, offset);
    }
  }
}
