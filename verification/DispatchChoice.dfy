/**
 The choice of a dispatch strategy, automatic or forced, and what that choice means: which
 strategies select the same type, on which tuples.
 */
module DispatchChoice {
  import opened Options
  import opened IdTuples
  import LinearSwitch
  import StaticBinSearch
  import Polymorphic

  datatype Strategy = Automatic | ForcedPolymorphic | ForcedStaticBinSearch | ForcedLinearSwitch

  /** The dispatcher, given the ID of a message and its index among the types with this ID. */
  function DispatchMsg(
      strategy: Strategy, ids: IdTuple, registry: seq<Option<nat>>, id: MsgId, index: nat): Option<nat>
    requires WeakSorted(ids)
  {
    match strategy
    case Automatic =>
      if Polymorphic.IsDirectSuitable(ids) then Polymorphic.Dispatch(ids, registry, id, index)
      else StaticBinSearch.Dispatch(ids, id, index)
    case ForcedPolymorphic => Polymorphic.Dispatch(ids, registry, id, index)
    case ForcedStaticBinSearch => StaticBinSearch.Dispatch(ids, id, index)
    case ForcedLinearSwitch => LinearSwitch.Dispatch(ids, id, index)
  }

  /** The dispatcher, given only the ID. */
  function DispatchMsgById(strategy: Strategy, ids: IdTuple, registry: seq<Option<nat>>, id: MsgId): Option<nat>
    requires WeakSorted(ids)
  {
    match strategy
    case Automatic =>
      if Polymorphic.IsDirectSuitable(ids) then Polymorphic.DispatchFirst(ids, registry, id)
      else StaticBinSearch.DispatchFirst(ids, id)
    case ForcedPolymorphic => Polymorphic.DispatchFirst(ids, registry, id)
    case ForcedStaticBinSearch => StaticBinSearch.DispatchFirst(ids, id)
    case ForcedLinearSwitch => LinearSwitch.DispatchFirst(ids, id)
  }

  // ---- The static binary search against the reference -------------------------------------

  /** The static binary search of a strictly sorted tuple finds what the reference finds. */
  lemma StrongSearchSelects(ids: IdTuple, id: int)
    requires StrongSorted(ids)
    ensures StaticBinSearch.StrongSearch(ids, 0, |ids|, id) == Select(ids, id, 0)
  {
    var lo, hi := RunExists(ids, id);
    SelectFromRun(ids, id, lo, hi, 0);
    StrongRunsAreSingle(ids, id, lo, hi);
    StaticBinSearch.StrongSearchFinds(ids, 0, |ids|, id, if lo < hi then lo else |ids|);
  }

  /** Exactly when the static binary search selects the type the reference selects: the tuple
      is strictly sorted, or there is no such type, or the offset is one the search serves. */
  lemma StaticSearchExact(ids: IdTuple, id: int, offset: nat, lo: nat, hi: nat)
    requires WeakSorted(ids) && IsRun(ids, id, lo, hi)
    ensures StaticBinSearch.Dispatch(ids, id, offset) == Select(ids, id, offset) <==>
            (StrongSorted(ids) || hi - lo <= offset || StaticBinSearch.Served(lo, hi - lo, offset))
  {
    SelectFromRun(ids, id, lo, hi, offset);
    if StrongSorted(ids) {
      StrongRunsAreSingle(ids, id, lo, hi);
      StrongSearchSelects(ids, id);
    } else {
      StaticBinSearch.WeakSearchFinds(ids, 0, |ids|, id, offset, lo, hi);
      if offset < hi - lo {
        StaticBinSearch.SearchOffsetExact(lo, hi - lo, offset);
      }
    }
  }

  /** The counting search returns the number of types with the ID, for every sorted tuple. */
  lemma TypeCountExact(ids: IdTuple, id: int)
    requires WeakSorted(ids)
    ensures StaticBinSearch.TypeCount(ids, id) == Occurrences(ids, id)
  {
    var lo, hi := RunExists(ids, id);
    SelectFromRun(ids, id, lo, hi, 0);
    if StrongSorted(ids) {
      StrongRunsAreSingle(ids, id, lo, hi);
      StaticBinSearch.StrongSearchFinds(ids, 0, |ids|, id, if lo < hi then lo else |ids|);
    } else {
      StaticBinSearch.WeakTypeCountFinds(ids, 0, |ids|, id, lo, hi);
    }
  }

  // ---- Each strategy by itself ---------------------------------------------------------------

  /** The linear switch selects what the reference selects, for every run length. */
  lemma LinearSwitchSelects(ids: IdTuple, registry: seq<Option<nat>>, id: MsgId, index: nat)
    requires WeakSorted(ids)
    ensures DispatchMsg(ForcedLinearSwitch, ids, registry, id, index) == Select(ids, id, index)
  {
    LinearSwitch.DispatchSelects(ids, id, index);
  }

  /** So does the polymorphic strategy. */
  lemma PolymorphicSelects(ids: IdTuple, registry: seq<Option<nat>>, id: MsgId, index: nat)
    requires WeakSorted(ids) && Polymorphic.TableReady(ids, registry)
    ensures DispatchMsg(ForcedPolymorphic, ids, registry, id, index) == Select(ids, id, index)
  {
    Polymorphic.DispatchSelects(ids, registry, id, index);
  }

  /** The static binary search does so exactly for the strictly sorted tuples, for indices beyond
      the run of the ID, and for the indices it serves; otherwise it selects where its search for
      the index ends. */
  lemma StaticBinSearchSelects(
      ids: IdTuple, registry: seq<Option<nat>>, id: MsgId, index: nat, lo: nat, hi: nat)
    requires WeakSorted(ids) && IsRun(ids, id, lo, hi)
    ensures var selected := DispatchMsg(ForcedStaticBinSearch, ids, registry, id, index);
            var served := StrongSorted(ids) || hi - lo <= index || StaticBinSearch.Served(lo, hi - lo, index);
            && (selected == Select(ids, id, index) <==> served)
            && (!served ==> selected == StaticBinSearch.SearchOffset(lo, hi - lo, index))
  {
    StaticSearchExact(ids, id, index, lo, hi);
    if !StrongSorted(ids) {
      StaticBinSearch.WeakSearchFinds(ids, 0, |ids|, id, index, lo, hi);
    }
  }

  /** The automatic choice is the polymorphic strategy exactly for dense IDs, and the static binary
      search otherwise, with an index and without. */
  lemma AutomaticChoice(ids: IdTuple, registry: seq<Option<nat>>, id: MsgId, index: nat)
    requires WeakSorted(ids)
    ensures var chosen := if Polymorphic.DenseIds(ids) then ForcedPolymorphic else ForcedStaticBinSearch;
            && DispatchMsg(Automatic, ids, registry, id, index) == DispatchMsg(chosen, ids, registry, id, index)
            && DispatchMsgById(Automatic, ids, registry, id) == DispatchMsgById(chosen, ids, registry, id)
  {
    Polymorphic.SuitableExactly(ids);
  }

  // ---- Independence of the strategy ----------------------------------------------------------

  /** Without an index every strategy selects the first type with the ID, or the default
      handler: the choice of strategy is not observable. */
  lemma ByIdStrategyIndependent(strategy: Strategy, ids: IdTuple, registry: seq<Option<nat>>, id: MsgId)
    requires WeakSorted(ids)
    requires Polymorphic.TableReady(ids, registry)
    ensures DispatchMsgById(strategy, ids, registry, id) == Select(ids, id, 0)
  {
    LinearSwitch.DispatchSelects(ids, id, 0);
    Polymorphic.DispatchSelects(ids, registry, id, 0);
    StaticSearchFirst(ids, id);
    hide WeakSorted, Polymorphic.TableReady, Select;
    hide Polymorphic.DispatchFirst, StaticBinSearch.DispatchFirst, LinearSwitch.DispatchFirst;
  }

  lemma StaticSearchFirst(ids: IdTuple, id: MsgId)
    requires WeakSorted(ids)
    ensures StaticBinSearch.DispatchFirst(ids, id) == Select(ids, id, 0)
  {
    var lo, hi := RunExists(ids, id);
    StaticBinSearch.ZeroOnHalvings(hi - lo);
    hide IsRun, Select, WeakSorted, StrongSorted, StaticBinSearch.OnHalvings;
    StaticSearchExact(ids, id, 0, lo, hi);
  }

  /** No ID has more than two types, except that the first may have up to four. */
  ghost predicate ShortRuns(ids: IdTuple) {
    && (forall i :: 0 <= i < |ids| - 2 && ids[i] == ids[i + 2] ==> ids[i] == ids[0])
    && (5 <= |ids| ==> ids[0] != ids[4])
  }

  lemma ShortRunsBound(ids: IdTuple, id: int, lo: nat, hi: nat)
    requires WeakSorted(ids) && ShortRuns(ids) && IsRun(ids, id, lo, hi)
    ensures hi - lo <= 2 || (lo == 0 && hi <= 4)
  {
    if lo + 2 < hi {
      assert ids[lo] == ids[lo + 2];
      assert id == ids[0];
      if 5 <= |ids| {
        assert ids[4] != id;
      }
    }
  }

  lemma LongRunExists(ids: IdTuple) returns (id: MsgId, lo: nat, hi: nat)
    requires WeakSorted(ids) && !ShortRuns(ids)
    ensures IsRun(ids, id, lo, hi)
    ensures 2 < hi - lo && (lo == 0 ==> 4 < hi)
  {
    if 5 <= |ids| && ids[0] == ids[4] {
      id := ids[0];
    } else {
      var at :| 0 <= at < |ids| - 2 && ids[at] == ids[at + 2] && ids[at] != ids[0];
      id := ids[at];
    }
    lo, hi := RunExists(ids, id);
  }

  /** A tuple without short runs has an ID and an index that the static search misses. */
  lemma LongRunMissed(ids: IdTuple) returns (id: MsgId, offset: nat)
    requires WeakSorted(ids) && !ShortRuns(ids)
    ensures id in ids
    ensures StaticBinSearch.Dispatch(ids, id, offset) != Select(ids, id, offset)
  {
    var lo, hi;
    id, lo, hi := LongRunExists(ids);
    assert id == ids[lo] == ids[lo + 1];
    StaticBinSearch.RunServed(lo, hi - lo);
    offset :| offset < hi - lo && StaticBinSearch.SearchOffset(lo, hi - lo, offset) != Some(lo + offset);
    StaticBinSearch.SearchOffsetExact(lo, hi - lo, offset);
    hide StaticBinSearch.Dispatch;
    StaticSearchExact(ids, id, offset, lo, hi);
  }

  /** With an index, all strategies agree with the reference on every ID and index exactly for
      the tuples with short runs. */
  lemma StrategyIndependentExactly(ids: IdTuple, registry: seq<Option<nat>>)
    requires WeakSorted(ids) && Polymorphic.TableReady(ids, registry)
    ensures (forall strategy, id: MsgId, index: nat ::
                DispatchMsg(strategy, ids, registry, id, index) == Select(ids, id, index))
       <==> ShortRuns(ids)
  {
    StaticExactly(ids, registry);
    if ShortRuns(ids) {
      forall strategy, id: MsgId, index: nat
        ensures DispatchMsg(strategy, ids, registry, id, index) == Select(ids, id, index)
      {
        LinearSwitchSelects(ids, registry, id, index);
        PolymorphicSelects(ids, registry, id, index);
        AutomaticChoice(ids, registry, id, index);
        hide DispatchMsg, Select;
      }
    }
  }

  lemma RunInTuple(ids: IdTuple, id: int, lo: nat, hi: nat)
    requires IsRun(ids, id, lo, hi)
    ensures lo <= hi && hi < SIZE_T_RANGE
  {}

  /** The static binary search is right on every ID and index exactly for the tuples with short
      runs. */
  lemma StaticExactly(ids: IdTuple, registry: seq<Option<nat>>)
    requires WeakSorted(ids)
    ensures (forall id: MsgId, index: nat ::
                DispatchMsg(ForcedStaticBinSearch, ids, registry, id, index) == Select(ids, id, index))
       <==> ShortRuns(ids)
  {
    if ShortRuns(ids) {
      forall id: MsgId, index: nat
        ensures DispatchMsg(ForcedStaticBinSearch, ids, registry, id, index) == Select(ids, id, index)
      {
        StaticSearchServes(ids, id, index);
      }
    } else {
      var id, index := LongRunMissed(ids);
      assert DispatchMsg(ForcedStaticBinSearch, ids, registry, id, index) != Select(ids, id, index);
    }
  }

  lemma StaticSearchServes(ids: IdTuple, id: int, index: nat)
    requires WeakSorted(ids) && ShortRuns(ids)
    ensures StaticBinSearch.Dispatch(ids, id, index) == Select(ids, id, index)
  {
    hide *;
    var lo, hi := RunExists(ids, id);
    ShortRunsBound(ids, id, lo, hi);
    RunInTuple(ids, id, lo, hi);
    StaticSearchExact(ids, id, index, lo, hi);
    StaticBinSearch.RunServed(lo, hi - lo);
    if index < hi - lo {
      StaticBinSearch.SearchOffsetExact(lo, hi - lo, index);
    }
  }

  /** The automatic choice is right on every ID and index exactly when the IDs are dense, so that it
      picks the polymorphic strategy, or the tuple has short runs. */
  lemma AutomaticExactly(ids: IdTuple, registry: seq<Option<nat>>)
    requires WeakSorted(ids) && Polymorphic.TableReady(ids, registry)
    ensures (forall id: MsgId, index: nat ::
                DispatchMsg(Automatic, ids, registry, id, index) == Select(ids, id, index))
       <==> (Polymorphic.DenseIds(ids) || ShortRuns(ids))
  {
    Polymorphic.SuitableExactly(ids);
    if Polymorphic.IsDirectSuitable(ids) {
      forall id: MsgId, index: nat
        ensures DispatchMsg(Automatic, ids, registry, id, index) == Select(ids, id, index)
      {
        Polymorphic.DispatchSelects(ids, registry, id, index);
      }
    } else if ShortRuns(ids) {
      forall id: MsgId, index: nat
        ensures DispatchMsg(Automatic, ids, registry, id, index) == Select(ids, id, index)
      {
        StaticSearchServes(ids, id, index);
      }
    } else {
      var id, index := LongRunMissed(ids);
      assert DispatchMsg(Automatic, ids, registry, id, index) != Select(ids, id, index);
    }
  }

  /** The last of three types with the same ID is missed: the search selects the first. */
  lemma LastOfThreeMissed()
    ensures Select([1, 2, 7, 7, 7], 7, 2) == Some(4)
    ensures StaticBinSearch.Dispatch([1, 2, 7, 7, 7], 7, 2) == Some(2)
  {}

  /** The last of five types is missed: the search selects the one before it. */
  lemma OneBeforeSelected()
    ensures Select([0, 7, 7, 7, 7, 7], 7, 4) == Some(5)
    ensures StaticBinSearch.Dispatch([0, 7, 7, 7, 7, 7], 7, 4) == Some(4)
  {}

  /** The type that is selected instead may even have another ID. */
  lemma OtherIdSelected()
    ensures Select([1, 2, 3, 7, 7, 7], 7, 2) == Some(5)
    ensures StaticBinSearch.Dispatch([1, 2, 3, 7, 7, 7], 7, 2) == Some(2)
  {}
}
