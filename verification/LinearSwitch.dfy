/**
 The linear switch: walk over the tuple from the front. It is the simplest strategy, and the
 one every other strategy has to agree with. One function stands for the message-object and
 the type form of each walk, which share their control flow.
 */
module LinearSwitch {
  import opened Options
  import opened IdTuples

  /** The walk for strictly sorted tuples: `count` types are left. */
  function StrongWalk(ids: IdTuple, count: nat, id: int): Option<nat>
    requires count <= |ids|
  {
    if count == 0 then None
    else if count == 1 then
      (if id != ids[|ids| - 1] then None else Some(|ids| - 1))
    else
      var from := |ids| - count;
      if id == ids[from] then Some(from) else StrongWalk(ids, count - 1, id)
  }

  /** The walk for tuples in which types may share an ID: it skips a whole run at a time. */
  function WeakWalk(ids: IdTuple, from: nat, count: nat, id: int, offset: nat): Option<nat>
    requires from + count == |ids|
    decreases count
  {
    if count == 0 then None
    else if count == 1 then
      (if offset != 0 then None else if id != ids[from] then None else Some(from))
    else
      var sameIds := CountSameIds(ids, from, count);
      CountSameIdsBounds(ids, from, count);
      if id == ids[from] then WalkOffset(from, sameIds, offset)
      else WeakWalk(ids, from + sameIds, count - sameIds, id, offset)
  }

  /** The walk inside a run. */
  function WalkOffset(from: nat, count: nat, offset: nat): (r: Option<nat>)
    ensures r == if offset < count then Some(from + offset) else None
    decreases count
  {
    if count == 0 then None
    else if count == 1 then (if offset != 0 then None else Some(from))
    else if offset == 0 then Some(from)
    else WalkOffset(from + 1, count - 1, offset - 1)
  }

  lemma {:induction false} CountSameIdsBounds(ids: IdTuple, origIdx: nat, rem: nat)
    requires origIdx < |ids| && rem <= |ids|
    ensures CountSameIds(ids, origIdx, rem) <= rem
    ensures rem > 0 && ids[origIdx] == ids[|ids| - rem] ==> 1 <= CountSameIds(ids, origIdx, rem)
  {
    if rem > 0 && ids[origIdx] == ids[|ids| - rem] {
      CountSameIdsBounds(ids, origIdx, rem - 1);
    }
  }

  /** The strong walk selects the first type with the ID, whatever the order of the tuple. */
  lemma {:induction false} StrongWalkSelects(ids: IdTuple, count: nat, id: int)
    requires count <= |ids|
    ensures StrongWalk(ids, count, id) == Select(ids, id, 0, |ids| - count)
  {
    if count > 1 {
      StrongWalkSelects(ids, count - 1, id);
    }
  }

  /** The weak walk, started at the head of a run, meets the specification for every offset
      and run length: it visits heads of runs only, and its counter is the true run length. */
  lemma {:induction false} WeakWalkSelects(ids: IdTuple, from: nat, count: nat, id: int, offset: nat)
    requires from + count == |ids|
    requires WeakSorted(ids)
    requires IsRunHead(ids, from)
    ensures WeakWalk(ids, from, count, id, offset) == Select(ids, id, offset, from)
    decreases count
  {
    var lo, hi := RunExists(ids, id);
    SelectInRun(ids, id, lo, hi, offset, from);
    if count > 1 {
      var headLo, headHi := RunExists(ids, ids[from]);
      var sameIds := CountSameIds(ids, from, count);
      assert sameIds == headHi - from by { CountSameIdsInRun(ids, from, count, headLo, headHi); }
      if id != ids[from] {
        assert IsRunHead(ids, headHi);
        WeakWalkSelects(ids, headHi, |ids| - headHi, id, offset);
        SelectInRun(ids, id, lo, hi, offset, headHi);
      }
    }
  }

  /** No type before position `i` shares its ID. */
  ghost predicate IsRunHead(ids: seq<int>, i: nat) {
    i <= |ids| && (0 < i < |ids| ==> ids[i - 1] != ids[i])
  }

  /** The indexed entry point. */
  function Dispatch(ids: IdTuple, id: int, offset: nat): Option<nat> {
    if |ids| == 0 then None
    else if AllMessagesAreStrongSorted(ids) then
      (if offset != 0 then None else StrongWalk(ids, |ids|, id))
    else WeakWalk(ids, 0, |ids|, id, offset)
  }

  /** The entry point without an index. */
  function DispatchFirst(ids: IdTuple, id: int): Option<nat> {
    if |ids| == 0 then None
    else if AllMessagesAreStrongSorted(ids) then StrongWalk(ids, |ids|, id)
    else WeakWalk(ids, 0, |ids|, id, 0)
  }

  lemma DispatchSelects(ids: IdTuple, id: int, offset: nat)
    requires WeakSorted(ids)
    ensures Dispatch(ids, id, offset) == Select(ids, id, offset)
    ensures DispatchFirst(ids, id) == Select(ids, id, 0)
  {
    var lo, hi := RunExists(ids, id);
    SelectFromRun(ids, id, lo, hi, offset);
    StrongWalkSelects(ids, |ids|, id);
    WeakWalkSelects(ids, 0, |ids|, id, offset);
    WeakWalkSelects(ids, 0, |ids|, id, 0);
    if StrongSorted(ids) {
      StrongRunsAreSingle(ids, id, lo, hi);
    }
  }
}
