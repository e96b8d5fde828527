/**
 The list of messages waiting to be sent. Every message carries its delay relative to the
 message before it; no absolute time is stored anywhere.
 */
module DeltaList {
  import opened Bytes
  import opened Options

  /** What is sent: the ID of the message, as text, and its encoded data. The scheduling leaves
      it untouched. */
  datatype Payload = Payload(id: string, data: seq<byte>)

  /** A message in the list. A repeat duration of zero means "once"; a repeat count of zero
      means "without end". */
  datatype Item = Item(payload: Payload, delay: nat, repeat: nat, count: nat)

  /** Whether the message goes back to the list when it is sent. */
  predicate IsRepeated(item: Item) {
    0 < item.repeat && (item.count == 0 || 1 < item.count)
  }

  /** The message as it goes back: its count, unless endless, is one less. */
  function Repeated(item: Item): Item {
    item.(count := if item.count != 0 then item.count - 1 else 0)
  }

  /** Put a message that is due in `delay` into the list: walk while `delay` is not smaller than
      the delay of the next message, subtracting, and shorten the delay of the successor. */
  function Reinsert(queue: seq<Item>, item: Item, delay: nat): seq<Item> {
    if queue == [] then [item.(delay := delay)]
    else if delay < queue[0].delay then
      [item.(delay := delay), queue[0].(delay := queue[0].delay - delay)] + queue[1..]
    else [queue[0]] + Reinsert(queue[1..], item, delay - queue[0].delay)
  }

  /** Where that walk, standing at `from`, ends, and what is left of the delay there. */
  function Walk(queue: seq<Item>, delay: nat, from: nat := 0): (r: (nat, nat))
    requires from <= |queue|
    ensures from <= r.0 <= |queue|
    ensures r.0 < |queue| ==> r.1 < queue[r.0].delay
    decreases |queue| - from
  {
    if from == |queue| || delay < queue[from].delay then (from, delay)
    else Walk(queue, delay - queue[from].delay, from + 1)
  }

  /** The list with the delay of one message shortened. */
  function Shortened(queue: seq<Item>, place: nat, delay: nat): seq<Item>
    requires place < |queue| ==> delay <= queue[place].delay
  {
    if place < |queue| then queue[place := queue[place].(delay := queue[place].delay - delay)] else queue
  }

  /** The list with a message put at the end of the walk, and its successor's delay shortened. */
  function PutAt(queue: seq<Item>, item: Item, place: nat, delay: nat): seq<Item>
    requires place <= |queue|
    requires place < |queue| ==> delay <= queue[place].delay
  {
    var shortened := Shortened(queue, place, delay);
    shortened[..place] + [item.(delay := delay)] + shortened[place..]
  }

  lemma {:induction false} ReinsertByWalk(queue: seq<Item>, item: Item, delay: nat, from: nat)
    requires from <= |queue|
    ensures var (place, left) := Walk(queue, delay, from);
            queue[..from] + Reinsert(queue[from..], item, delay) == PutAt(queue, item, place, left)
    decreases |queue| - from
  {
    if from == |queue| || delay < queue[from].delay {
      PutHere(queue, item, delay, from);
    } else {
      ReinsertByWalk(queue, item, delay - queue[from].delay, from + 1);
      assert queue[from..][1..] == queue[from + 1..];
      var rest := Reinsert(queue[from + 1..], item, delay - queue[from].delay);
      assert Reinsert(queue[from..], item, delay) == [queue[from]] + rest;
      hide *;
      assert queue[..from + 1] + rest == queue[..from] + ([queue[from]] + rest);
    }
  }

  lemma PutHere(queue: seq<Item>, item: Item, delay: nat, place: nat)
    requires place <= |queue|
    requires place < |queue| ==> delay < queue[place].delay
    ensures queue[..place] + Reinsert(queue[place..], item, delay) == PutAt(queue, item, place, delay)
  {}

  /** The walk and the insertion at its end are the re-insertion. */
  lemma WalkAndPut(queue: seq<Item>, item: Item, delay: nat)
    ensures var (place, left) := Walk(queue, delay);
            Reinsert(queue, item, delay) == PutAt(queue, item, place, left)
  {
    ReinsertByWalk(queue, item, delay, 0);
    assert queue[0..] == queue && queue[..0] == [];
  }

  /** Put back all the messages of `due` that repeat, one after the other. */
  function ReinsertAll(queue: seq<Item>, due: seq<Item>): seq<Item>
    decreases |due|
  {
    if due == [] then queue
    else if IsRepeated(due[0]) then
      ReinsertAll(Reinsert(queue, Repeated(due[0]), due[0].repeat), due[1..])
    else ReinsertAll(queue, due[1..])
  }

  /** The length of the part of the list that is due now. */
  function DueCount(queue: seq<Item>): (n: nat)
    ensures n <= |queue|
  {
    if queue == [] || queue[0].delay != 0 then 0 else 1 + DueCount(queue[1..])
  }

  /** What one step leaves: the list, the messages to send now, and the interval the timer is
      armed with, if it is. */
  datatype StepResult = StepResult(queue: seq<Item>, due: seq<Item>, interval: Option<nat>)

  function Step(queue: seq<Item>): StepResult {
    var n := DueCount(queue);
    var rest := ReinsertAll(queue[n..], queue[..n]);
    if rest == [] then StepResult([], queue[..n], None)
    else StepResult([rest[0].(delay := 0)] + rest[1..], queue[..n], Some(rest[0].delay))
  }

  // ---- The list read as absolute deadlines ---------------------------------------------

  /** A message with the moment at which it is to be sent. */
  datatype Entry = Entry(deadline: nat, payload: Payload, repeat: nat, count: nat)

  /** The deadlines of the list when the first delay counts from `base`. */
  function Absolute(base: nat, queue: seq<Item>): (entries: seq<Entry>)
    ensures |entries| == |queue|
    decreases |queue|
  {
    if queue == [] then []
    else
      var deadline := base + queue[0].delay;
      [Entry(deadline, queue[0].payload, queue[0].repeat, queue[0].count)] + Absolute(deadline, queue[1..])
  }

  /** A stable priority queue puts an entry behind all those that are not due later. */
  function StableInsert(entries: seq<Entry>, entry: Entry): seq<Entry> {
    if entries == [] || entry.deadline < entries[0].deadline then [entry] + entries
    else [entries[0]] + StableInsert(entries[1..], entry)
  }

  /** Where the entry goes: everything before it is due no later, the next one is due later,
      and nothing else changes. */
  lemma {:induction false} StableInsertPosition(entries: seq<Entry>, entry: Entry) returns (p: nat)
    ensures p <= |entries|
    ensures StableInsert(entries, entry) == entries[..p] + [entry] + entries[p..]
    ensures forall i :: 0 <= i < p ==> entries[i].deadline <= entry.deadline
    ensures p < |entries| ==> entry.deadline < entries[p].deadline
  {
    if entries == [] || entry.deadline < entries[0].deadline {
      p := 0;
    } else {
      var q := StableInsertPosition(entries[1..], entry);
      p := q + 1;
      assert entries[..p] == [entries[0]] + entries[1..][..q];
      assert entries[p..] == entries[1..][q..];
    }
  }

  /** The delta list refines the stable priority queue: a re-insertion puts in the new deadline
      behind the equal ones and changes no other deadline. */
  lemma {:induction false} ReinsertIsStableInsert(base: nat, queue: seq<Item>, item: Item, delay: nat)
    ensures Absolute(base, Reinsert(queue, item, delay))
         == StableInsert(Absolute(base, queue), Entry(base + delay, item.payload, item.repeat, item.count))
    decreases |queue|
  {
    if queue != [] {
      var head := base + queue[0].delay;
      if delay < queue[0].delay {
        var shortened := [queue[0].(delay := queue[0].delay - delay)] + queue[1..];
        assert Reinsert(queue, item, delay) == [item.(delay := delay)] + shortened;
        assert shortened[1..] == queue[1..];
      } else {
        ReinsertIsStableInsert(head, queue[1..], item, delay - queue[0].delay);
        assert Absolute(base, queue)[1..] == Absolute(head, queue[1..]);
        var walked := Reinsert(queue, item, delay);
        assert walked[0] == queue[0] && walked[1..] == Reinsert(queue[1..], item, delay - queue[0].delay);
      }
    } else {
      assert Reinsert(queue, item, delay)[1..] == [];
    }
  }

  /** Messages that are due now stay in front of everything that is put back. */
  lemma {:induction false} ReinsertBehindDue(due: seq<Item>, rest: seq<Item>, item: Item, delay: nat)
    requires forall i :: 0 <= i < |due| ==> due[i].delay == 0
    ensures Reinsert(due + rest, item, delay) == due + Reinsert(rest, item, delay)
  {
    if due == [] {
      assert due + rest == rest;
      assert due + Reinsert(rest, item, delay) == Reinsert(rest, item, delay);
    } else {
      assert (due + rest)[1..] == due[1..] + rest;
      ReinsertBehindDue(due[1..], rest, item, delay);
      assert due == [due[0]] + due[1..];
    }
  }

  lemma {:induction false} DueCountMeaning(queue: seq<Item>)
    ensures var n := DueCount(queue);
            && (forall i :: 0 <= i < n ==> queue[i].delay == 0)
            && (n < |queue| ==> 0 < queue[n].delay)
  {
    if queue != [] && queue[0].delay == 0 {
      DueCountMeaning(queue[1..]);
    }
  }

  // ---- The timer ----------------------------------------------------------------------------

  lemma ReinsertHead(queue: seq<Item>, item: Item, delay: nat)
    requires 0 < delay && (queue != [] ==> 0 < queue[0].delay)
    ensures Reinsert(queue, item, delay) != [] && 0 < Reinsert(queue, item, delay)[0].delay
  {}

  lemma {:induction false} ReinsertAllHead(queue: seq<Item>, due: seq<Item>)
    requires queue != [] ==> 0 < queue[0].delay
    ensures ReinsertAll(queue, due) != [] ==> 0 < ReinsertAll(queue, due)[0].delay
    decreases |due|
  {
    if due != [] {
      if IsRepeated(due[0]) {
        ReinsertHead(queue, Repeated(due[0]), due[0].repeat);
        ReinsertAllHead(Reinsert(queue, Repeated(due[0]), due[0].repeat), due[1..]);
      } else {
        ReinsertAllHead(queue, due[1..]);
      }
    }
  }

  /** The timer is armed exactly when messages are left, always with a positive interval, and
      then the first message of the list is the one that is due when it fires. */
  lemma TimerArmed(queue: seq<Item>)
    ensures var s := Step(queue);
            && (s.interval.Some? <==> s.queue != [])
            && (s.interval.Some? ==> 0 < s.interval.value && s.queue[0].delay == 0)
  {
    DueCountMeaning(queue);
    var n := DueCount(queue);
    ReinsertAllHead(queue[n..], queue[..n]);
  }

  // ---- Conservation ---------------------------------------------------------------------------

  /** How many more times a message that is not endless will be sent. */
  function Pending(item: Item): nat {
    if item.repeat == 0 || item.count == 0 then 1 else item.count
  }

  function TotalPending(queue: seq<Item>): nat {
    if queue == [] then 0 else Pending(queue[0]) + TotalPending(queue[1..])
  }

  predicate IsEndless(item: Item) {
    0 < item.repeat && item.count == 0
  }

  ghost predicate NoneEndless(queue: seq<Item>) {
    forall i :: 0 <= i < |queue| ==> !IsEndless(queue[i])
  }

  lemma {:induction false} ReinsertConserves(queue: seq<Item>, item: Item, delay: nat)
    ensures TotalPending(Reinsert(queue, item, delay)) == Pending(item) + TotalPending(queue)
    ensures NoneEndless(queue) && !IsEndless(item) ==> NoneEndless(Reinsert(queue, item, delay))
  {
    var put := Reinsert(queue, item, delay);
    if queue == [] {
      assert put[1..] == [];
    } else if delay < queue[0].delay {
      var head := queue[0].(delay := queue[0].delay - delay);
      assert put[1..] == [head] + queue[1..] && put[1..][1..] == queue[1..];
    } else {
      ReinsertConserves(queue[1..], item, delay - queue[0].delay);
      assert put[1..] == Reinsert(queue[1..], item, delay - queue[0].delay);
    }
  }

  lemma {:induction false} ReinsertAllConserves(queue: seq<Item>, due: seq<Item>)
    requires NoneEndless(queue) && NoneEndless(due)
    ensures |due| + TotalPending(ReinsertAll(queue, due)) == TotalPending(due) + TotalPending(queue)
    ensures NoneEndless(ReinsertAll(queue, due))
    decreases |due|
  {
    if due != [] {
      var item := due[0];
      if IsRepeated(item) {
        ReinsertConserves(queue, Repeated(item), item.repeat);
        ReinsertAllConserves(Reinsert(queue, Repeated(item), item.repeat), due[1..]);
      } else {
        ReinsertAllConserves(queue, due[1..]);
      }
    }
  }

  lemma {:induction false} TotalPendingSplit(first: seq<Item>, second: seq<Item>)
    ensures TotalPending(first + second) == TotalPending(first) + TotalPending(second)
  {
    if first == [] {
      assert first + second == second;
    } else {
      assert (first + second)[1..] == first[1..] + second;
      TotalPendingSplit(first[1..], second);
    }
  }

  /** Without endless messages every message sent lowers the number of those still to be sent
      by one: none is lost, and none is invented. */
  lemma StepConserves(queue: seq<Item>)
    requires NoneEndless(queue)
    ensures var s := Step(queue);
            && TotalPending(s.queue) + |s.due| == TotalPending(queue)
            && NoneEndless(s.queue)
  {
    var n := DueCount(queue);
    assert queue == queue[..n] + queue[n..];
    TotalPendingSplit(queue[..n], queue[n..]);
    ReinsertAllConserves(queue[n..], queue[..n]);
    var rest := ReinsertAll(queue[n..], queue[..n]);
    if rest != [] {
      assert ([rest[0].(delay := 0)] + rest[1..])[1..] == rest[1..];
    }
  }
}
