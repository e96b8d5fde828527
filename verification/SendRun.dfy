/**
 Whole runs of the scheduler with an ideal timer, and the proof that they keep the intended
 schedule exactly.
 */
module SendRun {
  import opened Options
  import opened DeltaList
  import opened Schedule

  // ---- The delta list represents waiting copies ----------------------------------------------

  /** The count that a message still has when its copy number `k` waits. */
  function CountLeft(count: nat, k: nat): nat {
    if k <= count then count - k else 0
  }

  function EntryOf(plan: Plan, c: Copy): Entry
    requires InPlan(plan, c)
  {
    var item := plan.msgs[c.msg];
    Entry(Deadline(plan, c), item.payload, item.repeat, CountLeft(item.count, c.k))
  }

  function EntriesOf(plan: Plan, copies: seq<Copy>): seq<Entry>
    requires AllInPlan(plan, copies)
  {
    seq(|copies|, i requires 0 <= i < |copies| => EntryOf(plan, copies[i]))
  }

  /** Read from `base` on, the list holds exactly these copies at their moments. */
  ghost predicate Represents(plan: Plan, base: nat, queue: seq<Item>, waiting: seq<Copy>) {
    AllInPlan(plan, waiting) && Absolute(base, queue) == EntriesOf(plan, waiting)
  }

  lemma {:induction false} StartRepresents(plan: Plan, from: nat, base: nat)
    requires from <= |plan.msgs|
    requires base == if from == 0 then plan.start else FirstDeadline(plan, from - 1)
    ensures Represents(plan, base, plan.msgs[from..], FirstCopies(plan)[from..])
    decreases |plan.msgs| - from
  {
    var waiting := FirstCopies(plan)[from..];
    if from < |plan.msgs| {
      StartRepresents(plan, from + 1, FirstDeadline(plan, from));
      assert plan.msgs[from..][1..] == plan.msgs[from + 1..];
      assert waiting[1..] == FirstCopies(plan)[from + 1..];
      RepresentsFront(plan, base, plan.msgs[from..], waiting);
    }
  }

  lemma RepresentsFront(plan: Plan, base: nat, queue: seq<Item>, waiting: seq<Copy>)
    requires queue != [] && waiting != [] && InPlan(plan, waiting[0])
    requires var item, c := queue[0], waiting[0];
             Entry(base + item.delay, item.payload, item.repeat, item.count) == EntryOf(plan, c)
    requires Represents(plan, base + queue[0].delay, queue[1..], waiting[1..])
    ensures Represents(plan, base, queue, waiting)
  {
    hide EntryOf, InPlan;
    forall i | 0 <= i < |waiting|
      ensures InPlan(plan, waiting[i])
    {
      assert i > 0 ==> waiting[i] == waiting[1..][i - 1];
    }
    assert EntriesOf(plan, waiting) == [EntryOf(plan, waiting[0])] + EntriesOf(plan, waiting[1..]);
  }

  /** What it means for the front of the list that it represents a waiting copy. */
  lemma RepresentsHead(plan: Plan, base: nat, queue: seq<Item>, waiting: seq<Copy>)
    returns (c: Copy, tail: seq<Copy>)
    requires queue != [] && Represents(plan, base, queue, waiting)
    ensures waiting == [c] + tail && InPlan(plan, c)
    ensures Deadline(plan, c) == base + queue[0].delay
    ensures queue[0].payload == plan.msgs[c.msg].payload
    ensures queue[0].repeat == plan.msgs[c.msg].repeat
    ensures queue[0].count == CountLeft(plan.msgs[c.msg].count, c.k)
    ensures Represents(plan, base + queue[0].delay, queue[1..], tail)
  {
    assert |EntriesOf(plan, waiting)| == |waiting|;
    c, tail := waiting[0], waiting[1..];
    assert Absolute(base, queue)[0] == EntryOf(plan, c);
    assert EntriesOf(plan, waiting)[1..] == EntriesOf(plan, tail);
  }

  /** The code puts a message back exactly when its next copy is wanted, and with the count
      that this copy has. */
  lemma RepeatedIsNext(plan: Plan, item: Item, c: Copy)
    requires Wanted(plan, c)
    requires item.repeat == plan.msgs[c.msg].repeat
    requires item.payload == plan.msgs[c.msg].payload
    requires item.count == CountLeft(plan.msgs[c.msg].count, c.k)
    ensures IsRepeated(item) <==> Wanted(plan, Next(c))
    ensures IsRepeated(item) ==>
              EntryOf(plan, Next(c)) ==
              Entry(Deadline(plan, c) + item.repeat, item.payload, item.repeat, Repeated(item).count)
  {}

  // ---- One step ----------------------------------------------------------------------------------

  ghost predicate InTimeOrder(plan: Plan, copies: seq<Copy>) {
    && AllInPlan(plan, copies)
    && (forall i, j :: 0 <= i <= j < |copies| ==> Deadline(plan, copies[i]) <= Deadline(plan, copies[j]))
  }

  /** The stable insertion, seen on copies. */
  lemma InsertCopy(plan: Plan, copies: seq<Copy>, n: Copy) returns (p: nat)
    requires InTimeOrder(plan, copies) && InPlan(plan, n)
    ensures p <= |copies|
    ensures forall i :: 0 <= i < p ==> Deadline(plan, copies[i]) <= Deadline(plan, n)
    ensures forall i :: p <= i < |copies| ==> Deadline(plan, n) < Deadline(plan, copies[i])
    ensures AllInPlan(plan, copies[..p] + [n] + copies[p..])
    ensures StableInsert(EntriesOf(plan, copies), EntryOf(plan, n))
         == EntriesOf(plan, copies[..p] + [n] + copies[p..])
  {
    var entries := EntriesOf(plan, copies);
    p := StableInsertPosition(entries, EntryOf(plan, n));
    assert forall i :: 0 <= i < |copies| ==> entries[i].deadline == Deadline(plan, copies[i]);
    hide Deadline;
    assert EntriesOf(plan, copies[..p] + [n] + copies[p..]) == entries[..p] + [EntryOf(plan, n)] + entries[p..];
  }

  lemma WaitingInTimeOrder(plan: Plan, sent: seq<Copy>, c: Copy, tail: seq<Copy>)
    requires Consistent(plan, sent, [c] + tail)
    ensures InPlan(plan, c) && InTimeOrder(plan, tail)
  {
    forall i, j | 0 <= i <= j < |tail|
      ensures InPlan(plan, tail[i]) && InPlan(plan, tail[j])
      ensures Deadline(plan, tail[i]) <= Deadline(plan, tail[j])
    {
      LaterInOrder(plan, sent, [c] + tail, i + 1, j + 1);
    }
    LaterInOrder(plan, sent, [c] + tail, 0, 0);
  }

  lemma LaterInOrder(plan: Plan, sent: seq<Copy>, waiting: seq<Copy>, i: nat, j: nat)
    requires Consistent(plan, sent, waiting)
    requires i <= j < |waiting|
    ensures InPlan(plan, waiting[i]) && InPlan(plan, waiting[j])
    ensures Deadline(plan, waiting[i]) <= Deadline(plan, waiting[j])
  {
    var all := sent + waiting;
    assert all[|sent| + i] == waiting[i] && all[|sent| + j] == waiting[j];
    if i < j {
      assert Before(plan, all[|sent| + i], all[|sent| + j]);
    }
  }

  /** Copies of this moment, sent for the due messages. */
  ghost predicate SentNow(plan: Plan, now: nat, due: seq<Item>, copies: seq<Copy>) {
    && |copies| == |due|
    && AllInPlan(plan, copies)
    && (forall i :: 0 <= i < |due| ==>
          Deadline(plan, copies[i]) == now && due[i].payload == plan.msgs[copies[i].msg].payload)
  }

  /** Putting a message back into the list is inserting its copy among the waiting ones. */
  lemma PutBackInList(plan: Plan, now: nat, item: Item, due: seq<Item>, rest: seq<Item>, tail: seq<Copy>, n: Copy)
    returns (p: nat)
    requires forall i :: 0 <= i < |due| ==> due[i].delay == 0
    requires Represents(plan, now, due + rest, tail) && InTimeOrder(plan, tail) && InPlan(plan, n)
    requires EntryOf(plan, n) == Entry(now + item.repeat, item.payload, item.repeat, item.count)
    ensures p <= |tail|
    ensures forall i :: 0 <= i < p ==> Deadline(plan, tail[i]) <= Deadline(plan, n)
    ensures forall i :: p <= i < |tail| ==> Deadline(plan, n) < Deadline(plan, tail[i])
    ensures Represents(plan, now, due + Reinsert(rest, item, item.repeat), tail[..p] + [n] + tail[p..])
  {
    ReinsertIsStableInsert(now, due + rest, item, item.repeat);
    ReinsertBehindDue(due, rest, item, item.repeat);
    p := InsertCopy(plan, tail, n);
  }

  /** The same insertion keeps sent and waiting copies consistent. */
  lemma PutBackInOrder(plan: Plan, sent: seq<Copy>, c: Copy, tail: seq<Copy>, p: nat)
    requires Consistent(plan, sent, [c] + tail) && InTimeOrder(plan, tail)
    requires Wanted(plan, Next(c))
    requires p <= |tail|
    requires forall i :: 0 <= i < p ==> Deadline(plan, tail[i]) <= Deadline(plan, Next(c))
    requires forall i :: p <= i < |tail| ==> Deadline(plan, Next(c)) < Deadline(plan, tail[i])
    ensures Consistent(plan, sent + [c], tail[..p] + [Next(c)] + tail[p..])
  {
    hide Consistent, Deadline, Wanted;
    var early, late := tail[..p], tail[p..];
    assert tail == early + late;
    assert forall i :: 0 <= i < |early| ==> early[i] == tail[i];
    assert forall i :: 0 <= i < |late| ==> late[i] == tail[p + i];
    SendAndPutBack(plan, sent, c, early, late);
  }

  /** Putting back the successor of the copy that was sent first: the represented list and the
      waiting copies change alike. */
  lemma PutBackOne(plan: Plan, now: nat, item: Item, due: seq<Item>, rest: seq<Item>,
                   sent: seq<Copy>, c: Copy, tail: seq<Copy>)
    returns (waiting': seq<Copy>)
    requires forall i :: 0 <= i < |due| ==> due[i].delay == 0
    requires Consistent(plan, sent, [c] + tail) && Represents(plan, now, due + rest, tail)
    requires Wanted(plan, Next(c))
    requires EntryOf(plan, Next(c)) == Entry(now + item.repeat, item.payload, item.repeat, item.count)
    ensures Consistent(plan, sent + [c], waiting')
    ensures Represents(plan, now, due + Reinsert(rest, item, item.repeat), waiting')
  {
    hide *;
    WaitingInTimeOrder(plan, sent, c, tail);
    WantedInPlan(plan, Next(c));
    var p := PutBackInList(plan, now, item, due, rest, tail, Next(c));
    PutBackInOrder(plan, sent, c, tail, p);
    waiting' := tail[..p] + [Next(c)] + tail[p..];
  }

  lemma WantedInPlan(plan: Plan, c: Copy)
    ensures Wanted(plan, c) ==> InPlan(plan, c)
  {}

  /** Sending all the due messages, in the order of the code: first they leave the list, then
      the repeated ones are put back one by one. */
  lemma {:induction false} SendDue(
      plan: Plan, now: nat, due: seq<Item>, rest: seq<Item>, sent: seq<Copy>, waiting: seq<Copy>)
    returns (copies: seq<Copy>, waiting': seq<Copy>)
    requires forall i :: 0 <= i < |due| ==> due[i].delay == 0
    requires Consistent(plan, sent, waiting) && Represents(plan, now, due + rest, waiting)
    ensures SentNow(plan, now, due, copies)
    ensures Consistent(plan, sent + copies, waiting')
    ensures Represents(plan, now, ReinsertAll(rest, due), waiting')
    decreases |due|
  {
    hide *;
    if due == [] {
      copies, waiting' := [], waiting;
      SendNone(plan, now, rest);
      assert due + rest == rest && sent + [] == sent;
    } else {
      var c, after, rest' := SendFirst(plan, now, due, rest, sent, waiting);
      copies, waiting' := SendDue(plan, now, due[1..], rest', sent + [c], after);
      SentNowFirst(plan, now, due, c, copies);
      assert sent + [c] + copies == sent + ([c] + copies);
      copies := [c] + copies;
    }
  }

  lemma SendNone(plan: Plan, now: nat, rest: seq<Item>)
    ensures SentNow(plan, now, [], []) && ReinsertAll(rest, []) == rest
  {}

  lemma SentNowFirst(plan: Plan, now: nat, due: seq<Item>, c: Copy, rest: seq<Copy>)
    requires due != [] && SentNow(plan, now, due[1..], rest)
    requires InPlan(plan, c) && Deadline(plan, c) == now && due[0].payload == plan.msgs[c.msg].payload
    ensures SentNow(plan, now, due, [c] + rest)
  {}

  /** Sending the first of the due messages. */
  lemma SendFirst(plan: Plan, now: nat, due: seq<Item>, rest: seq<Item>, sent: seq<Copy>, waiting: seq<Copy>)
    returns (c: Copy, after: seq<Copy>, rest': seq<Item>)
    requires due != []
    requires forall i :: 0 <= i < |due| ==> due[i].delay == 0
    requires Consistent(plan, sent, waiting) && Represents(plan, now, due + rest, waiting)
    ensures InPlan(plan, c) && Deadline(plan, c) == now && due[0].payload == plan.msgs[c.msg].payload
    ensures Consistent(plan, sent + [c], after)
    ensures Represents(plan, now, due[1..] + rest', after)
    ensures ReinsertAll(rest, due) == ReinsertAll(rest', due[1..])
  {
    var tail;
    c, tail := RepresentsHead(plan, now, due + rest, waiting);
    assert (due + rest)[1..] == due[1..] + rest;
    assert Known(sent, waiting, c);
    RepeatedIsNext(plan, due[0], c);
    rest' := if IsRepeated(due[0]) then Reinsert(rest, Repeated(due[0]), due[0].repeat) else rest;
    assert ReinsertAll(rest, due) == ReinsertAll(rest', due[1..]);
    hide Consistent, Represents, Reinsert, ReinsertAll;
    if IsRepeated(due[0]) {
      after := PutBackOne(plan, now, Repeated(due[0]), due[1..], rest, sent, c, tail);
    } else {
      SendLast(plan, sent, c, tail);
      after := tail;
    }
  }

  // ---- Runs ---------------------------------------------------------------------------------------

  /** A message handed to the send callback, and when. */
  datatype Sent = Sent(time: nat, payload: Payload)

  /** The scheduler between two steps: its list, the moment at which the timer will fire if the
      list is not empty, everything sent so far, and how often completion was reported. */
  datatype Run = Run(queue: seq<Item>, time: nat, log: seq<Sent>, completions: nat)

  function SendsOf(time: nat, due: seq<Item>): seq<Sent> {
    seq(|due|, i requires 0 <= i < |due| => Sent(time, due[i].payload))
  }

  /** One call of `sendPendingAndWait` at the moment `run.time`. */
  function StepRun(run: Run): Run {
    var s := Step(run.queue);
    Run(s.queue,
        run.time + (if s.interval.Some? then s.interval.value else 0),
        run.log + SendsOf(run.time, s.due),
        run.completions + if s.queue == [] then 1 else 0)
  }

  /** The run right after `start`. */
  function StartRun(plan: Plan): Run {
    StepRun(Run(plan.msgs, plan.start, [], 0))
  }

  /** The run after `n` timeouts; without an armed timer there are no more of them. */
  function After(plan: Plan, n: nat): Run {
    if n == 0 then StartRun(plan)
    else
      var run := After(plan, n - 1);
      if run.queue == [] then run else StepRun(run)
  }

  function LogOf(plan: Plan, copies: seq<Copy>): seq<Sent>
    requires AllInPlan(plan, copies)
  {
    seq(|copies|, i requires 0 <= i < |copies| =>
      Sent(Deadline(plan, copies[i]), plan.msgs[copies[i].msg].payload))
  }

  /** The run has sent and keeps waiting exactly these copies. */
  ghost predicate Describes(plan: Plan, run: Run, sent: seq<Copy>, waiting: seq<Copy>) {
    && Consistent(plan, sent, waiting)
    && Represents(plan, run.time, run.queue, waiting)
    && AllInPlan(plan, sent)
    && run.log == LogOf(plan, sent)
    && (run.queue != [] ==> AllBefore(plan, run.time, sent))
  }

  /** What a step does to the list, it does to the copies: those of this moment are sent. */
  lemma StepSends(plan: Plan, time: nat, queue: seq<Item>, sent: seq<Copy>, waiting: seq<Copy>)
    returns (copies: seq<Copy>, waiting': seq<Copy>)
    requires Consistent(plan, sent, waiting) && Represents(plan, time, queue, waiting)
    ensures var s := Step(queue);
            && SentNow(plan, time, s.due, copies)
            && Consistent(plan, sent + copies, waiting')
            && Represents(plan, time + (if s.interval.Some? then s.interval.value else 0), s.queue, waiting')
  {
    var n := DueCount(queue);
    var due, rest := queue[..n], queue[n..];
    assert queue == due + rest;
    DueCountMeaning(queue);
    copies, waiting' := SendDue(plan, time, due, rest, sent, waiting);
    var left := ReinsertAll(rest, due);
    hide ReinsertAll, DueCount, Consistent, SentNow, Absolute;
    if left != [] {
      ClockForward(time, left);
    }
  }

  /** A step sends exactly the waiting copies of this moment. */
  lemma StepDescribes(plan: Plan, run: Run, sent: seq<Copy>, waiting: seq<Copy>)
    returns (sent': seq<Copy>, waiting': seq<Copy>)
    requires Describes(plan, run, sent, waiting)
    ensures Describes(plan, StepRun(run), sent', waiting')
  {
    var s := Step(run.queue);
    var copies;
    copies, waiting' := StepSends(plan, run.time, run.queue, sent, waiting);
    sent' := sent + copies;
    SentInPlan(plan, sent', waiting');
    LogConcat(plan, run.time, s.due, sent, copies);
    TimerArmed(run.queue);
    assert run.queue == [] ==> s.queue == [];
    hide Consistent, Represents, Deadline, LogOf, SendsOf, Step;
    assert AllBefore(plan, run.time + 1, copies);
  }

  /** Counting from the moment the timer fires, the first message has no delay left. */
  lemma ClockForward(base: nat, queue: seq<Item>)
    requires queue != []
    ensures Absolute(base, queue) == Absolute(base + queue[0].delay, [queue[0].(delay := 0)] + queue[1..])
  {}

  lemma SentInPlan(plan: Plan, sent: seq<Copy>, waiting: seq<Copy>)
    requires Consistent(plan, sent, waiting)
    ensures AllInPlan(plan, sent)
  {
    forall i | 0 <= i < |sent|
      ensures InPlan(plan, sent[i])
    {
      assert Known(sent, waiting, sent[i]);
    }
  }

  lemma LogConcat(plan: Plan, time: nat, due: seq<Item>, sent: seq<Copy>, now: seq<Copy>)
    requires AllInPlan(plan, sent) && SentNow(plan, time, due, now)
    ensures AllInPlan(plan, sent + now)
    ensures LogOf(plan, sent + now) == LogOf(plan, sent) + SendsOf(time, due)
  {}

  lemma {:induction false} AfterDescribes(plan: Plan, n: nat) returns (sent: seq<Copy>, waiting: seq<Copy>)
    ensures Describes(plan, After(plan, n), sent, waiting)
  {
    if n == 0 {
      StartConsistent(plan);
      StartRepresents(plan, 0, plan.start);
      assert plan.msgs[0..] == plan.msgs && FirstCopies(plan)[0..] == FirstCopies(plan);
      sent, waiting := StepDescribes(plan, Run(plan.msgs, plan.start, [], 0), [], FirstCopies(plan));
    } else {
      sent, waiting := AfterDescribes(plan, n - 1);
      if After(plan, n - 1).queue != [] {
        sent, waiting := StepDescribes(plan, After(plan, n - 1), sent, waiting);
      }
    }
  }

  // ---- The exact schedule ------------------------------------------------------------------------

  /** After any number of timeouts, what was sent is exactly the wanted copies whose moment is
      before the next timeout, or all of them if no timeout is to come; each was sent at its
      moment; and they were sent in the intended order. */
  lemma ExactSchedule(plan: Plan, n: nat) returns (sent: seq<Copy>)
    ensures Ordered(plan, sent)
    ensures After(plan, n).log == LogOf(plan, sent)
    ensures forall c :: c in sent <==>
              Wanted(plan, c) && (After(plan, n).queue == [] || Deadline(plan, c) < After(plan, n).time)
  {
    var run := After(plan, n);
    var waiting;
    sent, waiting := AfterDescribes(plan, n);
    assert forall i, j :: 0 <= i < j < |sent| ==>
             (sent + waiting)[i] == sent[i] && (sent + waiting)[j] == sent[j];
    if run.queue == [] {
      assert waiting == [] by { assert |EntriesOf(plan, waiting)| == |waiting|; }
      forall c { AllSent(plan, sent, c); }
    } else {
      forall i | 0 <= i < |waiting|
        ensures InPlan(plan, waiting[i]) && run.time <= Deadline(plan, waiting[i])
      {
        var _, _ := RepresentsHead(plan, run.time, run.queue, waiting);
        LaterInOrder(plan, sent, waiting, 0, i);
      }
      forall c { SentExactly(plan, sent, waiting, run.time, c); }
    }
  }

  /** Time goes on at every timeout. */
  lemma {:induction false} TimeAdvances(plan: Plan, n: nat)
    ensures After(plan, n).queue != [] ==> plan.start + n < After(plan, n).time
  {
    if n == 0 {
      TimerArmed(plan.msgs);
    } else {
      TimeAdvances(plan, n - 1);
      TimerArmed(After(plan, n - 1).queue);
    }
  }

  /** Every wanted copy is sent, at its moment, after a bounded number of timeouts. */
  lemma EveryCopySent(plan: Plan, c: Copy, n: nat)
    requires Wanted(plan, c)
    requires Deadline(plan, c) <= plan.start + n
    ensures Sent(Deadline(plan, c), plan.msgs[c.msg].payload) in After(plan, n).log
  {
    var sent := ExactSchedule(plan, n);
    TimeAdvances(plan, n);
    assert c in sent;
    var i :| 0 <= i < |sent| && sent[i] == c;
    assert LogOf(plan, sent)[i] == Sent(Deadline(plan, c), plan.msgs[c.msg].payload);
  }

  // ---- Completion ---------------------------------------------------------------------------------

  /** Completion is reported once, when the list becomes empty, and not before. */
  lemma {:induction false} CompletionReported(plan: Plan, n: nat)
    ensures After(plan, n).completions == if After(plan, n).queue == [] then 1 else 0
  {
    if 0 < n {
      CompletionReported(plan, n - 1);
    }
  }

  /** Without endless messages, what was sent and what is still to be sent always add up to the
      counts of the messages, and every timeout sends something. */
  lemma {:induction false} RunConserves(plan: Plan, n: nat)
    requires NoneEndless(plan.msgs)
    ensures var run := After(plan, n);
            && |run.log| + TotalPending(run.queue) == TotalPending(plan.msgs)
            && NoneEndless(run.queue)
            && (run.queue != [] ==> n <= |run.log| && run.queue[0].delay == 0)
  {
    if n == 0 {
      StepConserves(plan.msgs);
      TimerArmed(plan.msgs);
    } else {
      RunConserves(plan, n - 1);
      StepConserves(After(plan, n - 1).queue);
      TimerArmed(After(plan, n - 1).queue);
    }
  }

  lemma {:induction false} PendingPositive(queue: seq<Item>)
    ensures |queue| <= TotalPending(queue)
  {
    if queue != [] {
      PendingPositive(queue[1..]);
    }
  }

  /** Without endless messages the run completes: after at most as many timeouts as there are
      copies, exactly so many messages were sent, nothing is left, no timer is armed, and
      completion was reported once. */
  lemma Completes(plan: Plan, n: nat)
    requires NoneEndless(plan.msgs)
    requires TotalPending(plan.msgs) <= n
    ensures After(plan, n).queue == []
    ensures |After(plan, n).log| == TotalPending(plan.msgs)
    ensures After(plan, n).completions == 1
  {
    RunConserves(plan, n);
    PendingPositive(After(plan, n).queue);
    CompletionReported(plan, n);
  }

  function MaxCopy(copies: seq<Copy>): (k: nat)
    ensures forall c :: c in copies ==> c.k <= k
  {
    if copies == [] then 0
    else
      var rest := MaxCopy(copies[1..]);
      if rest < copies[0].k then copies[0].k else rest
  }

  /** With an endless message the run never completes. */
  lemma NeverCompletes(plan: Plan, n: nat, msg: nat)
    requires msg < |plan.msgs| && IsEndless(plan.msgs[msg])
    ensures After(plan, n).queue != []
    ensures After(plan, n).completions == 0
  {
    var sent := ExactSchedule(plan, n);
    var c := Copy(msg, MaxCopy(sent) + 1);
    assert Wanted(plan, c) && c !in sent;
    CompletionReported(plan, n);
  }
}
