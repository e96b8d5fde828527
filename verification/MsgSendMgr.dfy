/**
 The send manager: message objects whose delay and repeat count are overwritten, a list that
 is spliced and inserted into, and a single-shot timer.
 */
module MsgSendMgr {
  import opened Options
  import opened DeltaList
  import opened SendRun
  import Schedule

  /** A message object with the properties the scheduler uses. The count is the value that is
      read when the property may be missing, that is, one by default. */
  class Message {
    const payload: Payload
    var delay: nat
    var repeatDuration: nat
    var repeatCount: nat

    constructor (payload: Payload, delay: nat, repeatDuration: nat, repeatCount: nat)
      ensures this.payload == payload && this.delay == delay
      ensures this.repeatDuration == repeatDuration && this.repeatCount == repeatCount
    {
      this.payload := payload;
      this.delay, this.repeatDuration, this.repeatCount := delay, repeatDuration, repeatCount;
    }

    ghost function View(): Item
      reads this
    {
      Item(payload, delay, repeatDuration, repeatCount)
    }
  }

  ghost function Views(msgs: seq<Message>): (items: seq<Item>)
    reads msgs
    ensures |items| == |msgs|
    ensures forall i :: 0 <= i < |msgs| ==> items[i] == msgs[i].View()
  {
    seq(|msgs|, i requires 0 <= i < |msgs| reads msgs => msgs[i].View())
  }

  /** The message objects carry these payloads. */
  ghost predicate Carries(msgs: seq<Message>, items: seq<Item>) {
    |msgs| == |items| && forall i :: 0 <= i < |msgs| ==> msgs[i].payload == items[i].payload
  }

  /** The record of handing these message objects to the callback. */
  ghost function Handed(now: nat, msgs: seq<Message>): seq<Sent> {
    seq(|msgs|, i requires 0 <= i < |msgs| => Sent(now, msgs[i].payload))
  }

  /** It is the record of the due messages whose payloads they carry. */
  lemma {:induction false} CarriesSends(now: nat, msgs: seq<Message>, due: seq<Item>)
    requires Carries(msgs, due)
    ensures Handed(now, msgs) == SendsOf(now, due)
  {}

  /** These message objects, in this order, are the ones in the record. */
  ghost predicate Recorded(log: seq<Sent>, msgs: seq<Message>) {
    |msgs| == |log| && forall i :: 0 <= i < |msgs| ==> msgs[i].payload == log[i].payload
  }

  ghost predicate Apart(some: seq<Message>, others: seq<Message>) {
    forall i :: 0 <= i < |some| ==> some[i] !in others
  }

  /** No message object is in the list twice. */
  ghost predicate Distinct(msgs: seq<Message>) {
    forall i, j :: 0 <= i < j < |msgs| ==> msgs[i] != msgs[j]
  }

  lemma DueCountStep(queue: seq<Item>, n: nat)
    requires n < |queue| && queue[n].delay == 0
    ensures DueCount(queue[n..]) == 1 + DueCount(queue[n + 1..])
  {}

  class MsgSendMgr {
    var msgsToSend: seq<Message>
    var hasProtocol: bool
    var timer: Option<nat>

    // The world outside: an ideal clock, and the record of what the callbacks were told
    // since the last start.
    ghost var now: nat
    ghost var log: seq<Sent>
    ghost var completions: nat

    /** Between two calls: the timer is armed exactly while messages wait, with a positive
        interval, and then the first message is the one it will send. */
    ghost predicate Valid()
      reads this, msgsToSend
    {
      && Distinct(msgsToSend)
      && (timer.Some? <==> msgsToSend != [])
      && (timer.Some? ==> 0 < timer.value && msgsToSend[0].delay == 0 && hasProtocol)
    }

    /** The state as a run of the scheduler. */
    ghost function State(): Run
      reads this, msgsToSend
    {
      Run(Views(msgsToSend), now + (if timer.Some? then timer.value else 0), log, completions)
    }

    constructor ()
      ensures Valid() && msgsToSend == [] && timer == None && !hasProtocol
    {
      msgsToSend, hasProtocol, timer := [], false, None;
      now, log, completions := 0, [], 0;
    }

    /** Start sending clones of the messages. The sending before must have been stopped. */
    method Start(protocol: bool, msgs: seq<Message>) returns (sent: seq<Message>)
      requires Valid() && msgsToSend == []
      requires msgs != [] ==> protocol
      modifies this
      ensures Valid()
      ensures forall k :: 0 <= k < |msgsToSend| ==> fresh(msgsToSend[k])
      ensures State() == StartRun(Schedule.Plan(old(now), old(Views(msgs))))
      ensures now == old(now) && log == Handed(now, sent) && hasProtocol == protocol
      ensures Carries(sent, Step(old(Views(msgs))).due) && Apart(sent, msgsToSend) && Apart(msgsToSend, msgs)
    {
      hide Views;
      log, completions := [], 0;
      hasProtocol := protocol;
      var i := 0;
      while i < |msgs|
        invariant i == |msgsToSend| <= |msgs|
        invariant forall k :: 0 <= k < |msgsToSend| ==> fresh(msgsToSend[k])
        invariant Distinct(msgsToSend)
        invariant Views(msgsToSend) == old(Views(msgs))[..i]
        invariant unchanged(`now) && unchanged(msgs) && log == [] && completions == 0 && hasProtocol == protocol
      {
        var m := msgs[i];
        var clonedMsg := new Message(m.payload, m.delay, m.repeatDuration, m.repeatCount);
        msgsToSend := msgsToSend + [clonedMsg];
        i := i + 1;
      }
      assert Views(msgsToSend) == old(Views(msgs));
      sent := SendPendingAndWait();
    }

    method Stop()
      modifies this
      ensures Valid() && msgsToSend == [] && timer == None && !hasProtocol
      ensures now == old(now) && log == old(log) && completions == old(completions)
    {
      timer := None;
      hasProtocol := false;
      msgsToSend := [];
    }

    /** The timer fires after exactly its interval. */
    method TimerFires() returns (sent: seq<Message>)
      requires Valid() && timer.Some?
      modifies this, msgsToSend
      ensures Valid()
      ensures forall k :: 0 <= k < |msgsToSend| ==> msgsToSend[k] in old(msgsToSend)
      ensures State() == StepRun(old(State()))
      ensures now == old(State().time) && log == old(log) + Handed(now, sent) && hasProtocol == old(hasProtocol)
      ensures Carries(sent, Step(old(Views(msgsToSend))).due) && Apart(sent, msgsToSend)
      ensures |sent| <= |old(msgsToSend)| && forall i :: 0 <= i < |sent| ==>
                if IsRepeated(old(msgsToSend[i].View())) then fresh(sent[i])
                else sent[i] == old(msgsToSend[i]) && sent[i].View() == old(msgsToSend[i].View())
    {
      now := now + timer.value;
      sent := SendPendingAndWait();
    }

    /** One step: send what is due, put back what repeats, wait for the rest, and tell the
        callbacks what was sent and whether nothing is left. */
    method SendPendingAndWait() returns (sent: seq<Message>)
      requires Distinct(msgsToSend)
      requires msgsToSend != [] ==> hasProtocol
      modifies this, msgsToSend
      ensures Valid()
      ensures forall i :: 0 <= i < |msgsToSend| ==> msgsToSend[i] in old(msgsToSend)
      ensures State() == StepRun(Run(old(Views(msgsToSend)), now, old(log), old(completions)))
      ensures now == old(now) && log == old(log) + Handed(now, sent) && hasProtocol == old(hasProtocol)
      ensures Carries(sent, Step(old(Views(msgsToSend))).due)
      ensures Apart(sent, msgsToSend)
      ensures |sent| <= |old(msgsToSend)| && forall i :: 0 <= i < |sent| ==>
                if IsRepeated(old(msgsToSend[i].View())) then fresh(sent[i])
                else sent[i] == old(msgsToSend[i]) && sent[i].View() == old(msgsToSend[i].View())
    {
      hide Views, Step, Distinct, Apart;
      ghost var step := Step(Views(msgsToSend));
      TimerArmed(Views(msgsToSend));
      sent := SendAndArm();
      CarriesSends(now, sent, step.due);
      log := log + Handed(now, sent);
      if msgsToSend == [] {
        completions := completions + 1;
      }
    }

    /** What the step does to the list and the timer. */
    method SendAndArm() returns (sent: seq<Message>)
      requires Distinct(msgsToSend)
      requires msgsToSend != [] ==> hasProtocol
      modifies this`msgsToSend, this`timer, msgsToSend
      ensures Distinct(msgsToSend)
      ensures forall i :: 0 <= i < |msgsToSend| ==> msgsToSend[i] in old(msgsToSend)
      ensures var step := Step(old(Views(msgsToSend)));
              Views(msgsToSend) == step.queue && timer == step.interval && Carries(sent, step.due)
      ensures msgsToSend != [] ==> hasProtocol
      ensures Apart(sent, msgsToSend)
      ensures |sent| <= |old(msgsToSend)| && forall i :: 0 <= i < |sent| ==>
                if IsRepeated(old(msgsToSend[i].View())) then fresh(sent[i])
                else sent[i] == old(msgsToSend[i]) && sent[i].View() == old(msgsToSend[i].View())
    {
      hide Views, Step, ReinsertAll, DueCount, Distinct, Apart, Carries;
      ghost var before := msgsToSend;
      StepParts(Views(msgsToSend));
      timer := None;
      var nextMsgsToSend := SpliceDue();
      sent := PutBackRepeated(nextMsgsToSend);
      assert forall i :: 0 <= i < |nextMsgsToSend| ==> nextMsgsToSend[i] == before[i];
      NotAmong(sent, msgsToSend);
      if msgsToSend != [] {
        assert msgsToSend[0] in old(msgsToSend);
        WaitForFirst();
      }
    }

    /** Take the due messages off the front of the list. */
    method SpliceDue() returns (due: seq<Message>)
      requires Distinct(msgsToSend)
      modifies this`msgsToSend
      ensures due + msgsToSend == old(msgsToSend)
      ensures Distinct(due) && Distinct(msgsToSend) && Apart(due, msgsToSend)
      ensures forall m :: m in due || m in msgsToSend ==> m in old(msgsToSend)
      ensures var queue, n := old(Views(msgsToSend)), DueCount(old(Views(msgsToSend)));
              Views(due) == queue[..n] && Views(msgsToSend) == queue[n..]
    {
      hide Views, DueCount, Distinct, Apart;
      var iter := CountDue();
      SplitAt(msgsToSend, iter);
      due := msgsToSend[..iter];
      msgsToSend := msgsToSend[iter..];
    }

    /** How many messages at the front of the list are due now. */
    method CountDue() returns (iter: nat)
      ensures iter <= |msgsToSend| && iter == DueCount(Views(msgsToSend))
    {
      ghost var queue := Views(msgsToSend);
      iter := 0;
      assert queue[0..] == queue;
      while iter < |msgsToSend| && msgsToSend[iter].delay == 0
        invariant iter <= |msgsToSend|
        invariant DueCount(queue) == iter + DueCount(queue[iter..])
      {
        DueCountStep(queue, iter);
        iter := iter + 1;
      }
    }

    /** Arm the timer with the delay of the first message, which has none left then. */
    method WaitForFirst()
      requires Distinct(msgsToSend)
      requires msgsToSend != [] && 0 < msgsToSend[0].delay
      modifies this`timer, msgsToSend[0]
      ensures timer == Some(old(msgsToSend[0].delay))
      ensures Views(msgsToSend) == [old(msgsToSend[0].View()).(delay := 0)] + old(Views(msgsToSend))[1..]
    {
      var msg := msgsToSend[0];
      var delay := msg.delay;
      msg.delay := 0;
      timer := Some(delay);
    }

    /** The loop over the spliced messages: a repeated message object goes back to the list, and
        a clone of it is sent in its place. */
    method PutBackRepeated(due: seq<Message>) returns (next: seq<Message>)
      requires Distinct(due) && Distinct(msgsToSend) && Apart(due, msgsToSend)
      requires due != [] ==> hasProtocol
      modifies this`msgsToSend, msgsToSend, due
      ensures Distinct(msgsToSend)
      ensures forall m :: m in msgsToSend ==> m in old(msgsToSend) || m in due
      ensures Views(msgsToSend) == ReinsertAll(old(Views(msgsToSend)), old(Views(due)))
      ensures |next| == |due| && Carries(next, old(Views(due)))
      ensures Apart(next, msgsToSend)
      ensures forall i :: 0 <= i < |due| ==>
                if IsRepeated(old(due[i].View())) then fresh(next[i])
                else next[i] == due[i] && due[i].View() == old(due[i].View())
    {
      hide Views, ReinsertAll, Reinsert;
      ghost var items, queue := Views(due), Views(msgsToSend);
      next := due;
      var k := 0;
      assert items[0..] == items;
      while k < |due|
        invariant k <= |due| == |next|
        invariant Distinct(msgsToSend)
        invariant forall m :: m in msgsToSend ==> m in old(msgsToSend) || m in due
        invariant forall i :: 0 <= i < |msgsToSend| ==> msgsToSend[i] in old(msgsToSend) || msgsToSend[i] in due
        invariant forall i :: k <= i < |due| ==> next[i] == due[i] && due[i].View() == items[i]
        invariant forall i :: 0 <= i < |due| ==> next[i] !in msgsToSend
        invariant forall i :: 0 <= i < k ==>
                    if IsRepeated(items[i]) then fresh(next[i]) else next[i] == due[i] && due[i].View() == items[i]
        invariant Carries(next, items)
        invariant ReinsertAll(Views(msgsToSend), items[k..]) == ReinsertAll(queue, items)
      {
        var msgToSend := next[k];
        var repeatMs, repeatCount := msgToSend.repeatDuration, msgToSend.repeatCount;
        var reinsert := 0 < repeatMs && (repeatCount == 0 || 1 < repeatCount);
        ReinsertAllStep(Views(msgsToSend), items, k);
        if reinsert {
          var clonedMsg := new Message(msgToSend.payload, 0, 0, 1);
          PutBack(msgToSend);
          next := next[k := clonedMsg];
        }
        k := k + 1;
      }
      NothingToPutBack(Views(msgsToSend), items);
    }

    /** Put one message object back: walk over the list subtracting delays, shorten the delay of
        the successor, and insert. */
    method PutBack(msg: Message)
      requires Distinct(msgsToSend) && msg !in msgsToSend
      modifies this`msgsToSend, msgsToSend, msg
      ensures Distinct(msgsToSend)
      ensures forall m :: m in msgsToSend <==> m == msg || m in old(msgsToSend)
      ensures Views(msgsToSend) == Reinsert(old(Views(msgsToSend)), Repeated(old(msg.View())), old(msg.repeatDuration))
    {
      hide Views, Distinct;
      ghost var queue, item, before := Views(msgsToSend), Repeated(msg.View()), msgsToSend;
      var place, newDelay := FindPlace(msg.repeatDuration);
      WalkAndPut(queue, item, msg.repeatDuration);
      hide Reinsert, Walk;
      if place < |msgsToSend| {
        Shorten(place, newDelay);
      }
      msg.delay := newDelay;
      if msg.repeatCount != 0 {
        msg.repeatCount := msg.repeatCount - 1;
      }
      assert Views(before) == Shortened(queue, place, newDelay);
      assert msg.View() == item.(delay := newDelay);
      ViewsInserted(before, msg, place);
      msgsToSend := msgsToSend[..place] + [msg] + msgsToSend[place..];
      InsertedOnce(before, msg, place);
    }

    /** Shorten the delay of the successor. */
    method Shorten(place: nat, newDelay: nat)
      requires Distinct(msgsToSend)
      requires place < |msgsToSend| && newDelay <= msgsToSend[place].delay
      modifies msgsToSend[place]
      ensures Views(msgsToSend) == Shortened(old(Views(msgsToSend)), place, newDelay)
    {
      var msgToUpdate := msgsToSend[place];
      msgToUpdate.delay := msgToUpdate.delay - newDelay;
    }

    /** The walk to the first message that is due later than the remaining delay. */
    method FindPlace(repeatMs: nat) returns (place: nat, newDelay: nat)
      ensures (place, newDelay) == Walk(Views(msgsToSend), repeatMs)
    {
      place, newDelay := 0, repeatMs;
      while place < |msgsToSend| && !(newDelay < msgsToSend[place].delay)
        invariant place <= |msgsToSend|
        invariant Walk(Views(msgsToSend), newDelay, place) == Walk(Views(msgsToSend), repeatMs)
      {
        newDelay := newDelay - msgsToSend[place].delay;
        place := place + 1;
      }
    }
  }

  lemma NotAmong(sent: seq<Message>, msgs: seq<Message>)
    requires Apart(sent, msgs)
    ensures msgs != [] ==> forall i :: 0 <= i < |sent| ==> sent[i] != msgs[0]
  {}

  /** A step is splicing, putting back, and taking the first delay for the timer. */
  lemma StepParts(queue: seq<Item>)
    ensures var n, step := DueCount(queue), Step(queue);
            var rest := ReinsertAll(queue[n..], queue[..n]);
            && step.due == queue[..n]
            && (rest == [] ==> step.queue == [] && step.interval == None)
            && (rest != [] ==>
                  && 0 < rest[0].delay
                  && step.interval == Some(rest[0].delay)
                  && step.queue == [rest[0].(delay := 0)] + rest[1..])
  {
    TimerArmed(queue);
    hide ReinsertAll, DueCount;
  }

  /** A list of message objects cut in two. */
  lemma SplitAt(msgs: seq<Message>, n: nat)
    requires Distinct(msgs) && n <= |msgs|
    ensures msgs[..n] + msgs[n..] == msgs
    ensures Distinct(msgs[..n]) && Distinct(msgs[n..]) && Apart(msgs[..n], msgs[n..])
    ensures forall m :: m in msgs[..n] || m in msgs[n..] ==> m in msgs
    ensures Views(msgs[..n]) == Views(msgs)[..n] && Views(msgs[n..]) == Views(msgs)[n..]
  {}

  lemma InsertedOnce(msgs: seq<Message>, msg: Message, place: nat)
    requires Distinct(msgs) && msg !in msgs && place <= |msgs|
    ensures Distinct(msgs[..place] + [msg] + msgs[place..])
    ensures forall m :: m in msgs[..place] + [msg] + msgs[place..] <==> m == msg || m in msgs
  {}

  lemma NothingToPutBack(queue: seq<Item>, items: seq<Item>)
    ensures ReinsertAll(queue, items[|items|..]) == queue
  {}

  lemma ViewsInserted(msgs: seq<Message>, msg: Message, place: nat)
    requires place <= |msgs|
    ensures Views(msgs[..place] + [msg] + msgs[place..])
         == Views(msgs)[..place] + [msg.View()] + Views(msgs)[place..]
  {}

  lemma ReinsertAllStep(queue: seq<Item>, items: seq<Item>, k: nat)
    requires k < |items|
    ensures ReinsertAll(queue, items[k..]) ==
            ReinsertAll(if IsRepeated(items[k]) then Reinsert(queue, Repeated(items[k]), items[k].repeat) else queue,
                        items[k + 1..])
  {}

  lemma RecordedMore(log: seq<Sent>, msgs: seq<Message>, now: nat, more: seq<Message>)
    requires Recorded(log, msgs)
    ensures Recorded(log + Handed(now, more), msgs + more)
  {}

  /** A whole run: start, and then as many timeouts as are asked for or happen. The message objects
      handed to the callback are, in order, those in the record of the run. */
  method RunFor(mgr: MsgSendMgr, msgs: seq<Message>, n: nat) returns (handed: seq<Message>)
    requires mgr.Valid() && mgr.msgsToSend == []
    modifies mgr
    ensures mgr.Valid()
    ensures mgr.State() == After(Schedule.Plan(old(mgr.now), old(Views(msgs))), n)
    ensures Recorded(mgr.log, handed)
  {
    hide Views, StepRun, StartRun, Step, Distinct, Recorded, Handed, Carries, Apart;
    ghost var plan := Schedule.Plan(mgr.now, Views(msgs));
    NothingRecorded();
    var sent := mgr.Start(true, msgs);
    RecordedMore([], [], mgr.now, sent);
    handed := [] + sent;
    assert [] + Handed(mgr.now, sent) == mgr.log;
    var i := 0;
    while i < n
      invariant i <= n && mgr.Valid()
      invariant forall k :: 0 <= k < |mgr.msgsToSend| ==> fresh(mgr.msgsToSend[k])
      invariant mgr.State() == After(plan, i)
      invariant Recorded(mgr.log, handed)
    {
      if mgr.timer.Some? {
        ghost var log := mgr.log;
        sent := mgr.TimerFires();
        RecordedMore(log, handed, mgr.now, sent);
        handed := handed + sent;
      }
      i := i + 1;
    }
  }

  lemma NothingRecorded()
    ensures Recorded([], [])
  {}
}
