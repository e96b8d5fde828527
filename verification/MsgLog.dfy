/**
 The message log: messages are numbered in the order in which they are added, and deletion
 finds a message by its number.
 */
module MsgLog {
  import opened Options
  import opened IdTuples
  import opened Polymorphic

  datatype MsgType = Invalid | Received | Sent

  /** A message object with the properties that the log overwrites. */
  class Msg {
    var seqNumber: nat
    var kind: MsgType
    var timestamp: nat

    constructor (kind: MsgType, timestamp: nat)
      ensures this.kind == kind && this.timestamp == timestamp && seqNumber == 0
    {
      this.seqNumber, this.kind, this.timestamp := 0, kind, timestamp;
    }
  }

  ghost function Numbers(msgs: seq<Msg>): (numbers: seq<int>)
    reads msgs
    ensures |numbers| == |msgs|
    ensures forall i :: 0 <= i < |msgs| ==> numbers[i] == msgs[i].seqNumber
  {
    seq(|msgs|, i requires 0 <= i < |msgs| reads msgs => msgs[i].seqNumber)
  }

  /** The messages that exist, of a list that may hold null pointers. */
  function Existing(msgs: seq<Msg?>): (r: seq<Msg>)
    ensures |r| <= |msgs|
  {
    if msgs == [] then []
    else Existing(msgs[..|msgs| - 1]) + (if msgs[|msgs| - 1] == null then [] else [msgs[|msgs| - 1]])
  }

  /** Those of them that have a type. */
  ghost function Typed(msgs: seq<Msg>): (r: seq<Msg>)
    reads msgs
    ensures forall i :: 0 <= i < |r| ==> r[i] in msgs
  {
    if msgs == [] then []
    else Typed(msgs[..|msgs| - 1]) + (if msgs[|msgs| - 1].kind == Invalid then [] else [msgs[|msgs| - 1]])
  }

  /** Only messages with a type are among them, and each is, behind those before it. */
  lemma {:induction false} TypedAt(msgs: seq<Msg>, k: nat)
    requires k < |msgs|
    ensures forall i :: 0 <= i < |Typed(msgs)| ==> Typed(msgs)[i].kind != Invalid
    ensures var n, typed := |Typed(msgs[..k])|, msgs[k].kind != Invalid;
            && |Typed(msgs[..k + 1])| == n + (if typed then 1 else 0)
            && (typed ==> n < |Typed(msgs)| && Typed(msgs)[n] == msgs[k])
  {
    var last := |msgs| - 1;
    assert msgs[..k + 1][..k] == msgs[..k];
    if k < last {
      TypedAt(msgs[..last], k);
      assert msgs[..last][..k] == msgs[..k] && msgs[..last][..k + 1] == msgs[..k + 1];
    } else {
      assert msgs[..k + 1] == msgs;
      if 0 < k {
        TypedAt(msgs[..k], k - 1);
      }
    }
  }

  /** The same of those that exist. */
  lemma {:induction false} ExistingAt(msgs: seq<Msg?>, k: nat)
    requires k < |msgs|
    ensures var n := |Existing(msgs[..k])|;
            && |Existing(msgs[..k + 1])| == n + (if msgs[k] != null then 1 else 0)
            && (msgs[k] != null ==> n < |Existing(msgs)| && Existing(msgs)[n] == msgs[k])
  {
    var last := |msgs| - 1;
    NextExisting(msgs, k);
    if k < last {
      ExistingAt(msgs[..last], k);
      assert msgs[..last][..k] == msgs[..k] && msgs[..last][..k + 1] == msgs[..k + 1];
    } else {
      assert msgs[..k + 1] == msgs;
    }
  }

  /** No message object is in the list twice. */
  ghost predicate Distinct(msgs: seq<Msg>) {
    forall i, j :: 0 <= i < j < |msgs| ==> msgs[i] != msgs[j]
  }

  /** The message object at this place of the list does not come again. */
  ghost predicate LastHere(msgs: seq<Msg?>, i: nat) {
    i < |msgs| && forall j :: i < j < |msgs| ==> msgs[j] != msgs[i]
  }

  /** It is nowhere else in the list. */
  ghost predicate OnlyHere(msgs: seq<Msg?>, i: nat) {
    i < |msgs| && forall j :: 0 <= j < |msgs| && j != i ==> msgs[j] != msgs[i]
  }

  /** From a place on, the messages have consecutive numbers, but for those that come again. */
  ghost predicate InTurn(msgs: seq<Msg>, from: nat, first: nat)
    reads msgs
  {
    forall j :: from <= j < |msgs| && LastHere(msgs, j) ==> msgs[j].seqNumber == first + (j - from)
  }

  /** The lower bound of a number that occurs in increasing numbers is its position. */
  lemma LowerBoundFinds(numbers: seq<int>, k: nat)
    requires StrongSorted(numbers) && k < |numbers|
    ensures LowerBound(numbers, 0, |numbers|, numbers[k]) == k
  {
    LowerBoundSplits(numbers, 0, |numbers|, numbers[k], k);
    if 0 < k {
      LowerBoundSplits(numbers, 0, |numbers|, numbers[k], k - 1);
    }
  }

  class MsgMgr {
    var allMsgs: seq<Msg>
    var nextMsgNum: nat
    var recvEnabled: bool
    var hasSocket: bool
    var hasProtocol: bool

    /** The stored numbers are all below the next one. They increase strictly exactly if no
        message object was added that was in the log already, since this renumbers it. */
    ghost predicate Numbered()
      reads this, allMsgs
    {
      && 0 < nextMsgNum
      && (forall i :: 0 <= i < |allMsgs| ==> allMsgs[i].seqNumber < nextMsgNum)
      && (StrongSorted(Numbers(allMsgs)) <==> Distinct(allMsgs))
    }

    /** What deletion relies on: the stored numbers increase strictly. */
    ghost predicate Valid()
      reads this, allMsgs
    {
      Numbered() && StrongSorted(Numbers(allMsgs))
    }

    constructor ()
      ensures Valid() && allMsgs == [] && nextMsgNum == 1
      ensures !recvEnabled && !hasSocket && !hasProtocol
    {
      allMsgs, nextMsgNum := [], 1;
      recvEnabled, hasSocket, hasProtocol := false, false, false;
    }

    /** Remove a message from the log: exactly this one, and the others keep their order and
        their numbers. */
    method DeleteMsg(msg: Msg)
      requires Valid() && msg in allMsgs
      modifies this`allMsgs
      ensures Valid()
      ensures exists k :: 0 <= k < |old(allMsgs)| && old(allMsgs)[k] == msg
                          && allMsgs == old(allMsgs)[..k] + old(allMsgs)[k + 1..]
      ensures msg !in allMsgs
    {
      hide Numbers, LowerBound, StrongSorted, Distinct;
      var numbers := NumbersOf();
      var iter := LowerBound(numbers, 0, |numbers|, msg.seqNumber);
      ghost var k :| 0 <= k < |allMsgs| && allMsgs[k] == msg;
      LowerBoundFinds(numbers, k);
      if iter == |allMsgs| {
        return;
      }
      assert allMsgs[iter] == msg;
      Removed(allMsgs, k);
      SortedDistinct(allMsgs[..k] + allMsgs[k + 1..]);
      allMsgs := allMsgs[..iter] + allMsgs[iter + 1..];
    }

    /** The numbers as the comparator of the search reads them. */
    method NumbersOf() returns (numbers: seq<int>)
      ensures numbers == Numbers(allMsgs)
    {
      numbers := [];
      for k := 0 to |allMsgs|
        invariant |numbers| == k && forall i :: 0 <= i < k ==> numbers[i] == allMsgs[i].seqNumber
      {
        numbers := numbers + [allMsgs[k].seqNumber];
      }
    }

    /** Remove all messages; the numbering goes on. */
    method DeleteAllMsgs()
      requires Numbered()
      modifies this`allMsgs
      ensures Valid() && allMsgs == [] && nextMsgNum == old(nextMsgNum)
    {
      allMsgs := [];
    }

    method UpdateInternalId(msg: Msg)
      modifies this`nextMsgNum, msg`seqNumber
      ensures msg.seqNumber == old(nextMsgNum) && nextMsgNum == old(nextMsgNum) + 1
    {
      msg.seqNumber := nextMsgNum;
      nextMsgNum := nextMsgNum + 1;
    }

    /** Number a message and set its properties. */
    method Mark(msg: Msg, kind: MsgType, timestamp: nat)
      modifies this`nextMsgNum, msg
      ensures msg.seqNumber == old(nextMsgNum) && nextMsgNum == old(nextMsgNum) + 1
      ensures msg.kind == kind && msg.timestamp == timestamp
    {
      UpdateInternalId(msg);
      msg.kind, msg.timestamp := kind, timestamp;
    }

    /** Mark a message, and put it at the end. */
    method Append(msg: Msg, kind: MsgType, timestamp: nat)
      requires Numbered()
      modifies this`allMsgs, this`nextMsgNum, msg
      ensures Numbered()
      ensures allMsgs == old(allMsgs) + [msg]
      ensures msg.seqNumber == old(nextMsgNum) && nextMsgNum == old(nextMsgNum) + 1
      ensures msg.kind == kind && msg.timestamp == timestamp
      ensures forall from: nat, first: nat ::
                && from <= |old(allMsgs)|
                && first + (|old(allMsgs)| - from) == old(nextMsgNum)
                && old(InTurn(allMsgs, from, first))
                ==> InTurn(allMsgs, from, first)
    {
      hide Numbers, StrongSorted, Distinct;
      ghost var before := Numbers(allMsgs);
      Mark(msg, kind, timestamp);
      AppendedSorted(allMsgs, msg, before);
      forall from: nat, first: nat |
          from <= |allMsgs| && first + (|allMsgs| - from) == old(nextMsgNum) && old(InTurn(allMsgs, from, first))
        ensures InTurn(allMsgs + [msg], from, first)
      {
        NextInTurn(allMsgs, msg, before, from, first);
      }
      allMsgs := allMsgs + [msg];
    }

    /** Sending: every message that exists is logged as sent, with the time the clock shows then,
        whether or not its data could be written. `clock` are the readings of the clock. */
    method SendMsgs(msgs: seq<Msg?>, clock: seq<nat>)
      requires Numbered() && |clock| == |msgs|
      modifies this`allMsgs, this`nextMsgNum, set m: Msg | m in msgs
      ensures Numbered()
      ensures allMsgs == old(allMsgs) + if hasSocket && hasProtocol then Existing(msgs) else []
      ensures nextMsgNum == old(nextMsgNum) + (|allMsgs| - |old(allMsgs)|)
      ensures InTurn(allMsgs, |old(allMsgs)|, old(nextMsgNum))
      ensures forall i :: |old(allMsgs)| <= i < |allMsgs| ==> allMsgs[i].kind == Sent
      ensures !hasSocket || !hasProtocol ==> unchanged(set m: Msg | m in msgs)
      ensures hasSocket && hasProtocol ==>
                forall i :: 0 <= i < |msgs| && msgs[i] != null && LastHere(msgs, i) ==> msgs[i].timestamp == clock[i]
    {
      if msgs == [] || !hasSocket || !hasProtocol {
        NoneInTurn(allMsgs, nextMsgNum);
        return;
      }
      hide LastHere, Existing, Numbered, InTurn;
      LogSent(msgs, clock);
    }

    /** The loop over the messages to send. */
    method LogSent(msgs: seq<Msg?>, clock: seq<nat>)
      requires Numbered() && |clock| == |msgs|
      modifies this`allMsgs, this`nextMsgNum, set m: Msg | m in msgs
      ensures Numbered() && allMsgs == old(allMsgs) + Existing(msgs)
      ensures nextMsgNum == old(nextMsgNum) + (|allMsgs| - |old(allMsgs)|)
      ensures InTurn(allMsgs, |old(allMsgs)|, old(nextMsgNum))
      ensures forall i :: |old(allMsgs)| <= i < |allMsgs| ==> allMsgs[i].kind == Sent
      ensures forall i :: 0 <= i < |msgs| && msgs[i] != null && LastHere(msgs, i) ==> msgs[i].timestamp == clock[i]
    {
      hide LastHere, Existing, Numbered, InTurn, Numbers;
      NoneExisting(msgs);
      NoneInTurn(allMsgs, nextMsgNum);
      for k := 0 to |msgs|
        invariant Numbered() && allMsgs == old(allMsgs) + Existing(msgs[..k])
        invariant nextMsgNum == old(nextMsgNum) + (|allMsgs| - |old(allMsgs)|)
        invariant InTurn(allMsgs, |old(allMsgs)|, old(nextMsgNum))
        invariant forall i :: |old(allMsgs)| <= i < |allMsgs| ==> allMsgs[i].kind == Sent
        invariant forall i :: 0 <= i < k && msgs[i] != null && LastHere(msgs, i) ==> msgs[i].timestamp == clock[i]
      {
        NextExisting(msgs, k);
        if msgs[k] == null {
          continue;
        }
        var msg: Msg := msgs[k];
        OnlyElsewhere(msgs, k);
        Append(msg, Sent, clock[k]);
      }
      assert msgs[..|msgs|] == msgs;
    }

    /** Adding loaded messages: those that have a type are logged; a missing timestamp becomes
        the time the clock shows then. */
    method AddMsgs(msgs: seq<Msg>, clock: seq<nat>)
      requires Numbered() && |clock| == |msgs|
      modifies this`allMsgs, this`nextMsgNum, msgs
      ensures Numbered()
      ensures allMsgs == old(allMsgs) + old(Typed(msgs))
      ensures nextMsgNum == old(nextMsgNum) + (|allMsgs| - |old(allMsgs)|)
      ensures InTurn(allMsgs, |old(allMsgs)|, old(nextMsgNum))
      ensures forall i :: 0 <= i < |msgs| ==> msgs[i].kind == old(msgs[i].kind)
      ensures forall i :: 0 <= i < |msgs| && msgs[i].kind == Invalid ==> unchanged(msgs[i])
      ensures forall i :: 0 <= i < |msgs| && old(msgs[i].timestamp) != 0 ==> msgs[i].timestamp == old(msgs[i].timestamp)
      ensures forall i :: 0 <= i < |msgs| && old(msgs[i].timestamp) == 0 && OnlyHere(msgs, i) ==>
                msgs[i].timestamp == if msgs[i].kind == Invalid then 0 else clock[i]
    {
      hide Numbers, StrongSorted, Distinct, OnlyHere, InTurn;
      NoneInTurn(allMsgs, nextMsgNum);
      for k := 0 to |msgs|
        invariant Numbered()
        invariant allMsgs == old(allMsgs) + old(Typed(msgs[..k]))
        invariant nextMsgNum == old(nextMsgNum) + (|allMsgs| - |old(allMsgs)|)
        invariant InTurn(allMsgs, |old(allMsgs)|, old(nextMsgNum))
        invariant forall i :: 0 <= i < |msgs| ==> msgs[i].kind == old(msgs[i].kind)
        invariant forall i :: 0 <= i < |msgs| && msgs[i].kind == Invalid ==> unchanged(msgs[i])
        invariant forall i :: 0 <= i < |msgs| && old(msgs[i].timestamp) != 0 ==>
                    msgs[i].timestamp == old(msgs[i].timestamp)
        invariant forall i :: 0 <= i < |msgs| && old(msgs[i].timestamp) == 0 && OnlyHere(msgs, i) ==>
                    msgs[i].timestamp == if i < k && msgs[i].kind != Invalid then clock[i] else 0
      {
        assert msgs[..k + 1][..k] == msgs[..k];
        var msg := msgs[k];
        if msg.kind == Invalid {
          continue;
        }
        var timestamp := if msg.timestamp == 0 then clock[k] else msg.timestamp;
        OnlyElsewhere(msgs, k);
        Append(msg, msg.kind, timestamp);
      }
      assert msgs[..|msgs|] == msgs;
    }

    /** Receiving: all the messages read from the data are numbered first and then logged
        together, with the timestamp of the data if it has one. `dataInfo` holds the timestamp of
        the data; it may be a null pointer. */
    method SocketDataReceived(dataInfo: Option<nat>, msgs: seq<Msg>, clock: seq<nat>)
      requires Numbered() && |clock| == |msgs|
      modifies this`allMsgs, this`nextMsgNum, msgs
      ensures Numbered()
      ensures allMsgs == old(allMsgs) + if recvEnabled && hasProtocol && dataInfo.Some? then msgs else []
      ensures nextMsgNum == old(nextMsgNum) + (|allMsgs| - |old(allMsgs)|)
      ensures InTurn(allMsgs, |old(allMsgs)|, old(nextMsgNum))
      ensures !recvEnabled || !hasProtocol || dataInfo.None? ==> unchanged(msgs)
      ensures recvEnabled && hasProtocol && dataInfo.Some? ==>
                forall i :: 0 <= i < |msgs| ==>
                  && msgs[i].kind == Received
                  && (LastHere(msgs, i) ==>
                        msgs[i].timestamp == if dataInfo.value != 0 then dataInfo.value else clock[i])
    {
      if !recvEnabled || !hasProtocol || dataInfo.None? {
        NoneInTurn(allMsgs, nextMsgNum);
        return;
      }
      hide LastHere, Numbered, InTurn;
      LogReceived(msgs, dataInfo.value, clock);
    }

    /** Number the received messages, and put them at the end. */
    method LogReceived(msgs: seq<Msg>, timestamp: nat, clock: seq<nat>)
      requires Numbered() && |clock| == |msgs|
      modifies this`allMsgs, this`nextMsgNum, msgs
      ensures Numbered() && allMsgs == old(allMsgs) + msgs
      ensures nextMsgNum == old(nextMsgNum) + |msgs|
      ensures InTurn(allMsgs, |old(allMsgs)|, old(nextMsgNum))
      ensures forall i :: 0 <= i < |msgs| ==> msgs[i].kind == Received
      ensures forall i :: 0 <= i < |msgs| && LastHere(msgs, i) ==>
                msgs[i].timestamp == if timestamp != 0 then timestamp else clock[i]
    {
      hide LastHere, StrongSorted, Distinct, Numbers, InTurn;
      ghost var log, before := allMsgs, Numbers(allMsgs);
      NumberReceived(msgs, timestamp, clock);
      ReceivedSorted(log, msgs, before, old(nextMsgNum), nextMsgNum);
      ReceivedInTurn(log, msgs, old(nextMsgNum));
      allMsgs := allMsgs + msgs;
    }

    /** The loop over the received messages. */
    method NumberReceived(msgs: seq<Msg>, timestamp: nat, clock: seq<nat>)
      requires |clock| == |msgs|
      modifies this`nextMsgNum, msgs
      ensures nextMsgNum == old(nextMsgNum) + |msgs|
      ensures forall i :: 0 <= i < |msgs| ==> msgs[i].seqNumber < nextMsgNum
      ensures forall i :: 0 <= i < |msgs| && LastHere(msgs, i) ==> msgs[i].seqNumber == old(nextMsgNum) + i
      ensures forall i :: 0 <= i < |msgs| ==> msgs[i].kind == Received
      ensures forall i :: 0 <= i < |msgs| && LastHere(msgs, i) ==>
                msgs[i].timestamp == if timestamp != 0 then timestamp else clock[i]
    {
      hide LastHere;
      for k := 0 to |msgs|
        invariant nextMsgNum == old(nextMsgNum) + k
        invariant forall i :: 0 <= i < k ==> msgs[i].seqNumber < nextMsgNum
        invariant forall i :: 0 <= i < k && LastHere(msgs, i) ==> msgs[i].seqNumber == old(nextMsgNum) + i
        invariant forall i :: 0 <= i < k ==> msgs[i].kind == Received
        invariant forall i :: 0 <= i < k && LastHere(msgs, i) ==>
                    msgs[i].timestamp == if timestamp != 0 then timestamp else clock[i]
      {
        OnlyElsewhere(msgs, k);
        Mark(msgs[k], Received, if timestamp != 0 then timestamp else clock[k]);
      }
    }
  }

  lemma NoneInTurn(msgs: seq<Msg>, first: nat)
    ensures InTurn(msgs, |msgs|, first)
  {}

  /** One more message, with the next number. */
  lemma NextInTurn(msgs: seq<Msg>, msg: Msg, before: seq<int>, from: nat, first: nat)
    requires |before| == |msgs| && from <= |msgs|
    requires msg.seqNumber == first + (|msgs| - from)
    requires forall i :: 0 <= i < |msgs| && msgs[i] != msg ==> msgs[i].seqNumber == before[i]
    requires forall j :: from <= j < |msgs| && LastHere(msgs, j) ==> before[j] == first + (j - from)
    ensures InTurn(msgs + [msg], from, first)
  {
    var all := msgs + [msg];
    forall j | from <= j < |msgs| && LastHere(all, j)
      ensures msgs[j].seqNumber == first + (j - from)
    {
      assert all[|msgs|] == msg && all[j] == msgs[j];
      assert forall i :: 0 <= i < |msgs| ==> all[i] == msgs[i];
      assert LastHere(msgs, j);
    }
  }

  lemma NoneExisting(msgs: seq<Msg?>)
    ensures Existing(msgs[..0]) == []
  {}

  lemma NextExisting(msgs: seq<Msg?>, k: nat)
    requires k < |msgs|
    ensures Existing(msgs[..k + 1]) == Existing(msgs[..k]) + if msgs[k] == null then [] else [msgs[k]]
  {
    assert msgs[..k + 1][..k] == msgs[..k];
  }

  lemma OnlyElsewhere(msgs: seq<Msg?>, k: nat)
    requires k < |msgs|
    ensures forall i :: 0 <= i < k && LastHere(msgs, i) ==> msgs[i] != msgs[k]
    ensures forall i :: 0 <= i < |msgs| && i != k && OnlyHere(msgs, i) ==> msgs[i] != msgs[k]
  {}

  /** Strictly increasing numbers are those of distinct messages. */
  lemma SortedDistinct(msgs: seq<Msg>)
    ensures StrongSorted(Numbers(msgs)) ==> Distinct(msgs)
  {}

  lemma FrontDistinct(some: seq<Msg>, others: seq<Msg>)
    ensures Distinct(some + others) ==> Distinct(some) && forall j :: 0 <= j < |others| ==> LastHere(others, j)
    ensures Distinct(some + others) ==> forall i, j :: 0 <= i < |some| && 0 <= j < |others| ==> some[i] != others[j]
  {
    var all := some + others;
    assert forall i :: 0 <= i < |some| ==> all[i] == some[i];
    assert forall j :: 0 <= j < |others| ==> all[|some| + j] == others[j];
  }

  /** A log of two messages to which the first is added again: the search for the number of the
      second finds the first. */
  lemma SearchMissesReadded(first: Msg, second: Msg)
    requires first != second
    requires first.seqNumber == 3 && second.seqNumber == 2
    ensures var msgs := [first, second, first];
            && !StrongSorted(Numbers(msgs))
            && LowerBound(Numbers(msgs), 0, 3, second.seqNumber) == 0 && msgs[0] != second
  {
    assert Numbers([first, second, first]) == [3, 2, 3];
    assert LowerBound([3, 2, 3], 0, 3, 2) == 0;
  }

  /** A message that was just given the largest number, put behind the others: their numbers
      increase strictly if they did before, unless it is one of them. */
  lemma AppendedSorted(msgs: seq<Msg>, msg: Msg, before: seq<int>)
    requires StrongSorted(before) <==> Distinct(msgs)
    requires |before| == |msgs|
    requires forall i :: 0 <= i < |msgs| ==> before[i] < msg.seqNumber
    requires forall i :: 0 <= i < |msgs| && msgs[i] != msg ==> msgs[i].seqNumber == before[i]
    ensures StrongSorted(Numbers(msgs + [msg])) <==> Distinct(msgs + [msg])
  {
    SortedDistinct(msgs + [msg]);
    if Distinct(msgs + [msg]) {
      FrontDistinct(msgs, [msg]);
      assert [msg][0] == msg;
      assert Numbers(msgs + [msg]) == before + [msg.seqNumber];
    }
  }

  /** Messages numbered one after the other, put behind a log with smaller numbers. */
  lemma NumberedBehind(allMsgs: seq<Msg>, msgs: seq<Msg>, first: nat)
    requires StrongSorted(Numbers(allMsgs))
    requires forall i :: 0 <= i < |allMsgs| ==> allMsgs[i].seqNumber < first
    requires forall i :: 0 <= i < |msgs| ==> msgs[i].seqNumber == first + i
    ensures StrongSorted(Numbers(allMsgs + msgs))
    ensures forall i :: 0 <= i < |allMsgs + msgs| ==> (allMsgs + msgs)[i].seqNumber < first + |msgs|
  {
    assert Numbers(allMsgs + msgs) == Numbers(allMsgs) + Numbers(msgs);
  }

  /** Messages that were just numbered, put behind the others: the numbers increase strictly if
      they did before, unless one of them is in the list twice then. */
  lemma ReceivedSorted(allMsgs: seq<Msg>, msgs: seq<Msg>, before: seq<int>, first: nat, next: nat)
    requires |before| == |allMsgs| && (StrongSorted(before) <==> Distinct(allMsgs))
    requires first <= next && forall i :: 0 <= i < |allMsgs| ==> before[i] < first
    requires forall i :: 0 <= i < |allMsgs| && allMsgs[i] !in msgs ==> allMsgs[i].seqNumber == before[i]
    requires forall i :: 0 <= i < |msgs| ==> msgs[i].seqNumber < next
    requires forall i :: 0 <= i < |msgs| && LastHere(msgs, i) ==> msgs[i].seqNumber == first + i
    ensures StrongSorted(Numbers(allMsgs + msgs)) <==> Distinct(allMsgs + msgs)
    ensures forall i :: 0 <= i < |allMsgs + msgs| ==> (allMsgs + msgs)[i].seqNumber < next
  {
    SortedDistinct(allMsgs + msgs);
    if Distinct(allMsgs + msgs) {
      FrontDistinct(allMsgs, msgs);
      hide Distinct, LastHere, StrongSorted;
      assert Numbers(allMsgs) == before;
      NumberedBehind(allMsgs, msgs, first);
    }
  }

  lemma ReceivedInTurn(allMsgs: seq<Msg>, msgs: seq<Msg>, first: nat)
    requires forall i :: 0 <= i < |msgs| && LastHere(msgs, i) ==> msgs[i].seqNumber == first + i
    ensures InTurn(allMsgs + msgs, |allMsgs|, first)
  {
    var all := allMsgs + msgs;
    forall i | 0 <= i < |msgs| && LastHere(all, |allMsgs| + i)
      ensures msgs[i].seqNumber == first + i
    {
      assert forall j :: 0 <= j < |msgs| ==> all[|allMsgs| + j] == msgs[j];
      assert LastHere(msgs, i);
    }
  }

  /** Without one of its messages the log is still numbered increasingly. */
  lemma Removed(msgs: seq<Msg>, k: nat)
    requires k < |msgs| && StrongSorted(Numbers(msgs))
    ensures StrongSorted(Numbers(msgs[..k] + msgs[k + 1..]))
    ensures msgs[k] !in msgs[..k] + msgs[k + 1..]
    ensures forall m :: m in msgs[..k] + msgs[k + 1..] ==> m in msgs
  {}
}
