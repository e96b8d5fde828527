/**
 The intended schedule: at which moment every copy of every message is to be sent, and in
 which order copies with the same moment go out. Nothing here mentions relative delays after
 the start; `SendRun` relates it to the delta list.
 */
module Schedule {
  import opened DeltaList

  /** The list handed to the scheduler, and the moment at which it is started. */
  datatype Plan = Plan(start: nat, msgs: seq<Item>)

  /** Copy number `k` of the message at position `msg` of the list. */
  datatype Copy = Copy(msg: nat, k: nat)

  ghost predicate InPlan(plan: Plan, c: Copy) {
    c.msg < |plan.msgs|
  }

  /** The moment of the first copy: the initial delays add up. */
  function FirstDeadline(plan: Plan, msg: nat): nat
    requires msg < |plan.msgs|
  {
    (if msg == 0 then plan.start else FirstDeadline(plan, msg - 1)) + plan.msgs[msg].delay
  }

  /** The moment of any copy: one repeat duration after the copy before it. */
  function Deadline(plan: Plan, c: Copy): nat
    requires InPlan(plan, c)
  {
    FirstDeadline(plan, c.msg) + c.k * plan.msgs[c.msg].repeat
  }

  /** Which copies are wanted: the first of every message; of one with a repeat duration as
      many as its count says, or all of them if the count is zero. */
  predicate Wanted(plan: Plan, c: Copy) {
    && c.msg < |plan.msgs|
    && (c.k == 0 || (0 < plan.msgs[c.msg].repeat
                     && (plan.msgs[c.msg].count == 0 || c.k < plan.msgs[c.msg].count)))
  }

  function Next(c: Copy): Copy {
    Copy(c.msg, c.k + 1)
  }

  function Previous(c: Copy): Copy
    requires 0 < c.k
  {
    Copy(c.msg, c.k - 1)
  }

  lemma NextDeadline(plan: Plan, c: Copy)
    requires InPlan(plan, c)
    ensures Deadline(plan, Next(c)) == Deadline(plan, c) + plan.msgs[c.msg].repeat
  {}

  /** Which copy is sent first. Of copies with the same moment, first copies go in the order of
      the list and before repeated ones; repeated ones go in the order of the copies before
      them, since it is then that they were put into the list. */
  ghost predicate Before(plan: Plan, a: Copy, b: Copy)
    requires InPlan(plan, a) && InPlan(plan, b)
    decreases a.k
  {
    || Deadline(plan, a) < Deadline(plan, b)
    || (Deadline(plan, a) == Deadline(plan, b)
        && (if a.k == 0 then 0 < b.k || a.msg < b.msg
            else 0 < b.k && Before(plan, Previous(a), Previous(b))))
  }

  /** `Before` is a strict total order, so it puts any set of copies into one order only. */
  lemma {:induction false} BeforeIrreflexive(plan: Plan, a: Copy)
    requires InPlan(plan, a)
    ensures !Before(plan, a, a)
    decreases a.k
  {
    if 0 < a.k {
      BeforeIrreflexive(plan, Previous(a));
    }
  }

  lemma {:induction false} BeforeTransitive(plan: Plan, a: Copy, b: Copy, c: Copy)
    requires InPlan(plan, a) && InPlan(plan, b) && InPlan(plan, c)
    requires Before(plan, a, b) && Before(plan, b, c)
    ensures Before(plan, a, c)
    decreases a.k
  {
    if Deadline(plan, a) == Deadline(plan, c) && 0 < a.k {
      BeforeTransitive(plan, Previous(a), Previous(b), Previous(c));
    }
  }

  lemma {:induction false} BeforeTotal(plan: Plan, a: Copy, b: Copy)
    requires InPlan(plan, a) && InPlan(plan, b) && a != b
    ensures Before(plan, a, b) || Before(plan, b, a)
    decreases a.k
  {
    if Deadline(plan, a) == Deadline(plan, b) && 0 < a.k && 0 < b.k {
      BeforeTotal(plan, Previous(a), Previous(b));
    }
  }

  ghost predicate AllInPlan(plan: Plan, copies: seq<Copy>) {
    forall i :: 0 <= i < |copies| ==> InPlan(plan, copies[i])
  }

  /** In the order of `Before`, hence without duplicates. */
  ghost predicate Ordered(plan: Plan, copies: seq<Copy>) {
    && AllInPlan(plan, copies)
    && (forall i, j :: 0 <= i < j < |copies| ==> Before(plan, copies[i], copies[j]))
  }

  /** Two ordered lists of the same copies are equal: the order leaves no choice. */
  lemma {:induction false} OrderedUnique(plan: Plan, a: seq<Copy>, b: seq<Copy>)
    requires Ordered(plan, a) && Ordered(plan, b)
    requires forall c :: c in a <==> c in b
    ensures a == b
  {
    assert b != [] ==> b[0] in a;
    if a != [] {
      SameHead(plan, a, b);
      HeadOnce(plan, a);
      HeadOnce(plan, b);
      hide Ordered;
      assert a == [a[0]] + a[1..] && b == [b[0]] + b[1..];
      forall c
        ensures c in a[1..] <==> c in b[1..]
      {
        assert c in a <==> c == a[0] || c in a[1..];
        assert c in b <==> c == b[0] || c in b[1..];
      }
      OrderedUnique(plan, a[1..], b[1..]);
    }
  }

  lemma SameHead(plan: Plan, a: seq<Copy>, b: seq<Copy>)
    requires Ordered(plan, a) && Ordered(plan, b)
    requires a != [] && forall c :: c in a <==> c in b
    ensures b != [] && a[0] == b[0]
  {
    hide Before;
    assert a[0] in b && b[0] in a;
    var i :| 0 <= i < |b| && b[i] == a[0];
    var j :| 0 <= j < |a| && a[j] == b[0];
    if i != 0 && j != 0 {
      BeforeTransitive(plan, a[0], b[0], a[0]);
      BeforeIrreflexive(plan, a[0]);
    }
  }

  lemma HeadOnce(plan: Plan, copies: seq<Copy>)
    requires copies != [] && Ordered(plan, copies)
    ensures copies[0] !in copies[1..]
    ensures Ordered(plan, copies[1..])
  {
    BeforeIrreflexive(plan, copies[0]);
  }

  // ---- Sending one copy ------------------------------------------------------------------

  /** What holds of the copies sent so far and those waiting: together they are ordered and
      wanted; they start with the first copies; a sent copy has its successor among them, if
      that is wanted; and a waiting copy is the successor of a sent one. */
  ghost predicate Consistent(plan: Plan, sent: seq<Copy>, waiting: seq<Copy>) {
    && Ordered(plan, sent + waiting)
    && (forall c :: Known(sent, waiting, c) ==> Wanted(plan, c))
    && (forall i :: 0 <= i < |plan.msgs| ==> Known(sent, waiting, Copy(i, 0)))
    && (forall c :: c in sent && Wanted(plan, Next(c)) ==> Known(sent, waiting, Next(c)))
    && (forall c :: c in waiting && 0 < c.k ==> Previous(c) in sent)
  }

  ghost predicate Known(sent: seq<Copy>, waiting: seq<Copy>, c: Copy) {
    c in sent || c in waiting
  }

  /** Every wanted copy was sent, or a copy of the same message that is not later waits. */
  lemma {:induction false} SentOrWaits(plan: Plan, sent: seq<Copy>, waiting: seq<Copy>, c: Copy)
    requires Consistent(plan, sent, waiting)
    requires Wanted(plan, c)
    ensures c in sent || exists w :: w in waiting && w.msg == c.msg && Deadline(plan, w) <= Deadline(plan, c)
    decreases c.k
  {
    if c.k == 0 {
      assert Known(sent, waiting, Copy(c.msg, 0));
    } else {
      var p := Previous(c);
      SentOrWaits(plan, sent, waiting, p);
      NextDeadline(plan, p);
      assert Next(p) == c;
      assert p in sent ==> Known(sent, waiting, Next(p));
    }
  }

  /** All waiting copies are at `time` or later. */
  ghost predicate NotBefore(plan: Plan, time: nat, copies: seq<Copy>) {
    forall i :: 0 <= i < |copies| ==> InPlan(plan, copies[i]) && time <= Deadline(plan, copies[i])
  }

  /** All sent copies are before `time`. */
  ghost predicate AllBefore(plan: Plan, time: nat, copies: seq<Copy>) {
    forall i :: 0 <= i < |copies| ==> InPlan(plan, copies[i]) && Deadline(plan, copies[i]) < time
  }

  /** The sent copies are exactly the wanted ones with a moment before `time`. */
  lemma SentExactly(plan: Plan, sent: seq<Copy>, waiting: seq<Copy>, time: nat, c: Copy)
    requires Consistent(plan, sent, waiting)
    requires AllBefore(plan, time, sent) && NotBefore(plan, time, waiting)
    ensures c in sent <==> Wanted(plan, c) && Deadline(plan, c) < time
  {
    if c in sent {
      assert Known(sent, waiting, c);
    }
    if Wanted(plan, c) && Deadline(plan, c) < time {
      SentOrWaits(plan, sent, waiting, c);
    }
  }

  /** With nothing waiting, all wanted copies were sent. */
  lemma AllSent(plan: Plan, sent: seq<Copy>, c: Copy)
    requires Consistent(plan, sent, [])
    ensures c in sent <==> Wanted(plan, c)
  {
    if c in sent {
      assert Known(sent, [], c);
    }
    if Wanted(plan, c) {
      SentOrWaits(plan, sent, [], c);
    }
  }

  lemma {:induction false} FirstDeadlinesGrow(plan: Plan, i: nat, j: nat)
    requires i <= j < |plan.msgs|
    ensures plan.start <= FirstDeadline(plan, i) <= FirstDeadline(plan, j)
    decreases j
  {
    if i < j {
      FirstDeadlinesGrow(plan, i, j - 1);
    } else if 0 < i {
      FirstDeadlinesGrow(plan, i - 1, i - 1);
    }
  }

  function FirstCopies(plan: Plan): seq<Copy> {
    seq(|plan.msgs|, i requires 0 <= i => Copy(i, 0))
  }

  lemma StartConsistent(plan: Plan)
    ensures Consistent(plan, [], FirstCopies(plan))
  {
    var first := FirstCopies(plan);
    FirstOrdered(plan);
    hide Ordered;
    assert [] + first == first;
    forall i | 0 <= i < |plan.msgs|
      ensures Known([], first, Copy(i, 0))
    {
      assert first[i] == Copy(i, 0);
    }
  }

  lemma FirstOrdered(plan: Plan)
    ensures Ordered(plan, FirstCopies(plan))
  {
    var first := FirstCopies(plan);
    forall i, j | 0 <= i < j < |first|
      ensures Before(plan, first[i], first[j])
    {
      FirstDeadlinesGrow(plan, i, j);
    }
  }

  /** A copy goes from the waiting ones to the sent ones, and its successor, if it is wanted,
      is among the waiting ones afterwards: then everything but the order stays consistent. */
  lemma ConsistentAfter(plan: Plan, sent: seq<Copy>, waiting: seq<Copy>, c: Copy, waiting': seq<Copy>)
    requires Consistent(plan, sent, waiting) && c in waiting
    requires Ordered(plan, sent + [c] + waiting')
    requires forall x :: x in waiting ==> x == c || x in waiting'
    requires forall x :: x in waiting' ==> x in waiting || (x == Next(c) && Wanted(plan, x))
    requires Wanted(plan, Next(c)) ==> Next(c) in waiting'
    ensures Consistent(plan, sent + [c], waiting')
  {}

  /** Sending a copy that does not come back. */
  lemma SendLast(plan: Plan, sent: seq<Copy>, c: Copy, rest: seq<Copy>)
    requires Consistent(plan, sent, [c] + rest)
    requires !Wanted(plan, Next(c))
    ensures Consistent(plan, sent + [c], rest)
  {
    assert sent + [c] + rest == sent + ([c] + rest);
    ConsistentAfter(plan, sent, [c] + rest, c, rest);
  }

  /** A waiting copy that is not later than the successor of `c` is sent before it: if both are
      at the same moment, the copy before the waiting one was sent earlier than `c`. */
  lemma WaitsBefore(plan: Plan, sent: seq<Copy>, c: Copy, rest: seq<Copy>, x: Copy)
    requires Consistent(plan, sent, [c] + rest)
    requires Wanted(plan, Next(c))
    requires x in rest && InPlan(plan, x) && Deadline(plan, x) <= Deadline(plan, Next(c))
    ensures Before(plan, x, Next(c))
  {
    var all := sent + ([c] + rest);
    assert all[|sent|] == c;
    if Deadline(plan, x) == Deadline(plan, Next(c)) && 0 < x.k {
      assert x in [c] + rest;
      var j :| 0 <= j < |sent| && sent[j] == Previous(x);
      assert Before(plan, all[j], all[|sent|]);
      assert Previous(Next(c)) == c;
    }
  }

  /** The copies sent so far, and `c` itself, are sent before the successor of `c`. */
  lemma SentBefore(plan: Plan, sent: seq<Copy>, c: Copy, rest: seq<Copy>, i: nat)
    requires Consistent(plan, sent, [c] + rest)
    requires Wanted(plan, Next(c))
    requires i <= |sent|
    ensures InPlan(plan, (sent + [c])[i]) && Before(plan, (sent + [c])[i], Next(c))
  {
    var all := sent + ([c] + rest);
    assert all[|sent|] == c && all[i] == (sent + [c])[i];
    NextDeadline(plan, c);
    if i < |sent| {
      assert Before(plan, all[i], all[|sent|]);
    }
  }

  /** Putting a copy between two parts of an ordered list. */
  lemma OrderedWith(plan: Plan, before: seq<Copy>, after: seq<Copy>, n: Copy)
    requires InPlan(plan, n) && Ordered(plan, before + after)
    requires forall i :: 0 <= i < |before| ==> InPlan(plan, before[i]) && Before(plan, before[i], n)
    requires forall i :: 0 <= i < |after| ==> InPlan(plan, after[i]) && Before(plan, n, after[i])
    ensures Ordered(plan, before + [n] + after)
  {
    var all := before + [n] + after;
    var others := before + after;
    forall i, j | 0 <= i < j < |all|
      ensures InPlan(plan, all[i]) && InPlan(plan, all[j]) && Before(plan, all[i], all[j])
    {
      hide Before;
      if i != |before| && j != |before| {
        var i' := if i < |before| then i else i - 1;
        var j' := if j < |before| then j else j - 1;
        assert all[i] == others[i'] && all[j] == others[j'];
      }
    }
    assert all[|before|] == n;
    assert forall i :: 0 <= i < |all| && i != |before| ==>
                         all[i] == others[if i < |before| then i else i - 1];
  }

  lemma PutBackOrdered(plan: Plan, sent: seq<Copy>, c: Copy, early: seq<Copy>, late: seq<Copy>)
    requires Consistent(plan, sent, [c] + (early + late))
    requires Wanted(plan, Next(c))
    requires forall x :: x in early ==> InPlan(plan, x) && Deadline(plan, x) <= Deadline(plan, Next(c))
    requires forall x :: x in late ==> InPlan(plan, x) && Deadline(plan, Next(c)) < Deadline(plan, x)
    ensures Ordered(plan, sent + [c] + early + [Next(c)] + late)
  {
    var before := sent + [c] + early;
    assert before + late == sent + ([c] + (early + late));
    forall i | 0 <= i < |before|
      ensures InPlan(plan, before[i]) && Before(plan, before[i], Next(c))
    {
      if i <= |sent| {
        SentBefore(plan, sent, c, early + late, i);
      } else {
        assert before[i] in early;
        WaitsBefore(plan, sent, c, early + late, before[i]);
      }
    }
    OrderedWith(plan, before, late, Next(c));
  }

  /** Sending a copy and putting its successor behind the waiting copies that are not later. */
  lemma SendAndPutBack(plan: Plan, sent: seq<Copy>, c: Copy, early: seq<Copy>, late: seq<Copy>)
    requires Consistent(plan, sent, [c] + (early + late))
    requires Wanted(plan, Next(c))
    requires forall x :: x in early ==> InPlan(plan, x) && Deadline(plan, x) <= Deadline(plan, Next(c))
    requires forall x :: x in late ==> InPlan(plan, x) && Deadline(plan, Next(c)) < Deadline(plan, x)
    ensures Consistent(plan, sent + [c], early + [Next(c)] + late)
  {
    PutBackOrdered(plan, sent, c, early, late);
    hide Consistent, Deadline, Before, Wanted, Ordered;
    var waiting, waiting' := [c] + (early + late), early + [Next(c)] + late;
    assert sent + [c] + early + [Next(c)] + late == sent + [c] + waiting';
    forall x
      ensures x in waiting <==> x == c || x in early || x in late
      ensures x in waiting' <==> x == Next(c) || x in early || x in late
    {}
    ConsistentAfter(plan, sent, waiting, c, waiting');
  }
}
