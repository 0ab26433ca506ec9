/** Requests go out in the order in which they were submitted. A request is its index among all
    requests ever submitted, so the order of submission is the order of these. */
module UrbOrder {
  import opened Options
  import opened UrbQueue
  import opened UrbRuns

  ghost predicate Increasing(s: seq<nat>) {
    forall i, j :: 0 <= i < j < |s| ==> s[i] < s[j]
  }

  /** Of two numbered requests the one submitted first has the smaller number. */
  ghost predicate NumbersFollow(reqs: seq<Req>) {
    forall u, v :: 0 <= u < v < |reqs| && 0 < reqs[u].seqNum && 0 < reqs[v].seqNum ==> reqs[u].seqNum < reqs[v].seqNum
  }

  /** No numbered request was submitted after one that still waits. */
  ghost predicate WaitingAreLast(pending: seq<nat>, reqs: seq<Req>) {
    forall u, v :: u in pending && 0 <= v < |reqs| && 0 < reqs[v].seqNum ==> v < u
  }

  /** Some request has the number n. */
  ghost predicate Numbered(reqs: seq<Req>, n: nat) {
    exists u :: 0 <= u < |reqs| && reqs[u].seqNum == n
  }

  ghost predicate InOrder(s: Vusb) {
    && InRange(s.pending, |s.reqs|) && Increasing(s.pending) && Parked(s)
    && NumbersFollow(s.reqs) && WaitingAreLast(s.pending, s.reqs)
    && (forall v :: 0 <= v < |s.reqs| ==> s.reqs[v].seqNum <= s.seqNum)
    && forall n: nat | 1 <= n <= s.seqNum :: Numbered(s.reqs, n)
  }

  /** The same requests with the same numbers. */
  ghost predicate SameNumbers(reqs: seq<Req>, more: seq<Req>) {
    |reqs| == |more| && forall v :: 0 <= v < |reqs| ==> more[v].seqNum == reqs[v].seqNum
  }

  lemma {:induction false} WithoutIncreasing(s: seq<nat>, u: nat)
    requires Increasing(s)
    ensures Increasing(Without(s, u))
  {
    if s != [] {
      var rest := Without(s[1..], u);
      WithoutIncreasing(s[1..], u);
      forall i | 0 <= i < |rest|
        ensures s[0] < rest[i]
      {
        assert rest[i] in s[1..];
      }
    }
  }

  /** Numbered requests keep their numbers. */
  lemma {:induction false} NumbersCarried(s: Vusb, t: Vusb)
    requires |s.reqs| <= |t.reqs|
    requires forall v :: 0 <= v < |s.reqs| && 0 < s.reqs[v].seqNum ==> t.reqs[v].seqNum == s.reqs[v].seqNum
    ensures forall n: nat | 1 <= n && Numbered(s.reqs, n) :: Numbered(t.reqs, n)
  {
    forall n: nat | 1 <= n && Numbered(s.reqs, n)
      ensures Numbered(t.reqs, n)
    {
      var u :| 0 <= u < |s.reqs| && s.reqs[u].seqNum == n;
      assert t.reqs[u].seqNum == n;
    }
  }

  /** Steps that number no request at most take some off the pending list. */
  lemma {:induction false} NoneNumbered(s: Vusb, t: Vusb)
    requires InOrder(s) && SameNumbers(s.reqs, t.reqs) && t.seqNum == s.seqNum && Parked(t)
    requires t.pending == s.pending || exists u: nat :: t.pending == Without(s.pending, u)
    ensures InOrder(t)
  {
    NumbersCarried(s, t);
    if u: nat :| t.pending == Without(s.pending, u) {
      WithoutIncreasing(s.pending, u);
      WithoutInRange(s.pending, u, |s.reqs|);
    }
  }

  /** A new request waits behind all others, or, if none waits, may get the next number. */
  lemma {:induction false} OneEntered(s: Vusb, t: Vusb, r: Req)
    requires InOrder(s) && t.reqs == s.reqs + [r] && Parked(t)
    requires || (t.seqNum == s.seqNum && r.seqNum == 0
                 && (t.pending == s.pending || t.pending == s.pending + [|s.reqs|]))
             || (t.seqNum == r.seqNum == s.seqNum + 1 && s.pending == t.pending == [])
    ensures InOrder(t)
  {
    NumbersCarried(s, t);
    assert t.reqs[|s.reqs|] == r;
    assert r.seqNum != 0 ==> Numbered(t.reqs, r.seqNum);
  }

  lemma {:induction false} SubmitOrdered(s: Vusb, kind: Kind, markOk: bool, stored: Stored)
    requires InOrder(s)
    ensures InOrder(Submit(s, kind, markOk, stored))
  {
    var t := Submit(s, kind, markOk, stored);
    OneEntered(s, t, t.reqs[|s.reqs|]);
  }

  /** The head of the pending list gets the next number. */
  lemma {:induction false} HeadNumbered(s: Vusb, t: Vusb)
    requires InOrder(s) && s.pending != [] && t.pending == s.pending[1..] && Parked(t)
    requires |t.reqs| == |s.reqs| && t.seqNum == s.seqNum + 1
    requires forall v :: 0 <= v < |s.reqs| ==>
               t.reqs[v].seqNum == if v == s.pending[0] then s.seqNum + 1 else s.reqs[v].seqNum
    ensures InOrder(t)
  {
    var u := s.pending[0];
    assert u in s.pending;
    NumbersCarried(s, t);
    assert t.reqs[u].seqNum == t.seqNum;
    assert Numbered(t.reqs, t.seqNum);
    forall w | w in t.pending
      ensures w in s.pending && u < w
    {
    }
  }

  lemma {:induction false} ReadPendingOrdered(s: Vusb, markOk: bool, stored: Stored)
    requires InOrder(s) && s.partial.None? && !s.pendingRead
    ensures InOrder(ReadPending(s, markOk, stored))
  {
    hide Without;
    if s.pending == [] {
      NoneNumbered(s, ReadPending(s, markOk, stored));
    } else {
      HeadNumbered(s, ReadPending(s, markOk, stored));
    }
  }

  lemma {:induction false} ReadOrdered(s: Vusb, markOk: bool, stored: Stored)
    requires InOrder(s) && Enabled(s, DoRead(markOk, stored))
    ensures InOrder(ReadVusb(s, markOk, stored))
  {
    hide Without;
    if !s.pendingRead && s.partial.Some? {
      var u := s.partial.value;
      var t := Unmark(s, u).(partial := None, lenPartial := 0);
      if UnmarkSucceeds(s.reqs[u]) {
        NoneNumbered(s, ReadVusb(s, markOk, stored));
      } else {
        NoneNumbered(s, t);
        ReadPendingOrdered(t, markOk, stored);
      }
    } else if !s.pendingRead {
      ReadPendingOrdered(s, markOk, stored);
    }
  }

  lemma {:induction false} UnlinkOrdered(s: Vusb, u: nat, stored: Stored)
    requires InOrder(s) && u < |s.reqs|
    ensures InOrder(UnlinkAndComplete(s, u, stored))
  {
    var t := Submit(s, Unlink(s.reqs[u].seqNum), true, stored);
    SubmitOrdered(s, Unlink(s.reqs[u].seqNum), true, stored);
    NoneNumbered(t, UnlinkAndComplete(s, u, stored));
  }

  /** Off the pending list, if it is there. */
  lemma {:induction false} TakenOffOrdered(s: Vusb, t: Vusb, u: nat)
    requires InOrder(s) && SameNumbers(s.reqs, t.reqs) && t.seqNum == s.seqNum && t.pending == Without(s.pending, u)
    requires t.pendingRead == s.pendingRead && (t.partial == s.partial || t.partial.None?)
    ensures InOrder(t)
  {
    assert s.pending == [] ==> t.pending == [];
    NoneNumbered(s, t);
  }

  /** Every step keeps the order, the unsafe ones included. */
  lemma {:induction false} StepOrdered(s: Vusb, step: Step)
    requires InOrder(s) && Enabled(s, step)
    ensures InOrder(Next(s, step))
  {
    hide InOrder, Submit, ReadVusb, UnlinkAndComplete, Without;
    match step
    case DoSubmit(kind, markOk, stored) => SubmitOrdered(s, kind, markOk, stored);
    case DoRead(markOk, stored) => ReadOrdered(s, markOk, stored);
    case DoUnlinkAndComplete(u, stored) => UnlinkOrdered(s, u, stored);
    case DoCancelCallback(u) => TakenOffOrdered(s, Next(s, step), u);
    case DoAbortOne => TakenOffOrdered(s, Next(s, step), s.head[0]);
    case _ => RestOrdered(s, step);
  }

  lemma {:induction false} RestOrdered(s: Vusb, step: Step)
    requires InOrder(s) && Enabled(s, step)
    requires step.DoWrite? || step.DoWriteDone? || step.DoCancelRequest? || step.DoReadCancelled? || step.DoInvalidate?
    ensures InOrder(Next(s, step))
  {
    NoneNumbered(s, Next(s, step));
  }

  lemma {:induction false} RunOrdered(s: Vusb, steps: seq<Step>)
    requires InOrder(s) && Run(s, steps)
    ensures InOrder(After(s, steps))
    decreases |steps|
  {
    hide InOrder, Next;
    if steps != [] {
      StepOrdered(s, steps[0]);
      RunOrdered(Next(s, steps[0]), steps[1..]);
    }
  }

  /** In every run, safe or not, requests are numbered in the order of their submission without a
      gap, the pending list is in that order, and no request that has a number was submitted after
      one that still waits for its. */
  lemma {:induction false} SentInOrderOfSubmission(steps: seq<Step>)
    requires Run(Init, steps)
    ensures var s := After(Init, steps);
      && (forall u, v :: 0 <= u < v < |s.reqs| && 0 < s.reqs[u].seqNum && 0 < s.reqs[v].seqNum ==>
            s.reqs[u].seqNum < s.reqs[v].seqNum)
      && (forall n: nat | 1 <= n <= s.seqNum :: Numbered(s.reqs, n))
      && (forall i, j :: 0 <= i < j < |s.pending| ==> s.pending[i] < s.pending[j])
      && (forall u, v :: u in s.pending && 0 <= v < |s.reqs| && 0 < s.reqs[v].seqNum ==> v < u)
  {
    RunOrdered(Init, steps);
  }
}
