/** Whole runs of the URB life cycle: what holds in every reachable state, and the two
    interleavings in which the driver breaks its own bookkeeping.

    A read or write first looks the device up, under another lock, and goes no further if
    plug-out has begun. Its step here is what it does under the device's own lock, which may
    be before plug-out or, if the lookup was in time, after. */
module UrbRuns {
  import opened Bytes
  import opened Options
  import opened UrbQueue

  datatype Step =
    | DoSubmit(kind: Kind, markOk: bool, stored: Stored)
    | DoRead(markOk: bool, stored: Stored)
    | DoWrite(seqNum: nat)
    | DoWriteDone(u: nat, status: Status)
    | DoCancelRequest(u: nat)
    | DoCancelCallback(u: nat)
    | DoUnlinkAndComplete(u: nat, stored: Stored)
    | DoReadCancelled
    | DoInvalidate
    | DoAbortOne

  /** The requests a step refers to exist and are in the state the step needs. */
  predicate Enabled(s: Vusb, step: Step) {
    && ListsKnown(s)
    && match step
       case DoSubmit(kind, _, stored) => stored == Partly ==> kind == Urb
       case DoRead(_, stored) => StoredFits(s, stored)
       case DoWrite(_) => true
       case DoWriteDone(u, _) => u in s.answering && u < |s.reqs|
       case DoCancelRequest(u) => u < |s.reqs| && s.reqs[u].wdf == Marked
       case DoCancelCallback(u) => u < |s.reqs| && s.reqs[u].wdf == Cancelling
       case DoUnlinkAndComplete(u, stored) => u < |s.reqs| && s.reqs[u].wdf == Unlinking && stored != Partly
       case DoReadCancelled => true
       case DoInvalidate => true
       case DoAbortOne => s.invalid && s.head != []
  }

  function Next(s: Vusb, step: Step): Vusb
    requires Enabled(s, step)
  {
    match step
    case DoSubmit(kind, markOk, stored) => Submit(s, kind, markOk, stored)
    case DoRead(markOk, stored) => ReadVusb(s, markOk, stored)
    case DoWrite(seqNum) => WriteVusb(s, seqNum)
    case DoWriteDone(u, status) => WriteDone(s, u, status)
    case DoCancelRequest(u) => CancelRequest(s, u)
    case DoCancelCallback(u) => CancelCallback(s, u)
    case DoUnlinkAndComplete(u, stored) => UnlinkAndComplete(s, u, stored)
    case DoReadCancelled => ReadCancelled(s)
    case DoInvalidate => Invalidate(s)
    case DoAbortOne => AbortOne(s)
  }

  /** The two steps that can go wrong: plug-out aborts a request whose cancel callback is
      outstanding although a read has already found it cancelled and cleared its flag; and a
      read goes on with a partially sent request that plug-out has aborted. */
  predicate Safe(s: Vusb, step: Step)
    requires Enabled(s, step)
  {
    && (step.DoAbortOne? ==> !Orphan(s.reqs[s.head[0]]))
    && (step.DoRead? ==> !Stale(s))
  }

  predicate Run(s: Vusb, steps: seq<Step>)
    decreases |steps|
  {
    steps == [] || (Enabled(s, steps[0]) && Run(Next(s, steps[0]), steps[1..]))
  }

  function After(s: Vusb, steps: seq<Step>): Vusb
    requires Run(s, steps)
    decreases |steps|
  {
    if steps == [] then s else After(Next(s, steps[0]), steps[1..])
  }

  predicate SafeRun(s: Vusb, steps: seq<Step>)
    decreases |steps|
  {
    Run(s, steps) && (steps == [] || (Safe(s, steps[0]) && SafeRun(Next(s, steps[0]), steps[1..])))
  }

  /** A step keeps the invariant exactly when it is safe. */
  lemma {:induction false} StepInv(s: Vusb, step: Step)
    requires Inv(s) && Enabled(s, step)
    ensures Inv(Next(s, step)) <==> Safe(s, step)
  {
    hide Inv, Submit, ReadVusb, WriteVusb, WriteDone, CancelRequest, CancelCallback, UnlinkAndComplete, AbortOne;
    hide Orphan, Stale;
    match step
    case DoSubmit(kind, markOk, stored) => SubmitInv(s, kind, markOk, stored);
    case DoRead(markOk, stored) => ReadSafeIff(s, markOk, stored);
    case DoWrite(seqNum) => WriteVusbInv(s, seqNum);
    case DoWriteDone(u, status) => WriteDoneInv(s, u, status);
    case DoCancelRequest(u) => CancelRequestInv(s, u);
    case DoCancelCallback(u) => CancelCallbackInv(s, u);
    case DoUnlinkAndComplete(u, stored) => UnlinkAndCompleteInv(s, u, stored);
    case DoReadCancelled => ReadCancelledInv(s);
    case DoInvalidate => ReadCancelledInv(s);
    case DoAbortOne => AbortOneInv(s);
  }

  lemma {:induction false} RunInv(s: Vusb, steps: seq<Step>)
    requires Inv(s) && SafeRun(s, steps)
    ensures Inv(After(s, steps))
    decreases |steps|
  {
    hide Inv;
    if steps != [] {
      StepInv(s, steps[0]);
      RunInv(Next(s, steps[0]), steps[1..]);
    }
  }

  // ---------------------------------------------------------------------------
  // What holds in every state of a safe run
  // ---------------------------------------------------------------------------

  /** Where a request can be. */
  datatype Place = AtPending | AtSent | AtPartial | AtWriter | AtCancel | AtCompleted

  ghost predicate IsAt(s: Vusb, u: nat, place: Place)
    requires u < |s.reqs|
  {
    match place
    case AtPending => u in s.pending
    case AtSent => u in s.sent
    case AtPartial => s.partial == Some(u) && u in s.head
    case AtWriter => u in s.answering && u !in Ids(s.log)
    case AtCancel => !Tracked(s, u) && u !in s.answering && u !in Ids(s.log)
                     && (s.reqs[u].wdf == Cancelling || s.reqs[u].wdf == Unlinking)
    case AtCompleted => u in Ids(s.log)
  }

  /** Every request ever submitted is in exactly one place. */
  lemma {:induction false} ExactlyOnePlace(steps: seq<Step>, u: nat) returns (place: Place)
    requires SafeRun(Init, steps) && u < |After(Init, steps).reqs|
    ensures IsAt(After(Init, steps), u, place)
    ensures forall p :: IsAt(After(Init, steps), u, p) ==> p == place
  {
    InitInv();
    RunInv(Init, steps);
    place := PlaceOf(After(Init, steps), u);
  }

  lemma {:induction false} PlaceOf(s: Vusb, u: nat) returns (place: Place)
    requires Inv(s) && u < |s.reqs|
    ensures IsAt(s, u, place) && forall p :: IsAt(s, u, p) ==> p == place
  {
    assert ReqInv(s, u);
    if u in Ids(s.log) {
      place := AtCompleted;
    } else if u in s.pending {
      place := AtPending;
    } else if u in s.sent {
      place := AtSent;
    } else if s.partial == Some(u) && u in s.head {
      place := AtPartial;
    } else if u in s.answering {
      place := AtWriter;
    } else {
      place := AtCancel;
      if u in s.head {
        assert Tracked(s, u) || s.reqs[u].wdf == Cancelling;
      }
    }
  }

  /** No request is ever completed twice, and once nothing is queued, being answered or
      being cancelled, every submitted request has been completed: exactly once. */
  lemma {:induction false} CompletedExactlyOnce(steps: seq<Step>)
    requires SafeRun(Init, steps)
    ensures var s := After(Init, steps);
            && (forall i, j :: 0 <= i < j < |s.log| ==> s.log[i].id != s.log[j].id)
            && (s.head == [] && s.answering == {}
                && (forall u: nat :: u < |s.reqs| ==> s.reqs[u].wdf != Cancelling && s.reqs[u].wdf != Unlinking)
                ==> forall u: nat :: u < |s.reqs| <==> u in Ids(s.log))
  {
    InitInv();
    RunInv(Init, steps);
  }

  /** Requests on the sent list have strictly increasing non-zero numbers, requests that
      still wait have number 0, so a response belongs to at most one request. */
  lemma {:induction false} ResponseIsUnambiguous(steps: seq<Step>, seqNum: nat, i: nat, j: nat)
    requires SafeRun(Init, steps)
    ensures var s := After(Init, steps);
            && Known(s)
            && (forall u: nat :: u in s.pending ==> s.reqs[u].seqNum == 0)
            && (forall k :: 0 <= k < |s.sent| ==> 0 < s.reqs[s.sent[k]].seqNum)
            && (forall k, l :: 0 <= k < l < |s.sent| ==> s.reqs[s.sent[k]].seqNum < s.reqs[s.sent[l]].seqNum)
            && (i < |s.sent| && j < |s.sent| && s.reqs[s.sent[i]].seqNum == seqNum == s.reqs[s.sent[j]].seqNum
                ==> i == j)
  {
    hide Run, After, Inv, Known;
    InitInv();
    RunInv(Init, steps);
    NumbersOfSent(After(Init, steps));
  }

  lemma {:induction false} NumbersOfSent(s: Vusb)
    requires Inv(s)
    ensures Known(s)
    ensures forall u: nat :: u in s.pending ==> s.reqs[u].seqNum == 0
    ensures forall k :: 0 <= k < |s.sent| ==> 0 < s.reqs[s.sent[k]].seqNum
    ensures forall k, l :: 0 <= k < l < |s.sent| ==> s.reqs[s.sent[k]].seqNum < s.reqs[s.sent[l]].seqNum
  {
    hide Lists, Places, Flags, Parked, CompletedOnce;
    forall k | 0 <= k < |s.sent|
      ensures 0 < s.reqs[s.sent[k]].seqNum
    {
      assert s.sent[k] in s.sent;
    }
  }

  /** A response takes its own request off the lists and nothing else; a response without a
      request changes nothing. */
  lemma {:induction false} ResponseTakesItsRequest(s: Vusb, seqNum: nat)
    requires Inv(s)
    ensures var t := WriteVusb(s, seqNum);
            && (forall u: nat :: u in s.sent && s.reqs[u].seqNum == seqNum ==>
                  && u in t.answering && u !in t.head
                  && forall v: nat :: v != u ==> (v in t.sent <==> v in s.sent) && (v in t.head <==> v in s.head))
            && ((forall u: nat :: u in s.sent ==> s.reqs[u].seqNum != seqNum) ==> t == s)
  {
    forall u: nat | u in s.sent && s.reqs[u].seqNum == seqNum
      ensures var i := FindSent(s, seqNum); i < |s.sent| && u == s.sent[i]
    {
      var j :| 0 <= j < |s.sent| && s.sent[j] == u;
      SameNumber(s, FindSent(s, seqNum), j);
    }
    if FindSent(s, seqNum) < |s.sent| {
      assert s.sent[FindSent(s, seqNum)] in s.sent;
    }
  }

  lemma {:induction false} SameNumber(s: Vusb, i: nat, j: nat)
    requires Inv(s) && i <= j < |s.sent| && s.reqs[s.sent[i]].seqNum == s.reqs[s.sent[j]].seqNum
    ensures i == j
  {
  }

  /** While the device is plugged in, a cancelled request sends an unlink exactly when it has
      left the pending list; the unlink names the request's own number. */
  lemma {:induction false} UnlinkWhenSent(s: Vusb, u: nat, stored: Stored)
    requires Inv(s) && !s.invalid && u < |s.reqs| && s.reqs[u].wdf == Cancelling && stored != Partly
    ensures var t := CancelCallback(s, u);
            && (t.reqs[u].wdf == Unlinking <==> u !in s.pending)
            && (t.reqs[u].wdf == Unlinking ==>
                  var v := UnlinkAndComplete(t, u, stored);
                  |v.reqs| == |t.reqs| + 1 && v.reqs[|t.reqs|].kind == Unlink(s.reqs[u].seqNum))
            && (u in s.pending ==> u in Ids(t.log) && t.reqs == s.reqs[u := s.reqs[u].(wdf := CallbackDone)])
  {
    assert ReqInv(s, u);
    if u in s.pending {
      CompletedIsDone(s, u, Cancelled);
      IdsAppend(s.log, Completion(u, Cancelled));
    }
  }

  /** Why a step completes a request, and with which status: an answered request with the status
      of its response, a cancelled one as cancelled, one whose store failed as failed, one found
      by plug-out as disconnected; and a new one that is not accepted with what it met. */
  ghost predicate HasCause(s: Vusb, step: Step, c: Completion)
    requires Enabled(s, step)
  {
    match step
    case DoSubmit(kind, markOk, stored) => c == Completion(|s.reqs|, Refusal(s, kind, markOk, stored))
    case DoRead(_, stored) => c.status == Failed && stored == Refused && (s.partial == Some(c.id) || c.id in s.pending)
    case DoWriteDone(u, status) => c == Completion(u, status)
    case DoCancelCallback(u) => c == Completion(u, Cancelled)
    case DoUnlinkAndComplete(u, stored) =>
      || c == Completion(u, Cancelled)
      || c == Completion(|s.reqs|, Refusal(s, Unlink(s.reqs[u].seqNum), true, stored))
    case DoAbortOne => c == Completion(s.head[0], NotConnected)
    case _ => false
  }

  /** What a request meets that is not accepted: no device any more, a cancellation, or a failed
      store into the waiting read. */
  function Refusal(s: Vusb, kind: Kind, markOk: bool, stored: Stored): Status {
    if s.invalid then NotConnected
    else if s.partial.Some? || !s.pendingRead then (if kind == Urb && !markOk then Cancelled else Ok)
    else if stored == Refused then Failed else Ok
  }

  lemma {:induction false} SubmitLog(s: Vusb, kind: Kind, markOk: bool, stored: Stored)
    ensures var status := Refusal(s, kind, markOk, stored);
      Submit(s, kind, markOk, stored).log == if status == Ok then s.log else s.log + [Completion(|s.reqs|, status)]
  {
  }

  /** The log grew by completions that have their cause. */
  ghost predicate Grew(s: Vusb, step: Step, t: Vusb)
    requires Enabled(s, step)
  {
    s.log <= t.log && forall c :: c in t.log[|s.log|..] ==> HasCause(s, step, c)
  }

  lemma {:induction false} GrewByOne(s: Vusb, step: Step, t: Vusb, c: Completion)
    requires Enabled(s, step) && HasCause(s, step, c) && (t.log == s.log || t.log == s.log + [c])
    ensures Grew(s, step, t)
  {
    hide HasCause;
  }

  lemma {:induction false} UnlinkLog(s: Vusb, u: nat, stored: Stored)
    requires Enabled(s, DoUnlinkAndComplete(u, stored))
    ensures var t := UnlinkAndComplete(s, u, stored);
      Grew(s, DoUnlinkAndComplete(u, stored), t) && Completion(u, Cancelled) in t.log
  {
    hide Submit, Refusal;
    SubmitLog(s, Unlink(s.reqs[u].seqNum), true, stored);
    var t := UnlinkAndComplete(s, u, stored);
    assert t.log[|t.log| - 1] == Completion(u, Cancelled);
  }

  lemma {:induction false} FailedLog(s: Vusb, u: nat)
    requires u < |s.reqs|
    ensures ReadFailed(s, u).log == s.log || ReadFailed(s, u).log == s.log + [Completion(u, Failed)]
  {
  }

  lemma {:induction false} PendingLog(s: Vusb, markOk: bool, stored: Stored)
    requires s.pending != [] ==> s.pending[0] < |s.reqs|
    ensures var log := ReadPending(s, markOk, stored).log;
      log == s.log || (stored == Refused && s.pending != [] && log == s.log + [Completion(s.pending[0], Failed)])
  {
    hide ReadFailed;
    if s.pending != [] {
      var u, n := s.pending[0], s.seqNum + 1;
      FailedLog(s.(seqNum := n, reqs := s.reqs[u := s.reqs[u].(seqNum := n)], pending := s.pending[1..]), u);
    }
  }

  lemma {:induction false} ReadLog(s: Vusb, markOk: bool, stored: Stored)
    requires Enabled(s, DoRead(markOk, stored))
    ensures Grew(s, DoRead(markOk, stored), ReadVusb(s, markOk, stored))
  {
    hide ReadFailed, ReadPending;
    PendingLog(s, markOk, stored);
    if s.partial.Some? {
      PendingLog(Unmark(s, s.partial.value).(partial := None, lenPartial := 0), markOk, stored);
      FailedLog(Unmark(s, s.partial.value).(lenPartial := 0), s.partial.value);
    }
  }

  /** Completions are never taken back, and each has its cause. A new request is completed at once
      if and only if something refuses it. */
  lemma {:induction false} CompletionsHaveCauses(s: Vusb, step: Step)
    requires Enabled(s, step)
    ensures Grew(s, step, Next(s, step))
    ensures step.DoSubmit? ==>
              (Next(s, step).log == s.log <==> Refusal(s, step.kind, step.markOk, step.stored) == Ok)
    ensures step.DoUnlinkAndComplete? ==> Completion(step.u, Cancelled) in Next(s, step).log
  {
    hide Without, FindSent, Submit, ReadVusb, UnlinkAndComplete, Refusal, Grew;
    var t := Next(s, step);
    match step
    case DoSubmit(kind, markOk, stored) =>
      SubmitLog(s, kind, markOk, stored);
      GrewByOne(s, step, t, Completion(|s.reqs|, Refusal(s, kind, markOk, stored)));
    case DoRead(markOk, stored) => ReadLog(s, markOk, stored);
    case DoWriteDone(u, status) => GrewByOne(s, step, t, Completion(u, status));
    case DoCancelCallback(u) => GrewByOne(s, step, t, Completion(u, Cancelled));
    case DoUnlinkAndComplete(u, stored) => UnlinkLog(s, u, stored);
    case DoAbortOne => GrewByOne(s, step, t, Completion(s.head[0], NotConnected));
    case _ => NoneCompleted(s, step);
  }

  lemma {:induction false} NoneCompleted(s: Vusb, step: Step)
    requires Enabled(s, step)
    requires step.DoWrite? || step.DoCancelRequest? || step.DoReadCancelled? || step.DoInvalidate?
    ensures Grew(s, step, Next(s, step))
  {
  }

  // ---------------------------------------------------------------------------
  // Reads make progress
  // ---------------------------------------------------------------------------

  function Work(s: Vusb): nat {
    2 * |s.pending| + if s.partial.Some? then 1 else 0
  }

  /** A parked read means there is nothing to send; and a read that finds work, before or
      after plug-out, always leaves less of it, whatever becomes of the store. */
  lemma {:induction false} ReadsDrainTheQueue(steps: seq<Step>, markOk: bool, stored: Stored)
    requires SafeRun(Init, steps) && Enabled(After(Init, steps), DoRead(markOk, stored))
    ensures var s := After(Init, steps);
            var t := ReadVusb(s, markOk, stored);
            && (s.pendingRead ==> Work(s) == 0 && t == s)
            && (Work(s) > 0 ==> Work(t) < Work(s))
            && (Work(s) == 0 && !s.pendingRead ==> t == s.(pendingRead := markOk))
  {
    InitInv();
    RunInv(Init, steps);
    ReadLeavesLess(After(Init, steps), markOk, stored);
  }

  lemma {:induction false} ReadLeavesLess(s: Vusb, markOk: bool, stored: Stored)
    requires Parked(s) && Enabled(s, DoRead(markOk, stored)) && (s.partial.Some? <==> s.lenPartial != 0)
    ensures var t := ReadVusb(s, markOk, stored);
            && (s.pendingRead ==> Work(s) == 0 && t == s)
            && (Work(s) > 0 ==> Work(t) < Work(s))
            && (Work(s) == 0 && !s.pendingRead ==> t == s.(pendingRead := markOk))
  {
    hide Without;
    if !s.pendingRead && s.pending != [] {
      assert |s.pending[1..]| == |s.pending| - 1;
    }
  }

  // ---------------------------------------------------------------------------
  // Where the driver breaks its own bookkeeping
  // ---------------------------------------------------------------------------

  /** A read keeps the invariant exactly when plug-out has not aborted the partially sent
      request, which `abort_all_pending_urbrs` leaves in urbr_sent_partial. */
  lemma {:induction false} ReadSafeIff(s: Vusb, markOk: bool, stored: Stored)
    requires Inv(s) && StoredFits(s, stored)
    requires s.partial.Some? ==> s.partial.value < |s.reqs|
    requires s.pending != [] ==> s.pending[0] < |s.reqs|
    ensures Inv(ReadVusb(s, markOk, stored)) <==> !Stale(s)
  {
    if !Stale(s) {
      ReadVusbInv(s, markOk, stored);
    } else {
      var u := s.partial.value;
      var t := ReadVusb(s, markOk, stored);
      assert ReqInv(s, u);
      if stored == Refused {
        StaleRefused(s, u);
      } else {
        assert t.sent[|t.sent| - 1] == u;
        assert u in t.sent && u !in t.head;
      }
    }
  }

  /** A stale request whose rest cannot be stored is completed once more, or while its cancel
      callback is still to come. */
  lemma {:induction false} StaleRefused(s: Vusb, u: nat)
    requires Inv(s) && !s.pendingRead && s.partial == Some(u) && u !in s.head && u < |s.reqs|
    ensures !Inv(ReadVusb(s, true, Refused)) && !Inv(ReadVusb(s, false, Refused))
  {
    assert ReqInv(s, u);
    var m := Unmark(s, u).(lenPartial := 0);
    assert m.reqs == s.reqs;
    var k := Unmark(m.(head := Without(m.head, u)), u).(partial := None);
    CompleteOnce(k, u, Failed);
    CompletedIsDone(k, u, Failed);
    var t := Complete(k, u, Failed);
    if u !in Ids(s.log) {
      assert !ReqInv(t, u);
    }
  }

  lemma {:induction false} RunCons(s: Vusb, step: Step, rest: seq<Step>)
    requires Enabled(s, step) && Safe(s, step) && SafeRun(Next(s, step), rest)
    ensures SafeRun(s, [step] + rest) && After(s, [step] + rest) == After(Next(s, step), rest)
  {
    assert ([step] + rest)[1..] == rest;
  }

  lemma {:induction false} RunOne(s: Vusb, step: Step)
    requires Enabled(s, step) && Safe(s, step)
    ensures SafeRun(s, [step]) && After(s, [step]) == Next(s, step)
  {
    RunCons(s, step, []);
    assert [step] == [step] + [];
  }

  lemma {:induction false} CompletedAgain(log: seq<Completion>, c: Completion)
    requires c.id in Ids(log)
    ensures !CompletedOnce(log + [c])
  {
    var d :| d in log && d.id == c.id;
    var i :| 0 <= i < |log| && log[i] == d;
    assert (log + [c])[i].id == (log + [c])[|log|].id;
  }

  /** A request that was completed although its cancel callback is due is completed again by
      the callback. */
  lemma {:induction false} CallbackCompletesAgain(s: Vusb, u: nat) returns (more: seq<Step>)
    requires ListsKnown(s) && CallbackDue(s, u) && u in Ids(s.log)
    ensures SafeRun(s, more) && !CompletedOnce(After(s, more).log)
    decreases s.reqs[u].wdf == Cancelling
  {
    if s.reqs[u].wdf == Unlinking {
      RunOne(s, DoUnlinkAndComplete(u, Full));
      more := [DoUnlinkAndComplete(u, Full)];
      UnlinkCompletesAgain(s, u);
    } else {
      RunOne(s, DoCancelCallback(u));
      more := [DoCancelCallback(u)];
      WithoutInRange(s.head, u, |s.reqs|);
      WithoutInRange(s.pending, u, |s.reqs|);
      WithoutInRange(s.sent, u, |s.reqs|);
      if s.reqs[u].seqNum == 0 {
        CompletedAgain(s.log, Completion(u, Cancelled));
      } else {
        var rest := CallbackCompletesAgain(CancelCallback(s, u), u);
        RunCons(s, DoCancelCallback(u), rest);
        more := more + rest;
      }
    }
  }

  lemma {:induction false} UnlinkCompletesAgain(s: Vusb, u: nat)
    requires u < |s.reqs| && u in Ids(s.log)
    ensures !CompletedOnce(UnlinkAndComplete(s, u, Full).log)
  {
    var t := Submit(s, Unlink(s.reqs[u].seqNum), true, Full);
    if t.log == s.log {
      CompletedAgain(s.log, Completion(u, Cancelled));
    } else {
      assert t.log == s.log + [t.log[|s.log|]];
      IdsAppend(s.log, t.log[|s.log|]);
      CompletedAgain(t.log, Completion(u, Cancelled));
    }
  }

  /** Aborting a request whose cancel callback is due with its flag cleared completes it, and
      the callback completes it again. */
  lemma {:induction false} UnsafeAbortCompletesTwice(s: Vusb) returns (more: seq<Step>)
    requires Inv(s) && Enabled(s, DoAbortOne) && !Safe(s, DoAbortOne)
    ensures SafeRun(AbortOne(s), more) && !CompletedOnce(After(AbortOne(s), more).log)
  {
    KnownLists(s);
    var u, t := s.head[0], AbortOne(s);
    WithoutInRange(s.head, u, |s.reqs|);
    WithoutInRange(s.pending, u, |s.reqs|);
    WithoutInRange(s.sent, u, |s.reqs|);
    IdsAppend(s.log, Completion(u, NotConnected));
    more := CallbackCompletesAgain(t, u);
  }

  /** A stale request: its flag is cleared, no list holds it, and either plug-out completed it
      or its cancel callback is due. */
  lemma {:induction false} StaleRecord(s: Vusb, u: nat)
    requires Inv(s) && Stale(s) && u == s.partial.value
    ensures u < |s.reqs| && UnmarkSucceeds(s.reqs[u]) && UnmarkedReq(s.reqs[u]) == s.reqs[u] && !s.pendingRead
    ensures u in Ids(s.log) || CallbackDue(s, u)
    ensures FindSent(s.(sent := s.sent + [u]), s.reqs[u].seqNum) == |s.sent|
    ensures u !in s.head && u !in s.sent
  {
    var t := s.(sent := s.sent + [u]);
    assert t.sent[|s.sent|] == u;
    forall i | 0 <= i < |s.sent|
      ensures t.reqs[t.sent[i]].seqNum != s.reqs[u].seqNum
    {
      assert t.sent[i] in s.sent;
    }
  }

  /** A read that goes on with a stale request has it completed: at once if its rest cannot be
      stored, else by the response to it. That is its second completion, or its callback makes
      the second one. */
  lemma {:induction false} StaleReadCompletesTwice(s: Vusb, markOk: bool, stored: Stored) returns (more: seq<Step>)
    requires Inv(s) && Stale(s) && Enabled(s, DoRead(markOk, stored))
    ensures SafeRun(ReadVusb(s, markOk, stored), more)
    ensures !CompletedOnce(After(ReadVusb(s, markOk, stored), more).log)
  {
    hide Inv;
    KnownLists(s);
    var u := s.partial.value;
    StaleRecord(s, u);
    var t := ReadVusb(s, markOk, stored);
    if stored == Refused {
      WithoutInRange(s.head, u, |s.reqs|);
      assert t == Complete(s.(head := Without(s.head, u), lenPartial := 0, partial := None, reqs := s.reqs), u, Failed);
      more := CompletedThenAgain(s, t, u, Failed);
    } else {
      assert t == s.(sent := s.sent + [u], lenPartial := 0, partial := None, reqs := s.reqs);
      more := AnsweredThenAgain(s, t, u);
    }
  }

  /** The second completion has happened, or is the callback's. */
  lemma {:induction false} CompletedThenAgain(s: Vusb, t: Vusb, u: nat, status: Status) returns (more: seq<Step>)
    requires ListsKnown(t) && u < |s.reqs| && (u in Ids(s.log) || CallbackDue(s, u))
    requires t.reqs == s.reqs && t.log == s.log + [Completion(u, status)]
    ensures SafeRun(t, more) && !CompletedOnce(After(t, more).log)
  {
    IdsAppend(s.log, Completion(u, status));
    if u in Ids(s.log) {
      CompletedAgain(s.log, Completion(u, status));
      more := [];
    } else {
      more := CallbackCompletesAgain(t, u);
    }
  }

  /** The request stands on the sent list; its response takes it off and completes it. */
  lemma {:induction false} AnsweredThenAgain(s: Vusb, t: Vusb, u: nat) returns (more: seq<Step>)
    requires ListsKnown(s) && u < |s.reqs| && (u in Ids(s.log) || CallbackDue(s, u))
    requires UnmarkSucceeds(s.reqs[u]) && UnmarkedReq(s.reqs[u]) == s.reqs[u]
    requires FindSent(s.(sent := s.sent + [u]), s.reqs[u].seqNum) == |s.sent|
    requires t == s.(sent := s.sent + [u], lenPartial := 0, partial := None)
    ensures SafeRun(t, more) && !CompletedOnce(After(t, more).log)
  {
    var n := s.reqs[u].seqNum;
    SameSearch(t, s.(sent := s.sent + [u]), n, 0);
    var w := WriteVusb(t, n);
    WithoutInRange(t.head, u, |t.reqs|);
    WithoutInRange(t.sent, u, |t.reqs|);
    assert w == t.(head := Without(t.head, u), sent := Without(t.sent, u), answering := t.answering + {u});
    var d := WriteDone(w, u, Ok);
    assert d.reqs == s.reqs;
    var rest := CompletedThenAgain(s, d, u, Ok);
    RunCons(w, DoWriteDone(u, Ok), rest);
    RunCons(t, DoWrite(n), [DoWriteDone(u, Ok)] + rest);
    more := [DoWrite(n)] + ([DoWriteDone(u, Ok)] + rest);
  }

  lemma {:induction false} SameSearch(s: Vusb, t: Vusb, seqNum: nat, k: nat)
    requires s.sent == t.sent && s.reqs == t.reqs && k <= |s.sent| && InRange(s.sent, |s.reqs|)
    ensures FindSentFrom(s, seqNum, k) == FindSentFrom(t, seqNum, k)
    decreases |s.sent| - k
  {
    if k < |s.sent| {
      SameSearch(s, t, seqNum, k + 1);
    }
  }

  /** The condition is exact. After a step no continuation by safe steps completes a request
      twice if and only if the step was safe. */
  lemma {:induction false} ExactlyOnceIffSafe(s: Vusb, step: Step)
    requires Inv(s) && Enabled(s, step)
    ensures Safe(s, step)
            <==> forall more :: SafeRun(Next(s, step), more) ==> CompletedOnce(After(Next(s, step), more).log)
  {
    hide Inv, Next, After, Run, CompletedOnce, Safe;
    StepInv(s, step);
    if Safe(s, step) {
      forall more | SafeRun(Next(s, step), more)
        ensures CompletedOnce(After(Next(s, step), more).log)
      {
        RunInv(Next(s, step), more);
        OnceOfInv(After(Next(s, step), more));
      }
    } else {
      var more := UnsafeCompletesTwice(s, step);
      assert SafeRun(Next(s, step), more);
    }
  }

  lemma {:induction false} OnceOfInv(s: Vusb)
    requires Inv(s)
    ensures CompletedOnce(s.log)
  {
  }

  lemma {:induction false} UnsafeCompletesTwice(s: Vusb, step: Step) returns (more: seq<Step>)
    requires Inv(s) && Enabled(s, step) && !Safe(s, step)
    ensures SafeRun(Next(s, step), more) && !CompletedOnce(After(Next(s, step), more).log)
  {
    if step.DoAbortOne? {
      more := UnsafeAbortCompletesTwice(s);
    } else {
      more := StaleReadCompletesTwice(s, step.markOk, step.stored);
    }
  }

  // ---------------------------------------------------------------------------
  // Both unsafe steps can be reached
  // ---------------------------------------------------------------------------

  /** A request is partially sent, it is cancelled, the next read finds that out, and the
      device is plugged out before the callback gets the lock. */
  lemma {:induction false} UnsafeAbortIsReachable()
    ensures var steps := [DoRead(true, Full), DoSubmit(Urb, true, Partly), DoCancelRequest(0), DoRead(true, Full),
                          DoInvalidate];
            && SafeRun(Init, steps)
            && Enabled(After(Init, steps), DoAbortOne) && !Safe(After(Init, steps), DoAbortOne)
  {
    hide Next, Enabled, Safe, Run, After;
    var s1 := Init.(pendingRead := true);
    var s2 := s1.(pendingRead := false, partial := Some(0), lenPartial := HEADER_SIZE, head := [0], seqNum := 1,
                  reqs := [Req(Urb, 1, true, Marked)]);
    var s3 := s2.(reqs := [Req(Urb, 1, true, Cancelling)]);
    var s4 := s3.(pendingRead := true, partial := None, lenPartial := 0, reqs := [Req(Urb, 1, false, Cancelling)]);
    WitnessStart(s1, s2);
    WitnessCancel(s2, s3);
    WitnessEnd(s3, s4);
    RunOne(s4, DoInvalidate);
    var r4 := [DoInvalidate];
    RunCons(s3, DoRead(true, Full), r4);
    var r3 := [DoRead(true, Full)] + r4;
    RunCons(s2, DoCancelRequest(0), r3);
    var r2 := [DoCancelRequest(0)] + r3;
    RunCons(s1, DoSubmit(Urb, true, Partly), r2);
    var r1 := [DoSubmit(Urb, true, Partly)] + r2;
    RunCons(Init, DoRead(true, Full), r1);
    assert [DoRead(true, Full)] + r1 == [DoRead(true, Full), DoSubmit(Urb, true, Partly), DoCancelRequest(0),
                                         DoRead(true, Full), DoInvalidate];
  }

  /** A request is partially sent, the read for the rest has found the device, and plug-out
      aborts the request before the read gets the lock. The request is completed twice: as
      disconnected, and as failed if its rest cannot be stored. */
  lemma {:induction false} StaleReadIsReachable()
    ensures var steps := [DoRead(true, Full), DoSubmit(Urb, true, Partly), DoInvalidate, DoAbortOne];
            && SafeRun(Init, steps) && Stale(After(Init, steps))
            && Enabled(After(Init, steps), DoRead(true, Refused)) && !Safe(After(Init, steps), DoRead(true, Refused))
            && Next(After(Init, steps), DoRead(true, Refused)).log
               == [Completion(0, NotConnected), Completion(0, Failed)]
  {
    hide Next;
    var s1 := Init.(pendingRead := true);
    var s2 := s1.(pendingRead := false, partial := Some(0), lenPartial := HEADER_SIZE, head := [0], seqNum := 1,
                  reqs := [Req(Urb, 1, true, Marked)]);
    var s3 := s2.(invalid := true);
    var s4 := s3.(head := [], reqs := [Req(Urb, 1, false, Unmarked)], log := [Completion(0, NotConnected)]);
    WitnessStart(s1, s2);
    WitnessAbort(s2, s3, s4);
    RunOne(s3, DoAbortOne);
    RunCons(s2, DoInvalidate, [DoAbortOne]);
    RunCons(s1, DoSubmit(Urb, true, Partly), [DoInvalidate, DoAbortOne]);
    RunCons(Init, DoRead(true, Full), [DoSubmit(Urb, true, Partly), DoInvalidate, DoAbortOne]);
  }

  /** The read parks, and the request goes straight out in part. */
  lemma {:induction false} WitnessStart(s1: Vusb, s2: Vusb)
    requires s1 == Init.(pendingRead := true)
    requires s2 == s1.(pendingRead := false, partial := Some(0), lenPartial := HEADER_SIZE, head := [0], seqNum := 1,
                       reqs := [Req(Urb, 1, true, Marked)])
    ensures Enabled(Init, DoRead(true, Full)) && Next(Init, DoRead(true, Full)) == s1
    ensures Enabled(s1, DoSubmit(Urb, true, Partly)) && Next(s1, DoSubmit(Urb, true, Partly)) == s2
    ensures Safe(Init, DoRead(true, Full)) && Safe(s1, DoSubmit(Urb, true, Partly))
  {
  }

  lemma {:induction false} WitnessCancel(s2: Vusb, s3: Vusb)
    requires s2.reqs == [Req(Urb, 1, true, Marked)] && s3 == s2.(reqs := [Req(Urb, 1, true, Cancelling)])
    requires s2.pending == [] && s2.sent == [] && s2.head == [0] && s2.partial == Some(0)
    ensures Enabled(s2, DoCancelRequest(0)) && Safe(s2, DoCancelRequest(0)) && Next(s2, DoCancelRequest(0)) == s3
  {
  }

  /** The next read clears the flag of the cancelled request and parks; the device goes. */
  lemma {:induction false} WitnessEnd(s3: Vusb, s4: Vusb)
    requires !s3.invalid && !s3.pendingRead && s3.pending == [] && s3.sent == [] && s3.head == [0] && s3.lenPartial > 0
    requires s3.partial == Some(0) && s3.reqs == [Req(Urb, 1, true, Cancelling)]
    requires s4 == s3.(pendingRead := true, partial := None, lenPartial := 0, reqs := [Req(Urb, 1, false, Cancelling)])
    ensures Enabled(s3, DoRead(true, Full)) && Next(s3, DoRead(true, Full)) == s4
    ensures Enabled(s4, DoInvalidate) && Next(s4, DoInvalidate) == s4.(invalid := true)
    ensures var s5 := s4.(invalid := true); Enabled(s5, DoAbortOne) && !Safe(s5, DoAbortOne)
    ensures Safe(s3, DoRead(true, Full)) && Safe(s4, DoInvalidate)
  {
  }

  /** The device goes, plug-out aborts the request, and a read goes on with it. */
  lemma {:induction false} WitnessAbort(s2: Vusb, s3: Vusb, s4: Vusb)
    requires !s2.invalid && !s2.pendingRead && s2.pending == [] && s2.sent == [] && s2.head == [0] && s2.log == []
    requires s2.partial == Some(0) && s2.reqs == [Req(Urb, 1, true, Marked)] && s3 == s2.(invalid := true)
    requires s4 == s3.(head := [], reqs := [Req(Urb, 1, false, Unmarked)], log := [Completion(0, NotConnected)])
    ensures Enabled(s2, DoInvalidate) && Next(s2, DoInvalidate) == s3
    ensures Enabled(s3, DoAbortOne) && Next(s3, DoAbortOne) == s4
    ensures Enabled(s4, DoRead(true, Refused))
    ensures Next(s4, DoRead(true, Refused)).log == [Completion(0, NotConnected), Completion(0, Failed)]
  {
    assert Without([0], 0) == [];
    assert s3.reqs[0 := UnmarkedReq(s3.reqs[0])] == [Req(Urb, 1, false, Unmarked)];
  }
}
