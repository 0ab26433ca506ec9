/** The UDE driver's virtual device: its methods update the fields in place. Each entry point
    keeps the invariant of `UrbQueue`, or says exactly when it does, and is one of its steps. */
module VusbDevice {
  import opened Bytes
  import opened Options
  import opened UrbQueue
  import opened UrbRuns

  class VusbDev {
    var invalid: bool
    var pendingReqRead: bool
    var urbrSentPartial: Option<nat>
    var lenSentPartial: nat
    var headUrbr: seq<nat>
    var headUrbrPending: seq<nat>
    var headUrbrSent: seq<nat>
    var seqNum: nat
    /** Every request ever created; a request is its index here. */
    var urbrs: seq<Req>
    ghost var answering: set<nat>
    ghost var log: seq<Completion>

    ghost function State(): Vusb
      reads this
    {
      Vusb(invalid, pendingReqRead, urbrSentPartial, lenSentPartial, headUrbr, headUrbrPending, headUrbrSent, seqNum,
           urbrs, answering, log)
    }

    ghost predicate Valid()
      reads this
    {
      ListsKnown(State())
    }

    constructor ()
      ensures State() == Init && Inv(State())
    {
      invalid, pendingReqRead, urbrSentPartial, lenSentPartial := false, false, None, 0;
      headUrbr, headUrbrPending, headUrbrSent := [], [], [];
      seqNum, urbrs, answering, log := 0, [], {}, [];
      new;
      InitInv();
    }

    /** complete_urbr, or the caller's completion of a request that was not accepted. */
    method CompleteUrbr(u: nat, status: Status)
      modifies this`log
      ensures log == old(log) + [Completion(u, status)]
    {
      log := log + [Completion(u, status)];
    }

    method MarkCancelableUrbr(u: nat, succeeds: bool) returns (ok: bool)
      requires u < |urbrs|
      modifies this`urbrs
      ensures ok == (old(urbrs)[u].kind != Urb || succeeds)
      ensures urbrs == if old(urbrs)[u].kind == Urb && succeeds
                       then old(urbrs)[u := old(urbrs)[u].(cancelable := true, wdf := Marked)] else old(urbrs)
    {
      if urbrs[u].kind != Urb {
        return true;
      }
      if !succeeds {
        return false;
      }
      urbrs := urbrs[u := urbrs[u].(cancelable := true, wdf := Marked)];
      return true;
    }

    method UnmarkCancelableUrbr(u: nat) returns (ok: bool)
      requires u < |urbrs|
      modifies this`urbrs
      ensures ok == UnmarkSucceeds(old(urbrs)[u])
      ensures State() == Unmark(old(State()), u)
    {
      if urbrs[u].kind != Urb || !urbrs[u].cancelable {
        assert urbrs == urbrs[u := urbrs[u]];
        return true;
      }
      ok := urbrs[u].wdf == Marked;
      urbrs := urbrs[u := urbrs[u].(cancelable := false, wdf := if ok then Unmarked else urbrs[u].wdf)];
    }

    /** Submits a new request; `stored` is what store_urbr comes to if it is called. It is
        queued, and nothing else is completed, or it is completed at once with the status. */
    method SubmitUrbr(kind: Kind, markOk: bool, stored: Stored) returns (status: Status)
      requires Inv(State()) && (stored == Partly ==> kind == Urb)
      modifies this
      ensures status == old(Refusal(State(), kind, markOk, stored))
      ensures headUrbrPending == if status == Ok && old(urbrSentPartial.Some? || !pendingReqRead)
                                 then old(headUrbrPending) + [|old(urbrs)|] else old(headUrbrPending)
      ensures Inv(State()) && State() == Submit(old(State()), kind, markOk, stored)
      ensures |urbrs| == |old(urbrs)| + 1 && urbrs[|old(urbrs)|].kind == kind
      ensures if status == Ok then |old(urbrs)| in headUrbr && log == old(log)
              else |old(urbrs)| !in headUrbr && log == old(log) + [Completion(|old(urbrs)|, status)]
    {
      hide Inv;
      KnownLists(State());
      SubmitInv(State(), kind, markOk, stored);
      NewIsNowhere(headUrbr, |urbrs|);
      SubmitLog(State(), kind, markOk, stored);
      ghost var size := |log|;
      status := Enqueue(kind, markOk, stored);
      assert status != Ok ==> log[size].status == status;
    }

    /** The body of submit_urbr. */
    method Enqueue(kind: Kind, markOk: bool, stored: Stored) returns (status: Status)
      requires stored == Partly ==> kind == Urb
      requires urbrSentPartial.None? ==> lenSentPartial == 0
      modifies this
      ensures State() == Submit(old(State()), kind, markOk, stored)
      ensures if status == Ok then headUrbr == old(headUrbr) + [|old(urbrs)|] && log == old(log)
              else headUrbr == old(headUrbr) && log == old(log) + [Completion(|old(urbrs)|, status)]
    {
      var u := |urbrs|;
      LastReplaced(urbrs, Req(kind, 0, false, Unmarked), Entered(kind, 0));
      urbrs := urbrs + [Req(kind, 0, false, Unmarked)];
      if invalid {
        CompleteUrbr(u, NotConnected);
        return NotConnected;
      }
      if urbrSentPartial.Some? || !pendingReqRead {
        var marked := MarkCancelableUrbr(u, markOk);
        if !marked {
          CompleteUrbr(u, Cancelled);
          return Cancelled;
        }
        headUrbrPending := headUrbrPending + [u];
        headUrbr := headUrbr + [u];
        return Ok;
      }
      status := SendDirectly(u, stored);
    }

    lemma {:induction false} SubmitDirectly(s: Vusb, kind: Kind, stored: Stored)
      requires !s.invalid && s.partial.None? && s.pendingRead
      ensures var u, n := |s.reqs|, s.seqNum + 1;
        Submit(s, kind, true, stored) ==
        if stored == Refused
        then s.(seqNum := n, reqs := s.reqs + [Req(kind, n, false, Unmarked)], log := s.log + [Completion(u, Failed)])
        else s.(seqNum := n, reqs := s.reqs + [Entered(kind, n)], head := s.head + [u], pendingRead := false,
                partial := if stored == Full then None else Some(u),
                lenPartial := if stored == Full then s.lenPartial else HEADER_SIZE,
                sent := if stored == Full then s.sent + [u] else s.sent)
    {
    }

    lemma {:induction false} LastReplaced(rs: seq<Req>, r: Req, q: Req)
      ensures (rs + [r])[|rs| := q] == rs + [q] && (rs + [r])[..|rs|] == rs
    {
    }

    /** The path of submit_urbr that fills a waiting read with the new request u. */
    method SendDirectly(u: nat, stored: Stored) returns (status: Status)
      requires u + 1 == |urbrs| && urbrs[u] == Req(urbrs[u].kind, 0, false, Unmarked)
      requires stored == Partly ==> urbrs[u].kind == Urb
      requires !invalid && urbrSentPartial.None? && pendingReqRead && lenSentPartial == 0
      modifies this
      ensures State() == Submit(old(State()).(reqs := old(urbrs)[..u]), old(urbrs)[u].kind, true, stored)
      ensures if status == Ok then headUrbr == old(headUrbr) + [u] && log == old(log)
              else headUrbr == old(headUrbr) && log == old(log) + [Completion(u, status)]
    {
      hide Submit;
      ghost var others, kind := urbrs[..u], urbrs[u].kind;
      SubmitDirectly(State().(reqs := others), kind, stored);
      LastReplaced(others, urbrs[u], Req(kind, 0, false, Unmarked));
      urbrSentPartial := Some(u);
      seqNum := seqNum + 1;
      LastReplaced(others, urbrs[u], urbrs[u].(seqNum := seqNum));
      urbrs := urbrs[u := urbrs[u].(seqNum := seqNum)];
      LastReplaced(others, urbrs[u], Entered(kind, seqNum));
      if stored == Refused {
        urbrSentPartial := None;
        CompleteUrbr(u, Failed);
        return Failed;
      }
      if stored == Partly {
        lenSentPartial := HEADER_SIZE;
      }
      var marked := MarkCancelableUrbr(u, true);
      if lenSentPartial == 0 {
        urbrSentPartial := None;
        headUrbrSent := headUrbrSent + [u];
      }
      headUrbr := headUrbr + [u];
      pendingReqRead := false;
      status := Ok;
    }

    /** The partially sent request, unless it is being cancelled. */
    method GetPartialUrbr() returns (u: Option<nat>)
      requires Valid()
      modifies this
      ensures Valid()
      ensures old(urbrSentPartial).None? ==> u == None && State() == old(State())
      ensures old(urbrSentPartial).Some? ==>
                var p := old(urbrSentPartial).value;
                if UnmarkSucceeds(old(urbrs)[p]) then u == Some(p) && State() == Unmark(old(State()), p)
                else u == None && State() == Unmark(old(State()), p).(partial := None, lenPartial := 0)
    {
      if urbrSentPartial.None? {
        return None;
      }
      var p := urbrSentPartial.value;
      var ok := UnmarkCancelableUrbr(p);
      if ok {
        return Some(p);
      }
      urbrSentPartial := None;
      lenSentPartial := 0;
      return None;
    }

    /** A read request, past the lookup of the device. It keeps the invariant if and only if
        plug-out has not aborted the partially sent request. */
    method ReadRequest(markOk: bool, stored: Stored)
      requires Inv(State()) && StoredFits(State(), stored)
      modifies this
      ensures Inv(State()) <==> !old(Stale(State()))
      ensures State() == ReadVusb(old(State()), markOk, stored)
    {
      hide Inv, Stale;
      KnownLists(State());
      ReadSafeIff(State(), markOk, stored);
      if pendingReqRead {
        return;
      }
      var found := GetPartialUrbr();
      if found.None? {
        ReadPendingUrbr(markOk, stored);
        return;
      }
      var u := found.value;
      lenSentPartial := 0;
      if stored == Refused {
        DropUnread(u);
      } else {
        headUrbrSent := headUrbrSent + [u];
        urbrSentPartial := None;
      }
    }

    /** Serves the head of the pending list, or parks the read. */
    method ReadPendingUrbr(markOk: bool, stored: Stored)
      requires Valid() && urbrSentPartial.None? && lenSentPartial == 0 && !pendingReqRead
      modifies this
      ensures Valid()
      ensures State() == ReadPending(old(State()), markOk, stored)
    {
      hide ReadFailed;
      if headUrbrPending == [] {
        pendingReqRead := true;
        if !markOk {
          pendingReqRead := false;
        }
        return;
      }
      var u := headUrbrPending[0];
      seqNum := seqNum + 1;
      urbrs := urbrs[u := urbrs[u].(seqNum := seqNum)];
      headUrbrPending := headUrbrPending[1..];
      urbrSentPartial := Some(u);
      if stored == Partly {
        lenSentPartial := HEADER_SIZE;
      }
      if stored == Refused {
        FailedForgets(State().(partial := None), u);
        DropUnread(u);
      } else if lenSentPartial == 0 {
        headUrbrSent := headUrbrSent + [u];
        urbrSentPartial := None;
      }
    }

    /** A request whose store failed leaves head_urbr. */
    method DropUnread(u: nat)
      requires Valid() && u < |urbrs|
      modifies this
      ensures Valid()
      ensures State() == ReadFailed(old(State()), u)
    {
      headUrbr := Without(headUrbr, u);
      WithoutInRange(old(headUrbr), u, |urbrs|);
      var unmarked := UnmarkCancelableUrbr(u);
      urbrSentPartial := None;
      if unmarked {
        CompleteUrbr(u, Failed);
      }
    }

    /** find_sent_urbr: the scan of the sent list. The request found is the only one sent with
        the number; it is on no list any more and the writer's to answer. */
    method FindSentUrbr(number: nat) returns (found: Option<nat>)
      requires Inv(State())
      modifies this
      ensures Inv(State()) && State() == WriteVusb(old(State()), number)
      ensures if found.None?
              then State() == old(State()) && forall u: nat :: u in headUrbrSent ==> urbrs[u].seqNum != number
              else && found.value in old(headUrbrSent) && found.value in answering && found.value !in headUrbr
                   && forall u: nat :: u in old(headUrbrSent) && urbrs[u].seqNum == number ==> u == found.value
    {
      hide Inv;
      ghost var s := State();
      KnownLists(s);
      WriteVusbInv(s, number);
      NumbersOfSent(s);
      NumberIsOne(s, number);
      var i := 0;
      while i < |headUrbrSent|
        invariant 0 <= i <= |headUrbrSent|
        invariant forall j :: 0 <= j < i ==> urbrs[headUrbrSent[j]].seqNum != number
      {
        var u := headUrbrSent[i];
        if urbrs[u].seqNum == number {
          assert FindSent(State(), number) == i;
          headUrbr := Without(headUrbr, u);
          headUrbrSent := Without(headUrbrSent, u);
          answering := answering + {u};
          return Some(u);
        }
        i := i + 1;
      }
      assert FindSent(State(), number) == i;
      return None;
    }

    /** The second lock region of write_vusb: afterwards the request is completed, or its
        cancel callback is due and will complete it; never both. */
    method AnswerUrbr(u: nat, status: Status)
      requires Inv(State()) && u < |urbrs| && u in answering
      modifies this
      ensures Inv(State()) && State() == WriteDone(old(State()), u, status)
      ensures log == if UnmarkSucceeds(old(urbrs)[u]) then old(log) + [Completion(u, status)] else old(log)
      ensures u !in answering && (u in Ids(log) || CallbackDue(State(), u))
      ensures u !in old(Ids(log)) ==> (u in Ids(log) <==> !CallbackDue(State(), u))
    {
      hide Inv;
      KnownLists(State());
      WriteDoneInv(State(), u, status);
      AnsweredOnce(State(), u, status);
      var unmarked := UnmarkCancelableUrbr(u);
      answering := answering - {u};
      if unmarked {
        CompleteUrbr(u, status);
      }
    }

    /** RemoveEntryListInit on both links: the request leaves whatever lists it is on. */
    method Unlist(u: nat)
      modifies this`headUrbr, this`headUrbrPending, this`headUrbrSent
      ensures var s := old(State());
        State() == s.(head := Without(s.head, u), pending := Without(s.pending, u), sent := Without(s.sent, u))
    {
      headUrbrPending, headUrbrSent := Without(headUrbrPending, u), Without(headUrbrSent, u);
      headUrbr := Without(headUrbr, u);
    }

    /** The lock region of urbr_cancelled, and the completion of a request never sent: the
        request is on no list, and it is completed if and only if no unlink is to be sent. */
    method UrbrCancelled(u: nat)
      requires Inv(State()) && u < |urbrs| && urbrs[u].wdf == Cancelling
      modifies this
      ensures Inv(State()) && State() == CancelCallback(old(State()), u)
      ensures u !in headUrbr && u !in headUrbrPending && u !in headUrbrSent && urbrSentPartial != Some(u)
      ensures u in Ids(log) <==> !CallbackDue(State(), u)
      ensures !invalid ==> (u in Ids(log) <==> u in old(headUrbrPending))
    {
      hide Inv, Ids, CallbackDue, Without;
      KnownLists(State());
      ghost var goal := CancelCallback(State(), u);
      CancelCallbackInv(State(), u);
      CancelledOnce(State(), u);
      Unlist(u);
      if urbrSentPartial == Some(u) {
        urbrSentPartial := None;
        lenSentPartial := 0;
      }
      if urbrs[u].seqNum != 0 {
        urbrs := urbrs[u := urbrs[u].(wdf := Unlinking)];
      } else {
        urbrs := urbrs[u := urbrs[u].(wdf := CallbackDone)];
        CompleteUrbr(u, Cancelled);
      }
      assert State() == goal;
    }

    /** The rest of urbr_cancelled for a request that was sent: an unlink for its number, and
        its one completion. */
    method SubmitUrbrUnlink(u: nat, stored: Stored)
      requires Inv(State()) && u < |urbrs| && urbrs[u].wdf == Unlinking && stored != Partly
      modifies this
      ensures Inv(State()) && State() == UnlinkAndComplete(old(State()), u, stored)
      ensures |urbrs| == |old(urbrs)| + 1 && urbrs[|old(urbrs)|].kind == Unlink(old(urbrs)[u].seqNum)
      ensures u !in old(Ids(log)) && u in Ids(log) && !CallbackDue(State(), u)
    {
      hide Inv;
      KnownLists(State());
      UnlinkAndCompleteInv(State(), u, stored);
      UnlinkedOnce(State(), u, stored);
      var status := SubmitUrbr(Unlink(urbrs[u].seqNum), true, stored);
      urbrs := urbrs[u := urbrs[u].(wdf := CallbackDone)];
      CompleteUrbr(u, Cancelled);
    }

    /** Plug-out empties head_urbr. */
    method AbortAllPendingUrbrs()
      requires Valid()
      modifies this
      ensures Valid()
      ensures State() == AbortAll(old(State()))
    {
      while headUrbr != []
        invariant Valid() && AbortAll(State()) == AbortAll(old(State()))
        decreases |headUrbr|
      {
        ghost var before := State();
        var u := headUrbr[0];
        WithoutShorter(headUrbr, u);
        WithoutInRange(headUrbr, u, |urbrs|);
        WithoutInRange(headUrbrPending, u, |urbrs|);
        WithoutInRange(headUrbrSent, u, |urbrs|);
        Unlist(u);
        var unmarked := UnmarkCancelableUrbr(u);
        if unmarked {
          CompleteUrbr(u, NotConnected);
        }
        assert State() == AbortOne(before);
      }
    }

    /** Plug-out. No request stays on head_urbr. The invariant holds, so none was completed
        twice, if and only if no request on head_urbr was an orphan; then each is completed as
        disconnected or left to its cancel callback. */
    method VusbPlugout()
      requires Inv(State())
      modifies this
      ensures invalid && !pendingReqRead && headUrbr == [] && old(log) <= log
      ensures Inv(State()) <==> old(NoOrphans(State()))
      ensures old(NoOrphans(State())) ==> forall u: nat :: u in old(headUrbr) && u < |old(urbrs)| ==>
                if old(urbrs)[u].wdf == Cancelling then u !in Ids(log) else Completion(u, NotConnected) in log
    {
      hide Inv;
      KnownLists(State());
      ReadCancelledInv(State());
      ReadCancelledInv(Invalidate(State()));
      PlugoutDrains(ReadCancelled(Invalidate(State())));
      invalid := true;
      pendingReqRead := false;
      AbortAllPendingUrbrs();
    }
  }

  // ---------------------------------------------------------------------------
  // What the steps mean for one request
  // ---------------------------------------------------------------------------

  lemma {:induction false} NewIsNowhere(s: seq<nat>, n: nat)
    requires InRange(s, n)
    ensures n !in s
  {
  }

  lemma {:induction false} NumberIsOne(s: Vusb, number: nat)
    requires Inv(s)
    ensures Known(s)
    ensures forall u: nat, v: nat ::
              u in s.sent && v in s.sent && s.reqs[u].seqNum == number == s.reqs[v].seqNum ==> u == v
    ensures forall u: nat :: u in s.sent ==> u in s.head && u < |s.reqs|
  {
  }

  lemma {:induction false} AnsweredOnce(s: Vusb, u: nat, status: Status)
    requires Inv(s) && u < |s.reqs| && u in s.answering
    ensures var t := WriteDone(s, u, status);
      && (u in Ids(t.log) || CallbackDue(t, u))
      && (u !in Ids(s.log) ==> (u in Ids(t.log) <==> !CallbackDue(t, u)))
  {
    assert ReqInv(s, u);
    CompletedIsDone(Unmark(s, u).(answering := s.answering - {u}), u, status);
  }

  lemma {:induction false} CancelledOnce(s: Vusb, u: nat)
    requires Inv(s) && u < |s.reqs| && s.reqs[u].wdf == Cancelling
    ensures var t := CancelCallback(s, u);
      && u !in t.head && u !in t.pending && u !in t.sent && t.partial != Some(u)
      && (u in Ids(t.log) <==> !CallbackDue(t, u))
      && (!s.invalid ==> (u in Ids(t.log) <==> u in s.pending))
  {
    assert ReqInv(s, u);
    CompletedIsDone(CancelCallback(s, u).(log := s.log), u, Cancelled);
  }

  lemma {:induction false} UnlinkedOnce(s: Vusb, u: nat, stored: Stored)
    requires Inv(s) && u < |s.reqs| && s.reqs[u].wdf == Unlinking
    ensures u !in Ids(s.log) && u in Ids(UnlinkAndComplete(s, u, stored).log)
  {
    assert ReqInv(s, u);
    IdsAppend(Submit(s, Unlink(s.reqs[u].seqNum), true, stored).log, Completion(u, Cancelled));
  }

  // ---------------------------------------------------------------------------
  // What plug-out achieves
  // ---------------------------------------------------------------------------

  /** A failed read forgets the partially sent request anyway. */
  lemma {:induction false} FailedForgets(s: Vusb, u: nat)
    requires u < |s.reqs|
    ensures ReadFailed(s.(partial := Some(u)), u) == ReadFailed(s.(partial := None), u)
  {
  }

  lemma {:induction false} WithoutShorter(s: seq<nat>, u: nat)
    requires u in s
    ensures |Without(s, u)| < |s|
  {
    if s[0] == u {
      WithoutNoLonger(s[1..], u);
    } else {
      WithoutShorter(s[1..], u);
    }
  }

  lemma {:induction false} WithoutNoLonger(s: seq<nat>, u: nat)
    ensures |Without(s, u)| <= |s|
  {
    if s != [] {
      WithoutNoLonger(s[1..], u);
    }
  }

  function AbortAll(s: Vusb): Vusb
    requires InRange(s.head, |s.reqs|)
    decreases |s.head|
  {
    if s.head == [] then s
    else
      WithoutShorter(s.head, s.head[0]);
      WithoutInRange(s.head, s.head[0], |s.reqs|);
      AbortAll(AbortOne(s))
  }

  /** No request on head_urbr waits for its callback with its flag already cleared. */
  predicate NoOrphans(s: Vusb) {
    forall u: nat :: u in s.head && u < |s.reqs| ==> !Orphan(s.reqs[u])
  }

  /** Plug-out empties head_urbr. The invariant survives if and only if there was no orphan;
      then each request was completed as disconnected, or is left to its cancel callback. */
  lemma {:induction false} PlugoutDrains(s: Vusb)
    requires Inv(s) && s.invalid
    ensures var t := AbortAll(s);
            && t.head == [] && t.invalid && t.pendingRead == s.pendingRead && s.log <= t.log
            && (Inv(t) <==> NoOrphans(s))
            && (NoOrphans(s) ==> forall u: nat :: u in s.head && u < |s.reqs| ==>
                  if s.reqs[u].wdf == Cancelling then u !in Ids(t.log) else Completion(u, NotConnected) in t.log)
  {
    hide Inv;
    KnownLists(s);
    AbortAllFields(s);
    if NoOrphans(s) {
      PlugoutKeepsInv(s);
    } else {
      var u: nat :| u in s.head && u < |s.reqs| && Orphan(s.reqs[u]);
      OrphanAborted(s, u);
      OrphanBreaks(AbortAll(s), u);
    }
  }

  lemma {:induction false} AbortAllFields(s: Vusb)
    requires InRange(s.head, |s.reqs|)
    ensures var t := AbortAll(s);
            t.head == [] && t.invalid == s.invalid && t.pendingRead == s.pendingRead && s.log <= t.log
    decreases |s.head|
  {
    if s.head != [] {
      WithoutShorter(s.head, s.head[0]);
      WithoutInRange(s.head, s.head[0], |s.reqs|);
      AbortAllFields(AbortOne(s));
    }
  }

  /** An orphan is completed although its callback is still to come. */
  lemma {:induction false} OrphanAborted(s: Vusb, u: nat)
    requires InRange(s.head, |s.reqs|) && u in s.head && u < |s.reqs| && Orphan(s.reqs[u])
    ensures var t := AbortAll(s); u < |t.reqs| && u in Ids(t.log) && t.reqs[u].wdf == Cancelling
    decreases |s.head|
  {
    var a := AbortOne(s);
    WithoutShorter(s.head, s.head[0]);
    WithoutInRange(s.head, s.head[0], |s.reqs|);
    if s.head[0] == u {
      AbortAllKeepsOthers(a, u);
      AbortAllFields(a);
      assert AbortAll(a).log[|s.log|] == Completion(u, NotConnected);
    } else {
      OrphanAborted(a, u);
    }
  }

  lemma {:induction false} OrphanBreaks(t: Vusb, u: nat)
    requires u < |t.reqs| && u in Ids(t.log) && t.reqs[u].wdf == Cancelling
    ensures !Inv(t)
  {
    assert !ReqInv(t, u);
  }

  lemma {:induction false} PlugoutKeepsInv(s: Vusb)
    requires Inv(s) && s.invalid && NoOrphans(s)
    ensures var t := AbortAll(s);
            && Inv(t) && s.log <= t.log
            && forall u: nat :: u in s.head && u < |s.reqs| ==>
                 if s.reqs[u].wdf == Cancelling then u !in Ids(t.log) else Completion(u, NotConnected) in t.log
    decreases |s.head|
  {
    if s.head != [] {
      var u := s.head[0];
      assert u in s.head;
      var a := AbortOne(s);
      AbortOneInv(s);
      AbortOneEffect(s, u);
      WithoutShorter(s.head, u);
      PlugoutKeepsInv(a);
      var t := AbortAll(a);
      if s.reqs[u].wdf == Cancelling {
        CancellingNotDone(t, u, a);
      } else {
        assert a.log[|s.log|] in t.log by {
          assert t.log[|s.log|] == a.log[|s.log|];
        }
      }
    }
  }

  lemma {:induction false} AbortOneEffect(s: Vusb, u: nat)
    requires Inv(s) && s.head != [] && u == s.head[0] && u < |s.reqs| && !Orphan(s.reqs[u])
    ensures var a := AbortOne(s);
            && a.invalid == s.invalid && |a.reqs| == |s.reqs| && s.log <= a.log
            && (forall v: nat :: v in a.head <==> v in s.head && v != u)
            && (forall v: nat :: v < |s.reqs| && v != u ==> a.reqs[v] == s.reqs[v])
            && (if s.reqs[u].wdf == Cancelling then a.reqs[u].wdf == Cancelling && a.log == s.log
                else a.log == s.log + [Completion(u, NotConnected)])
  {
    assert u in s.head;
    assert ReqInv(s, u);
  }

  /** The abort of other requests leaves a request being cancelled uncompleted. */
  lemma {:induction false} CancellingNotDone(t: Vusb, u: nat, a: Vusb)
    requires InRange(a.head, |a.reqs|) && u < |a.reqs| && t == AbortAll(a) && Inv(t) && Inv(a)
    requires u !in a.head && a.reqs[u].wdf == Cancelling
    ensures u !in Ids(t.log)
  {
    AbortAllKeepsOthers(a, u);
    assert ReqInv(t, u);
  }

  lemma {:induction false} AbortAllKeepsOthers(s: Vusb, u: nat)
    requires InRange(s.head, |s.reqs|) && u < |s.reqs| && u !in s.head
    ensures |AbortAll(s).reqs| == |s.reqs| && AbortAll(s).reqs[u] == s.reqs[u]
    decreases |s.head|
  {
    if s.head != [] {
      WithoutShorter(s.head, s.head[0]);
      WithoutInRange(s.head, s.head[0], |s.reqs|);
      AbortAllKeepsOthers(AbortOne(s), u);
    }
  }
}
