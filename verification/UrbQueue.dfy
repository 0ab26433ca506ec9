/** The life cycle of URB requests in the UDE driver, as a state machine.

    One `Vusb` value is the state one virtual device's spin lock protects, together with
    what the framework knows of each request and a log of completions. A step is one lock
    region; the unlocked stores of `submit_urbr` and `read_vusb` are part of their step. */
module UrbQueue {
  import opened Bytes
  import opened Options

  datatype Kind = Urb | Unlink(target: nat) | Other

  /** The framework's view of a request: not marked cancelable; marked; cancelled, its
      callback still to come; its callback past the list removal; its callback over. */
  datatype Wdf = Unmarked | Marked | Cancelling | Unlinking | CallbackDone

  datatype Req = Req(kind: Kind, seqNum: nat, cancelable: bool, wdf: Wdf)

  datatype Status = Ok | Failed | Cancelled | NotConnected

  datatype Completion = Completion(id: nat, status: Status)

  /** What storing a request into a read buffer comes to: all of it, its header only with
      the payload to follow, or an error. */
  datatype Stored = Full | Partly | Refused

  datatype Vusb = Vusb(
    invalid: bool,
    pendingRead: bool,
    partial: Option<nat>,
    lenPartial: nat,
    head: seq<nat>,
    pending: seq<nat>,
    sent: seq<nat>,
    seqNum: nat,
    reqs: seq<Req>,
    answering: set<nat>,
    log: seq<Completion>)

  // ---------------------------------------------------------------------------
  // Pieces of steps
  // ---------------------------------------------------------------------------

  /** RemoveEntryListInit: u is unlinked, wherever it stands. */
  function Without(s: seq<nat>, u: nat): (r: seq<nat>)
    ensures forall v: nat :: v in r <==> v in s && v != u
  {
    if s == [] then [] else if s[0] == u then Without(s[1..], u) else [s[0]] + Without(s[1..], u)
  }

  function Complete(s: Vusb, u: nat, status: Status): Vusb {
    s.(log := s.log + [Completion(u, status)])
  }

  /** unmark_cancelable_urbr: whether the driver owns the request again. */
  predicate UnmarkSucceeds(r: Req) {
    r.kind != Urb || !r.cancelable || r.wdf == Marked
  }

  function UnmarkedReq(r: Req): Req {
    if r.kind != Urb || !r.cancelable then r
    else r.(cancelable := false, wdf := if r.wdf == Marked then Unmarked else r.wdf)
  }

  function Unmark(s: Vusb, u: nat): Vusb
    requires u < |s.reqs|
  {
    s.(reqs := s.reqs[u := UnmarkedReq(s.reqs[u])])
  }

  /** A request handed to the driver: marked cancelable if it is a URB. */
  function Entered(kind: Kind, seqNum: nat): Req {
    Req(kind, seqNum, kind == Urb, if kind == Urb then Marked else Unmarked)
  }

  // ---------------------------------------------------------------------------
  // Steps
  // ---------------------------------------------------------------------------

  /** submit_urbr. A request that is not accepted is completed by the caller. */
  function Submit(s: Vusb, kind: Kind, markOk: bool, stored: Stored): Vusb {
    var u := |s.reqs|;
    if s.invalid then
      Complete(s.(reqs := s.reqs + [Req(kind, 0, false, Unmarked)]), u, NotConnected)
    else if s.partial.Some? || !s.pendingRead then
      if kind == Urb && !markOk then
        Complete(s.(reqs := s.reqs + [Req(kind, 0, false, Unmarked)]), u, Cancelled)
      else
        s.(reqs := s.reqs + [Entered(kind, 0)], pending := s.pending + [u], head := s.head + [u])
    else
      var n := s.seqNum + 1;
      match stored
      case Refused =>
        Complete(s.(seqNum := n, partial := None, reqs := s.reqs + [Req(kind, n, false, Unmarked)]), u, Failed)
      case Full =>
        s.(seqNum := n, partial := None, reqs := s.reqs + [Entered(kind, n)],
           sent := s.sent + [u], head := s.head + [u], pendingRead := false)
      case Partly =>
        s.(seqNum := n, partial := Some(u), lenPartial := HEADER_SIZE, reqs := s.reqs + [Entered(kind, n)],
           head := s.head + [u], pendingRead := false)
  }

  /** A failed store in read_vusb: the request leaves head_urbr and, unless its cancel
      callback is under way, is completed. */
  function ReadFailed(s: Vusb, u: nat): Vusb
    requires u < |s.reqs|
  {
    var t := Unmark(s.(head := Without(s.head, u)), u).(partial := None);
    if UnmarkSucceeds(s.reqs[u]) then Complete(t, u, Failed) else t
  }

  /** The part of read_vusb that serves the head of the pending list, or parks the read. */
  function ReadPending(s: Vusb, markOk: bool, stored: Stored): Vusb
    requires s.pending != [] ==> s.pending[0] < |s.reqs|
  {
    if s.pending == [] then s.(pendingRead := markOk)
    else
      var u, n := s.pending[0], s.seqNum + 1;
      var t := s.(seqNum := n, reqs := s.reqs[u := s.reqs[u].(seqNum := n)], pending := s.pending[1..]);
      match stored
      case Full => t.(sent := t.sent + [u], partial := None)
      case Partly => t.(partial := Some(u), lenPartial := HEADER_SIZE)
      case Refused => ReadFailed(t, u)
  }

  /** read_vusb: first the rest of a partially sent request, then the pending list. */
  function ReadVusb(s: Vusb, markOk: bool, stored: Stored): Vusb
    requires s.partial.Some? ==> s.partial.value < |s.reqs|
    requires s.pending != [] ==> s.pending[0] < |s.reqs|
  {
    if s.pendingRead then s
    else if s.partial.None? then ReadPending(s, markOk, stored)
    else
      var u := s.partial.value;
      if UnmarkSucceeds(s.reqs[u]) then
        var t := Unmark(s, u).(lenPartial := 0);
        if stored == Refused then ReadFailed(t, u) else t.(sent := t.sent + [u], partial := None)
      else
        ReadPending(Unmark(s, u).(partial := None, lenPartial := 0), markOk, stored)
  }

  /** The index in the sent list of the first request with the given number. */
  function FindSent(s: Vusb, seqNum: nat): (i: nat)
    requires InRange(s.sent, |s.reqs|)
    ensures i <= |s.sent|
    ensures i < |s.sent| ==> s.reqs[s.sent[i]].seqNum == seqNum
    ensures forall j :: 0 <= j < i ==> s.reqs[s.sent[j]].seqNum != seqNum
  {
    FindSentFrom(s, seqNum, 0)
  }

  function FindSentFrom(s: Vusb, seqNum: nat, k: nat): (i: nat)
    requires k <= |s.sent| && InRange(s.sent, |s.reqs|)
    ensures k <= i <= |s.sent|
    ensures i < |s.sent| ==> s.reqs[s.sent[i]].seqNum == seqNum
    ensures forall j :: k <= j < i ==> s.reqs[s.sent[j]].seqNum != seqNum
    decreases |s.sent| - k
  {
    if k == |s.sent| || s.reqs[s.sent[k]].seqNum == seqNum then k else FindSentFrom(s, seqNum, k + 1)
  }

  /** find_sent_urbr, the first lock region of write_vusb: the request the response belongs
      to, if any, leaves both lists and is the writer's to answer. */
  function WriteVusb(s: Vusb, seqNum: nat): Vusb
    requires InRange(s.sent, |s.reqs|)
  {
    var i := FindSent(s, seqNum);
    if i == |s.sent| then s
    else
      var u := s.sent[i];
      s.(head := Without(s.head, u), sent := Without(s.sent, u), answering := s.answering + {u})
  }

  /** The end of write_vusb: complete the answered request unless it is being cancelled. */
  function WriteDone(s: Vusb, u: nat, status: Status): Vusb
    requires u < |s.reqs|
  {
    var t := Unmark(s, u).(answering := s.answering - {u});
    if UnmarkSucceeds(s.reqs[u]) then Complete(t, u, status) else t
  }

  /** The framework starts cancelling a request that is marked cancelable. */
  function CancelRequest(s: Vusb, u: nat): Vusb
    requires u < |s.reqs|
  {
    s.(reqs := s.reqs[u := s.reqs[u].(wdf := Cancelling)])
  }

  /** The lock region of urbr_cancelled. A request without a number was never sent, so it
      is completed at once; otherwise an unlink goes out first. */
  function CancelCallback(s: Vusb, u: nat): Vusb
    requires u < |s.reqs|
  {
    var hit := s.partial == Some(u);
    var t := s.(head := Without(s.head, u), pending := Without(s.pending, u), sent := Without(s.sent, u),
                partial := if hit then None else s.partial, lenPartial := if hit then 0 else s.lenPartial);
    if s.reqs[u].seqNum != 0 then t.(reqs := t.reqs[u := t.reqs[u].(wdf := Unlinking)])
    else Complete(t.(reqs := t.reqs[u := t.reqs[u].(wdf := CallbackDone)]), u, Cancelled)
  }

  /** The rest of urbr_cancelled: submit the unlink, complete the cancelled request. */
  function UnlinkAndComplete(s: Vusb, u: nat, stored: Stored): Vusb
    requires u < |s.reqs|
  {
    var t := Submit(s, Unlink(s.reqs[u].seqNum), true, stored);
    Complete(t.(reqs := t.reqs[u := t.reqs[u].(wdf := CallbackDone)]), u, Cancelled)
  }

  function ReadCancelled(s: Vusb): Vusb {
    s.(pendingRead := false)
  }

  function Invalidate(s: Vusb): Vusb {
    s.(invalid := true)
  }

  /** One round of abort_all_pending_urbrs. */
  function AbortOne(s: Vusb): Vusb
    requires s.head != [] && s.head[0] < |s.reqs|
  {
    var u := s.head[0];
    var t := Unmark(s.(head := Without(s.head, u), pending := Without(s.pending, u), sent := Without(s.sent, u)), u);
    if UnmarkSucceeds(s.reqs[u]) then Complete(t, u, NotConnected) else t
  }

  const Init := Vusb(false, false, None, 0, [], [], [], 0, [], {}, [])

  // ---------------------------------------------------------------------------
  // The invariant
  // ---------------------------------------------------------------------------

  ghost predicate Distinct(s: seq<nat>) {
    forall i, j :: 0 <= i < j < |s| ==> s[i] != s[j]
  }

  /** The requests in a completion log. */
  ghost function Ids(log: seq<Completion>): (r: set<nat>)
    ensures forall i :: 0 <= i < |log| ==> log[i].id in r
  {
    set c | c in log :: c.id
  }

  predicate InRange(s: seq<nat>, n: nat) {
    forall i :: 0 <= i < |s| ==> s[i] < n
  }

  ghost predicate Known(s: Vusb) {
    && InRange(s.head, |s.reqs|) && InRange(s.pending, |s.reqs|) && InRange(s.sent, |s.reqs|)
    && (forall u: nat :: u in s.answering ==> u < |s.reqs|)
    && (forall u: nat :: u in Ids(s.log) ==> u < |s.reqs|)
    && (s.partial.Some? ==> s.partial.value < |s.reqs|)
  }

  /** No request is completed twice. */
  ghost predicate CompletedOnce(log: seq<Completion>) {
    forall i, j :: 0 <= i < j < |log| ==> log[i].id != log[j].id
  }

  ghost predicate Lists(s: Vusb) {
    && Distinct(s.head) && Distinct(s.pending) && Distinct(s.sent)
    && (forall u: nat :: u in s.pending ==> u in s.head && u !in s.sent)
    && (forall u: nat :: u in s.sent ==> u in s.head)
    && (s.partial.Some? ==> s.partial.value !in s.pending && s.partial.value !in s.sent)
    && (s.partial.Some? && !s.invalid ==> s.partial.value in s.head)
    && (s.partial.Some? <==> s.lenPartial != 0)
    && (s.partial.Some? && s.partial.value !in s.head ==> s.partial.value !in s.answering)
  }

  /** The partially sent request was aborted behind the driver's back. */
  predicate Stale(s: Vusb) {
    s.partial.Some? && s.partial.value !in s.head
  }

  /** u is where the driver looks after it: on a state list, or partially sent. */
  ghost predicate Tracked(s: Vusb, u: nat) {
    u in s.pending || u in s.sent || (s.partial == Some(u) && u in s.head)
  }

  /** Every request that is not completed is where its state says. */
  ghost predicate Places(s: Vusb)
    requires Known(s)
  {
    && (forall u: nat :: u in s.head ==> u !in Ids(s.log) && u !in s.answering)
    && (forall u: nat :: u in s.head ==> Tracked(s, u) || s.reqs[u].wdf == Cancelling)
    && (forall u: nat :: u < |s.reqs| && u !in s.head && u !in s.answering && u !in Ids(s.log) ==>
          s.reqs[u].wdf == Cancelling || s.reqs[u].wdf == Unlinking)
  }

  /** A request being cancelled whose cancelable flag a failed unmark has already cleared. */
  predicate Orphan(r: Req) {
    !r.cancelable && r.wdf == Cancelling
  }

  /** The cancel callback is still to come or to finish. */
  predicate CallbackDue(s: Vusb, u: nat) {
    u < |s.reqs| && (s.reqs[u].wdf == Cancelling || s.reqs[u].wdf == Unlinking)
  }

  /** Requests on the lists exist. */
  predicate ListsKnown(s: Vusb) {
    && InRange(s.pending, |s.reqs|) && InRange(s.head, |s.reqs|) && InRange(s.sent, |s.reqs|)
    && (s.partial.Some? ==> s.partial.value < |s.reqs|)
  }

  /** The cancelable flag, the framework's view, and completion agree. */
  ghost predicate ReqInv(s: Vusb, u: nat)
    requires u < |s.reqs|
  {
    var r := s.reqs[u];
    && (r.kind != Urb ==> r.wdf == Unmarked && !r.cancelable)
    && (r.cancelable ==> r.wdf != Unmarked)
    && (r.wdf == Marked ==> r.cancelable && u !in Ids(s.log))
    && (r.wdf == Cancelling ==> u !in Ids(s.log))
    && (r.wdf == Unlinking ==> u !in Ids(s.log) && u !in s.head && 0 < r.seqNum)
    && (r.wdf == CallbackDone ==> u in Ids(s.log) && u !in s.head)
    && (Tracked(s, u) || u in s.answering ==> !Orphan(r))
    && (u in s.answering && (u in Ids(s.log) || r.wdf == Unlinking) ==>
          r.wdf in {CallbackDone, Unlinking} && r.cancelable)
    && r.seqNum <= s.seqNum
    && (!s.invalid && (r.wdf == Marked || r.wdf == Cancelling) && u !in s.pending ==> 0 < r.seqNum)
  }

  ghost predicate Flags(s: Vusb) {
    forall u: nat :: u < |s.reqs| ==> ReqInv(s, u)
  }

  ghost predicate Numbers(s: Vusb)
    requires Known(s)
  {
    && (forall u: nat :: u in s.pending ==> s.reqs[u].seqNum == 0)
    && (forall u: nat :: u in s.sent ==> 0 < s.reqs[u].seqNum)
    && SentAscending(s.sent, s.reqs)
    && (s.partial.Some? ==> s.reqs[s.partial.value].kind == Urb)
    && (Stale(s) ==> !s.reqs[s.partial.value].cancelable)
    && (s.partial.Some? ==>
          && s.reqs[s.partial.value].seqNum == s.seqNum > 0
          && forall u: nat :: u in s.sent ==> s.reqs[u].seqNum < s.seqNum)
  }

  ghost predicate SentAscending(sent: seq<nat>, reqs: seq<Req>)
    requires InRange(sent, |reqs|)
  {
    forall i, j :: 0 <= i < j < |sent| ==> reqs[sent[i]].seqNum < reqs[sent[j]].seqNum
  }

  /** A parked read waits for nothing that is there. */
  ghost predicate Parked(s: Vusb) {
    s.pendingRead ==> s.partial.None? && s.pending == []
  }

  ghost predicate Inv(s: Vusb) {
    Known(s) && CompletedOnce(s.log) && Lists(s) && Places(s) && Flags(s) && Numbers(s) && Parked(s)
  }

  // ---------------------------------------------------------------------------
  // Lists
  // ---------------------------------------------------------------------------

  lemma {:induction false} WithoutDistinct(s: seq<nat>, u: nat)
    requires Distinct(s)
    ensures Distinct(Without(s, u))
  {
    if s != [] {
      WithoutDistinct(s[1..], u);
      assert s[0] !in s[1..];
    }
  }

  lemma {:induction false} WithoutAbsent(s: seq<nat>, u: nat)
    requires u !in s
    ensures Without(s, u) == s
  {
    if s != [] {
      WithoutAbsent(s[1..], u);
    }
  }

  lemma {:induction false} WithoutInRange(s: seq<nat>, u: nat, n: nat)
    requires InRange(s, n)
    ensures InRange(Without(s, u), n)
  {
    forall i | 0 <= i < |Without(s, u)|
      ensures Without(s, u)[i] < n
    {
      assert Without(s, u)[i] in s;
    }
  }

  /** Removal keeps the order of numbers. */
  lemma {:induction false} WithoutAscending(s: seq<nat>, u: nat, reqs: seq<Req>)
    requires InRange(s, |reqs|) && SentAscending(s, reqs)
    ensures InRange(Without(s, u), |reqs|)
    ensures SentAscending(Without(s, u), reqs)
  {
    WithoutInRange(s, u, |reqs|);
    if s != [] {
      var rest := Without(s[1..], u);
      WithoutAscending(s[1..], u, reqs);
      forall i | 0 <= i < |rest|
        ensures reqs[s[0]].seqNum < reqs[rest[i]].seqNum
      {
        assert rest[i] in s[1..];
        var k :| 0 <= k < |s[1..]| && s[1..][k] == rest[i];
        assert s[k + 1] == rest[i];
      }
    }
  }

  lemma {:induction false} IdsAppend(log: seq<Completion>, c: Completion)
    ensures Ids(log + [c]) == Ids(log) + {c.id}
  {
    forall d | d in log + [c]
      ensures d.id in Ids(log) + {c.id}
    {
    }
    assert (log + [c])[|log|] == c;
    forall x: nat | x in Ids(log)
      ensures x in Ids(log + [c])
    {
      var d :| d in log && d.id == x;
      assert d in log + [c];
    }
  }

  /** Completing a request that is not completed yet keeps "at most once". */
  lemma {:induction false} CompleteOnce(s: Vusb, u: nat, status: Status)
    requires CompletedOnce(s.log)
    ensures CompletedOnce(Complete(s, u, status).log) <==> u !in Ids(s.log)
    ensures forall v: nat :: v in Ids(Complete(s, u, status).log) <==> v in Ids(s.log) || v == u
  {
    IdsAppend(s.log, Completion(u, status));
    var log := Complete(s, u, status).log;
    if u in Ids(s.log) {
      var d :| d in s.log && d.id == u;
      var i :| 0 <= i < |s.log| && s.log[i] == d;
      assert log[i].id == log[|s.log|].id;
    }
  }

  // ---------------------------------------------------------------------------
  // Every step keeps the invariant
  // ---------------------------------------------------------------------------

  lemma {:induction false} InitInv()
    ensures Inv(Init)
  {
  }

  lemma {:induction false} KnownLists(s: Vusb)
    requires Inv(s)
    ensures ListsKnown(s) && (s.partial.None? ==> s.lenPartial == 0) && (s.pendingRead ==> s.partial.None?)
  {
  }

  /** A request refused at once: it enters the table completed. */
  lemma {:induction false} RefusedInv(s: Vusb, t: Vusb, kind: Kind, n: nat, status: Status)
    requires Inv(s) && s.seqNum <= n && (n > s.seqNum ==> s.partial.None?)
    requires var r := Req(kind, if n > s.seqNum then n else 0, false, Unmarked);
             t == Complete(s.(seqNum := n, reqs := s.reqs + [r]), |s.reqs|, status)
    ensures Inv(t)
  {
    var u := |s.reqs|;
    assert u !in Ids(s.log);
    CompleteOnce(s, u, status);
    forall v: nat | v < |t.reqs|
      ensures ReqInv(t, v)
    {
      if v < u {
        assert ReqInv(s, v);
      }
    }
  }

  lemma {:induction false} AppendDistinct(s: seq<nat>, u: nat)
    requires InRange(s, u) && Distinct(s)
    ensures Distinct(s + [u]) && u !in s
    ensures forall v: nat :: v in s + [u] <==> v in s || v == u
  {
  }

  /** A request that enters the pending list. */
  lemma {:induction false} PendingInv(s: Vusb, t: Vusb, kind: Kind)
    requires Inv(s) && !s.invalid && !s.pendingRead
    requires t == s.(reqs := s.reqs + [Entered(kind, 0)], pending := s.pending + [|s.reqs|],
                     head := s.head + [|s.reqs|])
    ensures Inv(t)
  {
    var u := |s.reqs|;
    AppendDistinct(s.head, u);
    AppendDistinct(s.pending, u);
    assert u !in s.sent;
    assert u !in Ids(s.log);
    forall v: nat | v < |t.reqs|
      ensures ReqInv(t, v)
    {
      if v < u {
        assert ReqInv(s, v);
        assert Tracked(t, v) <==> Tracked(s, v);
      }
    }
  }

  /** A request with the newest number goes to the end of the sent list. */
  lemma {:induction false} AppendAscending(s: Vusb, reqs: seq<Req>, u: nat)
    requires Inv(s) && |s.reqs| <= |reqs| && u < |reqs| && u !in s.sent && s.seqNum < reqs[u].seqNum
    requires forall v: nat :: v < |s.reqs| && v != u ==> reqs[v] == s.reqs[v]
    ensures SentAscending(s.sent + [u], reqs) && Distinct(s.sent + [u])
    ensures forall v: nat :: v in s.sent + [u] <==> v in s.sent || v == u
  {
    forall i | 0 <= i < |s.sent|
      ensures reqs[s.sent[i]].seqNum <= s.seqNum
    {
      assert ReqInv(s, s.sent[i]);
      assert s.sent[i] in s.sent;
    }
  }

  /** A request sent straight from submit. */
  lemma {:induction false} DirectFullInv(s: Vusb, t: Vusb, kind: Kind)
    requires Inv(s) && !s.invalid && s.pendingRead
    requires var u, n := |s.reqs|, s.seqNum + 1;
             t == s.(seqNum := n, reqs := s.reqs + [Entered(kind, n)], head := s.head + [u], pendingRead := false,
                     sent := s.sent + [u])
    ensures Inv(t)
  {
    var u := |s.reqs|;
    AppendDistinct(s.head, u);
    AppendDistinct(s.sent, u);
    AppendAscending(s, t.reqs, u);
    assert u !in Ids(s.log) && s.pending == [];
    forall v: nat | v < |t.reqs|
      ensures ReqInv(t, v)
    {
      if v < u {
        assert ReqInv(s, v);
        assert Tracked(t, v) <==> Tracked(s, v);
      }
    }
  }

  /** A request partially sent straight from submit. */
  lemma {:induction false} DirectPartlyInv(s: Vusb, t: Vusb)
    requires Inv(s) && !s.invalid && s.pendingRead
    requires var u, n := |s.reqs|, s.seqNum + 1;
             t == s.(seqNum := n, reqs := s.reqs + [Entered(Urb, n)], head := s.head + [u], pendingRead := false,
                     partial := Some(u), lenPartial := HEADER_SIZE)
    ensures Inv(t)
  {
    var u := |s.reqs|;
    AppendDistinct(s.head, u);
    assert u !in Ids(s.log) && s.pending == [] && u !in s.sent && u !in s.pending;
    forall v: nat | v < |t.reqs|
      ensures ReqInv(t, v)
    {
      if v < u {
        assert ReqInv(s, v);
        assert Tracked(t, v) <==> Tracked(s, v);
      }
    }
    forall v: nat | v in s.sent
      ensures s.reqs[v].seqNum < t.seqNum
    {
      assert ReqInv(s, v);
    }
    assert SentAscending(t.sent, t.reqs);
  }

  lemma {:induction false} SubmitInv(s: Vusb, kind: Kind, markOk: bool, stored: Stored)
    requires Inv(s) && (stored == Partly ==> kind == Urb)
    ensures Inv(Submit(s, kind, markOk, stored))
  {
    hide Inv;
    var t := Submit(s, kind, markOk, stored);
    if s.invalid {
      RefusedInv(s, t, kind, s.seqNum, NotConnected);
    } else if s.partial.Some? || !s.pendingRead {
      PendingGuard(s);
      if kind == Urb && !markOk {
        RefusedInv(s, t, kind, s.seqNum, Cancelled);
      } else {
        PendingInv(s, t, kind);
      }
    } else {
      DirectGuard(s);
      if stored == Refused {
        RefusedInv(s, t, kind, s.seqNum + 1, Failed);
      } else {
        if stored == Full {
          DirectFullInv(s, t, kind);
        } else {
          DirectPartlyInv(s, t);
        }
      }
    }
  }

  lemma {:induction false} PendingGuard(s: Vusb)
    requires Inv(s)
    ensures s.partial.Some? ==> !s.pendingRead
  {
  }

  lemma {:induction false} DirectGuard(s: Vusb)
    requires Inv(s) && s.partial.None?
    ensures s.lenPartial == 0 && s == s.(partial := None)
  {
  }

  /** u is taken off every list and its record becomes r; it may be completed, and it may
      pass to the writer. */
  ghost predicate TakenOff(s: Vusb, t: Vusb, u: nat, r: Req) {
    && u < |s.reqs| && r.kind == s.reqs[u].kind
    && t.head == Without(s.head, u) && t.pending == Without(s.pending, u) && t.sent == Without(s.sent, u)
    && t.reqs == s.reqs[u := r]
    && (t.log == s.log || (u !in Ids(s.log) && exists c :: t.log == s.log + [c] && c.id == u))
    && (t.answering == s.answering || t.answering == s.answering + {u} || t.answering == s.answering - {u})
    && t.invalid == s.invalid && t.pendingRead == s.pendingRead
    && s.seqNum <= t.seqNum && (s.seqNum < t.seqNum ==> s.partial.None?)
    && (if s.partial == Some(u) && !(t.invalid && t.partial == Some(u)) then t.partial == None && t.lenPartial == 0
        else t.partial == s.partial && t.lenPartial == s.lenPartial)
  }

  lemma {:induction false} TakenOffKnown(s: Vusb, t: Vusb, u: nat, r: Req)
    requires Inv(s) && TakenOff(s, t, u, r)
    ensures Known(t) && CompletedOnce(t.log)
    ensures forall v: nat :: v != u ==> (v in Ids(t.log) <==> v in Ids(s.log))
    ensures u in Ids(s.log) ==> u in Ids(t.log)
  {
    WithoutInRange(s.head, u, |s.reqs|);
    WithoutInRange(s.pending, u, |s.reqs|);
    WithoutInRange(s.sent, u, |s.reqs|);
    if t.log != s.log {
      var c :| t.log == s.log + [c] && c.id == u;
      CompleteOnce(s, u, c.status);
      assert t.log == Complete(s, u, c.status).log;
      forall v: nat
        ensures v in Ids(t.log) <==> v in Ids(s.log) || v == u
      {
        assert v in Ids(Complete(s, u, c.status).log) <==> v in Ids(s.log) || v == u;
      }
    }
  }

  lemma {:induction false} TakenOffLists(s: Vusb, t: Vusb, u: nat, r: Req)
    requires Inv(s) && TakenOff(s, t, u, r)
    requires t.partial == Some(u) ==> u !in t.answering
    ensures Lists(t) && Parked(t)
  {
    WithoutDistinct(s.head, u);
    WithoutDistinct(s.pending, u);
    WithoutDistinct(s.sent, u);
  }

  lemma {:induction false} TakenOffReqs(s: Vusb, t: Vusb, u: nat, r: Req)
    requires Inv(s) && TakenOff(s, t, u, r) && Known(t) && ReqInv(t, u)
    requires forall v: nat :: v != u ==> (v in Ids(t.log) <==> v in Ids(s.log))
    requires u in t.answering || u in Ids(t.log) || r.wdf == Cancelling || r.wdf == Unlinking
    ensures Places(t) && Flags(t)
  {
    forall v: nat | v < |t.reqs| && v != u
      ensures ReqInv(t, v) && (Tracked(t, v) <==> Tracked(s, v))
    {
      assert ReqInv(s, v);
    }
    forall v: nat | v in t.head
      ensures Tracked(t, v) || t.reqs[v].wdf == Cancelling
    {
      assert Tracked(s, v) || s.reqs[v].wdf == Cancelling;
    }
  }

  lemma {:induction false} TakenOffNumbers(s: Vusb, t: Vusb, u: nat, r: Req)
    requires Inv(s) && TakenOff(s, t, u, r) && Known(t)
    requires t.partial == Some(u) ==> !r.cancelable && r.seqNum == s.reqs[u].seqNum
    ensures Numbers(t)
  {
    WithoutAscending(s.sent, u, s.reqs);
    WithoutInRange(s.sent, u, |s.reqs|);
    forall i | 0 <= i < |t.sent|
      ensures t.reqs[t.sent[i]] == s.reqs[t.sent[i]]
    {
      assert t.sent[i] in t.sent;
    }
    assert SentAscending(t.sent, t.reqs);
  }

  lemma {:induction false} TakenOffInv(s: Vusb, t: Vusb, u: nat, r: Req)
    requires Inv(s) && TakenOff(s, t, u, r)
    requires ReqInv(t, u)
    requires u in t.answering || u in Ids(t.log) || r.wdf == Cancelling || r.wdf == Unlinking
    requires t.partial == Some(u) ==> u !in t.answering && !r.cancelable && r.seqNum == s.reqs[u].seqNum
    ensures Inv(t)
  {
    hide TakenOff, Lists, Known;
    TakenOffKnown(s, t, u, r);
    TakenOffLists(s, t, u, r);
    TakenOffRecord(s, t, u, r);
    TakenOffReqs(s, t, u, r);
    TakenOffNumbers(s, t, u, r);
  }

  lemma {:induction false} TakenOffRecord(s: Vusb, t: Vusb, u: nat, r: Req)
    requires TakenOff(s, t, u, r)
    ensures u < |t.reqs| == |s.reqs| && t.reqs[u] == r
  {
  }

  /** The record after unmarking, completed if the unmark succeeded: consistent whenever the
      request is neither completed before nor being cancelled with its flag gone. */
  lemma {:induction false} UnmarkedReqInv(s: Vusb, t: Vusb, u: nat)
    requires Inv(s) && u < |s.reqs| == |t.reqs| && !Orphan(s.reqs[u]) && s.seqNum <= t.seqNum
    requires t.reqs[u] == UnmarkedReq(s.reqs[u]) || t.reqs[u] == UnmarkedReq(s.reqs[u]).(seqNum := t.seqNum)
    requires u !in t.head && u !in t.pending && u !in t.sent && u !in t.answering
    requires UnmarkSucceeds(s.reqs[u]) ==> u !in Ids(s.log) && u in Ids(t.log) && s.reqs[u].wdf != Unlinking
    requires !UnmarkSucceeds(s.reqs[u]) ==> (u in Ids(t.log) <==> u in Ids(s.log))
    requires t.reqs[u].wdf == Unlinking || (!t.invalid && u in s.pending) ==> t.reqs[u].seqNum > 0
    requires t.invalid == s.invalid
    ensures ReqInv(t, u)
    ensures u in Ids(t.log) || t.reqs[u].wdf == Cancelling || t.reqs[u].wdf == Unlinking
  {
    assert ReqInv(s, u);
  }

  /** A request on head_urbr, or being answered and not completed, is the driver's to complete
      exactly when the unmark succeeds: the framework's callback will then never run, and
      otherwise it is due. An orphan is the exception that plug-out falls for. */
  lemma {:induction false} UnmarkDecides(s: Vusb, u: nat)
    requires Inv(s) && (u in s.head || u in s.answering) && u < |s.reqs| && u !in Ids(s.log)
    ensures UnmarkSucceeds(s.reqs[u]) <==> !CallbackDue(s, u) || Orphan(s.reqs[u])
    ensures UnmarkSucceeds(s.reqs[u]) && !Orphan(s.reqs[u]) ==> UnmarkedReq(s.reqs[u]).wdf == Unmarked
    ensures Orphan(s.reqs[u]) ==> u in s.head && !Tracked(s, u)
  {
    assert ReqInv(s, u);
  }

  lemma {:induction false} CompletedIsDone(s: Vusb, u: nat, status: Status)
    ensures u in Ids(Complete(s, u, status).log)
    ensures exists c :: Complete(s, u, status).log == s.log + [c] && c.id == u
  {
    IdsAppend(s.log, Completion(u, status));
    assert Complete(s, u, status).log == s.log + [Completion(u, status)] && Completion(u, status).id == u;
  }

  /** A failed store: the request is on head_urbr, on no state list, and in flight. */
  lemma {:induction false} ReadFailedInv(s: Vusb, m: Vusb, u: nat)
    requires Inv(s) && u in s.head && u < |s.reqs| && !Orphan(s.reqs[u]) && (s.partial.None? || s.partial == Some(u))
    requires s.seqNum <= m.seqNum && (s.seqNum < m.seqNum ==> s.partial.None?)
    requires m == s.(seqNum := m.seqNum, pending := Without(s.pending, u), sent := Without(s.sent, u),
                     reqs := m.reqs, lenPartial := 0)
    requires m.reqs == (if s.seqNum < m.seqNum then s.reqs[u := s.reqs[u].(seqNum := m.seqNum)] else s.reqs)
    requires u in s.pending ==> s.seqNum < m.seqNum
    ensures Inv(ReadFailed(m, u))
  {
    hide Inv, Known;
    HeadKnown(s, u);
    PartialLength(s);
    var t := ReadFailed(m, u);
    CompletedIsDone(Unmark(m.(head := Without(m.head, u)), u).(partial := None), u, Failed);
    assert TakenOff(s, t, u, t.reqs[u]);
    UnmarkedReqInv(s, t, u);
    TakenOffInv(s, t, u, t.reqs[u]);
  }

  lemma {:induction false} PartialLength(s: Vusb)
    requires Inv(s)
    ensures s.partial.Some? <==> s.lenPartial != 0
  {
  }

  lemma {:induction false} HeadKnown(s: Vusb, u: nat)
    requires Inv(s) && u in s.head
    ensures u < |s.reqs| && u !in Ids(s.log) && u !in s.answering && ReqInv(s, u)
  {
  }

  /** The head of the pending list is the driver's, without a number yet. */
  lemma {:induction false} PendingHead(s: Vusb)
    requires Inv(s) && s.pending != []
    ensures s.pending[0] in s.head && s.pending[0] < |s.reqs| && s.reqs[s.pending[0]].seqNum == 0
    ensures !Orphan(s.reqs[s.pending[0]]) && s.pending[1..] == Without(s.pending, s.pending[0])
    ensures s.pending[0] !in s.sent && Without(s.sent, s.pending[0]) == s.sent
  {
    var u := s.pending[0];
    assert u in s.pending;
    assert u !in s.pending[1..];
    WithoutAbsent(s.pending[1..], u);
    WithoutAbsent(s.sent, u);
    assert ReqInv(s, u) && Tracked(s, u);
  }

  /** Records that do not change, of requests that stay where they are, stay consistent. */
  lemma {:induction false} ReqInvFrame(s: Vusb, t: Vusb, v: nat)
    requires Inv(s) && v < |s.reqs| <= |t.reqs| && t.reqs[v] == s.reqs[v] && t.head == s.head && t.log == s.log
    requires t.answering == s.answering && s.seqNum <= t.seqNum && (Tracked(t, v) ==> Tracked(s, v))
    requires t.invalid == s.invalid && (v in s.pending ==> v in t.pending)
    ensures ReqInv(t, v)
  {
    assert ReqInv(s, v);
  }

  /** The first pending request gets the next number and leaves the pending list for the
      sent list, or is remembered as partially sent. */
  ghost predicate ReadHead(s: Vusb, t: Vusb, u: nat) {
    && !s.pendingRead && s.partial.None? && s.pending != [] && u == s.pending[0] && u < |s.reqs|
    && var m := s.(seqNum := s.seqNum + 1, reqs := s.reqs[u := s.reqs[u].(seqNum := s.seqNum + 1)],
                   pending := Without(s.pending, u));
       || t == m.(sent := s.sent + [u])
       || (s.reqs[u].kind == Urb && t == m.(partial := Some(u), lenPartial := HEADER_SIZE))
  }

  lemma {:induction false} ReadHeadLists(s: Vusb, t: Vusb, u: nat)
    requires Inv(s) && ReadHead(s, t, u)
    ensures Known(t) && Lists(t) && CompletedOnce(t.log) && Parked(t)
  {
    PendingHead(s);
    WithoutDistinct(s.pending, u);
    WithoutInRange(s.pending, u, |s.reqs|);
    AppendDistinctOf(s.sent, u);
  }

  lemma {:induction false} ReadHeadReqs(s: Vusb, t: Vusb, u: nat)
    requires Inv(s) && ReadHead(s, t, u) && Known(t)
    ensures Places(t) && Flags(t)
  {
    PendingHead(s);
    AppendDistinctOf(s.sent, u);
    assert ReqInv(s, u) && Tracked(s, u) && Tracked(t, u);
    forall v: nat | v < |t.reqs| && v != u
      ensures ReqInv(t, v) && (Tracked(t, v) <==> Tracked(s, v))
    {
      ReqInvFrame(s, t, v);
    }
    assert ReqInv(t, u);
  }

  lemma {:induction false} ReadHeadNumbers(s: Vusb, t: Vusb, u: nat)
    requires Inv(s) && ReadHead(s, t, u) && Known(t) && Lists(t)
    ensures Numbers(t)
  {
    PendingHead(s);
    if t.partial.None? {
      AppendAscending(s, t.reqs, u);
    } else {
      SentBelow(s, t.reqs, u);
    }
  }

  lemma {:induction false} SentBelow(s: Vusb, reqs: seq<Req>, u: nat)
    requires Inv(s) && u !in s.sent && |reqs| == |s.reqs|
    requires forall v: nat :: v < |s.reqs| && v != u ==> reqs[v] == s.reqs[v]
    ensures SentAscending(s.sent, reqs)
    ensures forall v: nat :: v in s.sent ==> v < |s.reqs| && 0 < reqs[v].seqNum <= s.seqNum
  {
    forall v: nat | v in s.sent
      ensures v < |s.reqs| && 0 < reqs[v].seqNum <= s.seqNum
    {
      assert ReqInv(s, v);
    }
    forall i | 0 <= i < |s.sent|
      ensures reqs[s.sent[i]] == s.reqs[s.sent[i]]
    {
      assert s.sent[i] in s.sent;
    }
  }

  lemma {:induction false} ReadHeadInv(s: Vusb, t: Vusb, u: nat)
    requires Inv(s) && ReadHead(s, t, u)
    ensures Inv(t)
  {
    ReadHeadLists(s, t, u);
    ReadHeadReqs(s, t, u);
    ReadHeadNumbers(s, t, u);
  }

  lemma {:induction false} ParkInv(s: Vusb, markOk: bool)
    requires Inv(s) && s.partial.None? && s.pending == []
    ensures Inv(s.(pendingRead := markOk))
  {
    var t := s.(pendingRead := markOk);
    forall v: nat | v < |t.reqs|
      ensures ReqInv(t, v)
    {
      assert ReqInv(s, v);
    }
  }

  /** Only a URB is ever stored partly. */
  predicate StoredFits(s: Vusb, stored: Stored) {
    stored == Partly && s.pending != [] && s.pending[0] < |s.reqs| ==> s.reqs[s.pending[0]].kind == Urb
  }

  lemma {:induction false} ReadPendingInv(s: Vusb, markOk: bool, stored: Stored)
    requires Inv(s) && !s.pendingRead && s.partial.None? && StoredFits(s, stored)
    requires s.pending != [] ==> s.pending[0] < |s.reqs|
    ensures Inv(ReadPending(s, markOk, stored))
  {
    hide Inv;
    DirectGuard(s);
    if s.pending == [] {
      ParkInv(s, markOk);
    } else {
      PendingHead(s);
      var u, n := s.pending[0], s.seqNum + 1;
      var t := s.(seqNum := n, reqs := s.reqs[u := s.reqs[u].(seqNum := n)], pending := s.pending[1..]);
      match stored
      case Full => ReadHeadInv(s, t.(sent := t.sent + [u], partial := None), u);
      case Partly => ReadHeadInv(s, t.(partial := Some(u), lenPartial := HEADER_SIZE), u);
      case Refused => ReadFailedInv(s, t, u);
    }
  }

  /** The rest of the partially sent request is sent. */
  ghost predicate PartialSent(s: Vusb, t: Vusb, u: nat) {
    && Inv(s) && !s.pendingRead && s.partial == Some(u) && u in s.head
    && u < |s.reqs| && UnmarkSucceeds(s.reqs[u])
    && t == s.(reqs := s.reqs[u := UnmarkedReq(s.reqs[u])], lenPartial := 0, partial := None,
               sent := s.sent + [u])
  }

  lemma {:induction false} PartialSentFlags(s: Vusb, t: Vusb, u: nat)
    requires PartialSent(s, t, u)
    ensures Flags(t)
  {
    forall v: nat | v < |t.reqs|
      ensures ReqInv(t, v)
    {
      assert ReqInv(s, v);
      assert Tracked(t, v) <==> Tracked(s, v);
    }
  }

  lemma {:induction false} PartialSentLists(s: Vusb, t: Vusb, u: nat)
    requires PartialSent(s, t, u)
    ensures Known(t) && Lists(t) && Places(t)
  {
    hide Flags, Numbers;
    AppendDistinctOf(s.sent, u);
  }

  lemma {:induction false} PartialSentNumbers(s: Vusb, t: Vusb, u: nat)
    requires PartialSent(s, t, u) && Known(t)
    ensures Numbers(t)
  {
    hide Flags, Places;
    assert SentAscending(t.sent, t.reqs);
  }

  /** The partially sent request is sent, or is found being cancelled and dropped. */
  lemma {:induction false} PartialSentInv(s: Vusb, t: Vusb, u: nat)
    requires PartialSent(s, t, u)
    ensures Inv(t)
  {
    hide Flags, Places, Lists, Numbers;
    PartialSentFlags(s, t, u);
    PartialSentLists(s, t, u);
    PartialSentNumbers(s, t, u);
  }

  lemma {:induction false} AppendDistinctOf(s: seq<nat>, u: nat)
    requires Distinct(s) && u !in s
    ensures Distinct(s + [u])
    ensures forall v: nat :: v in s + [u] <==> v in s || v == u
  {
  }

  lemma {:induction false} PartialDroppedInv(s: Vusb, t: Vusb, u: nat)
    requires Inv(s) && !s.pendingRead && s.partial == Some(u) && u in s.head
    requires u < |s.reqs| && !UnmarkSucceeds(s.reqs[u])
    requires t == s.(reqs := s.reqs[u := UnmarkedReq(s.reqs[u])], lenPartial := 0, partial := None)
    ensures Inv(t) && Orphan(t.reqs[u]) && u in t.head
  {
    assert ReqInv(s, u);
    forall v: nat | v in t.head
      ensures Tracked(t, v) || t.reqs[v].wdf == Cancelling
    {
      assert Tracked(s, v) || s.reqs[v].wdf == Cancelling;
    }
    forall v: nat | v < |t.reqs|
      ensures ReqInv(t, v)
    {
      assert ReqInv(s, v);
      assert v != u ==> (Tracked(t, v) <==> Tracked(s, v));
    }
    assert SentAscending(t.sent, t.reqs);
  }

  /** A read keeps the invariant unless the partially sent request is stale. */
  lemma {:induction false} ReadVusbInv(s: Vusb, markOk: bool, stored: Stored)
    requires Inv(s) && !Stale(s) && StoredFits(s, stored)
    requires s.partial.Some? ==> s.partial.value < |s.reqs|
    requires s.pending != [] ==> s.pending[0] < |s.reqs|
    ensures Inv(ReadVusb(s, markOk, stored))
  {
    hide Inv;
    if s.pendingRead {
    } else if s.partial.None? {
      ReadPendingInv(s, markOk, stored);
    } else {
      var u := s.partial.value;
      HeadKnown(s, u);
      var t := Unmark(s, u);
      if !UnmarkSucceeds(s.reqs[u]) {
        PartialDroppedInv(s, t.(partial := None, lenPartial := 0), u);
        assert StoredFits(t, stored);
        ReadPendingInv(t.(partial := None, lenPartial := 0), markOk, stored);
      } else if stored == Refused {
        PartialRefused(s, u);
      } else {
        PartialSentInv(s, t.(lenPartial := 0, sent := s.sent + [u], partial := None), u);
      }
    }
  }

  /** A second unmark changes nothing and succeeds. */
  lemma {:induction false} PartialRefused(s: Vusb, u: nat)
    requires Inv(s) && s.partial == Some(u) && u in s.head && u < |s.reqs| && UnmarkSucceeds(s.reqs[u])
    ensures Inv(ReadFailed(Unmark(s, u).(lenPartial := 0), u))
  {
    assert ReqInv(s, u);
    WithoutAbsent(s.pending, u);
    WithoutAbsent(s.sent, u);
    var t := ReadFailed(Unmark(s, u).(lenPartial := 0), u);
    CompletedIsDone(s, u, Failed);
    assert t == ReadFailed(s.(lenPartial := 0), u);
    ReadFailedInv(s, s.(lenPartial := 0, pending := Without(s.pending, u), sent := Without(s.sent, u)), u);
  }

  lemma {:induction false} WriteVusbInv(s: Vusb, seqNum: nat)
    requires Inv(s)
    ensures Inv(WriteVusb(s, seqNum))
  {
    var i := FindSent(s, seqNum);
    if i < |s.sent| {
      var u := s.sent[i];
      assert u in s.sent && u in s.head;
      WithoutAbsent(s.pending, u);
      var t := WriteVusb(s, seqNum);
      assert ReqInv(s, u) && Tracked(s, u);
      assert TakenOff(s, t, u, s.reqs[u]);
      TakenOffInv(s, t, u, s.reqs[u]);
    }
  }

  lemma {:induction false} WriteDoneInv(s: Vusb, u: nat, status: Status)
    requires Inv(s) && u in s.answering && u < |s.reqs|
    ensures Inv(WriteDone(s, u, status))
  {
    var t := WriteDone(s, u, status);
    assert ReqInv(s, u);
    assert u !in s.head;
    WithoutAbsent(s.head, u);
    WithoutAbsent(s.pending, u);
    WithoutAbsent(s.sent, u);
    CompletedIsDone(Unmark(s, u).(answering := s.answering - {u}), u, status);
    assert s.partial != Some(u);
    assert TakenOff(s, t, u, t.reqs[u]);
    UnmarkedReqInv(s, t, u);
    TakenOffInv(s, t, u, t.reqs[u]);
  }

  lemma {:induction false} CancelRequestInv(s: Vusb, u: nat)
    requires Inv(s) && u < |s.reqs| && s.reqs[u].wdf == Marked
    ensures Inv(CancelRequest(s, u))
  {
    var t := CancelRequest(s, u);
    forall v: nat | v < |t.reqs|
      ensures ReqInv(t, v) && (Tracked(t, v) <==> Tracked(s, v))
    {
      assert ReqInv(s, v);
    }
    assert SentAscending(t.sent, t.reqs);
  }

  lemma {:induction false} CancelCallbackInv(s: Vusb, u: nat)
    requires Inv(s) && u < |s.reqs| && s.reqs[u].wdf == Cancelling
    ensures Inv(CancelCallback(s, u))
  {
    var t := CancelCallback(s, u);
    assert ReqInv(s, u);
    CompletedIsDone(t.(log := s.log), u, Cancelled);
    assert TakenOff(s, t, u, t.reqs[u]);
    TakenOffInv(s, t, u, t.reqs[u]);
  }

  lemma {:induction false} UnlinkAndCompleteInv(s: Vusb, u: nat, stored: Stored)
    requires Inv(s) && u < |s.reqs| && s.reqs[u].wdf == Unlinking && stored != Partly
    ensures Inv(UnlinkAndComplete(s, u, stored))
  {
    var m := Submit(s, Unlink(s.reqs[u].seqNum), true, stored);
    SubmitInv(s, Unlink(s.reqs[u].seqNum), true, stored);
    assert m.reqs[u] == s.reqs[u];
    CancelEndsInv(m, u);
  }

  /** The callback's last act: the request is completed and its record closed. */
  lemma {:induction false} CancelEndsInv(s: Vusb, u: nat)
    requires Inv(s) && u < |s.reqs| && s.reqs[u].wdf == Unlinking
    ensures Inv(Complete(s.(reqs := s.reqs[u := s.reqs[u].(wdf := CallbackDone)]), u, Cancelled))
  {
    var m := s.(reqs := s.reqs[u := s.reqs[u].(wdf := CallbackDone)]);
    var t := Complete(m, u, Cancelled);
    assert ReqInv(s, u);
    WithoutAbsent(s.head, u);
    WithoutAbsent(s.pending, u);
    WithoutAbsent(s.sent, u);
    CompletedIsDone(m, u, Cancelled);
    assert TakenOff(s, t, u, t.reqs[u]);
    TakenOffInv(s, t, u, t.reqs[u]);
  }

  lemma {:induction false} ReadCancelledInv(s: Vusb)
    requires Inv(s)
    ensures Inv(ReadCancelled(s)) && Inv(Invalidate(s))
  {
    forall v: nat | v < |s.reqs|
      ensures ReqInv(ReadCancelled(s), v) && ReqInv(Invalidate(s), v)
    {
      assert ReqInv(s, v);
    }
    assert Places(ReadCancelled(s)) && Places(Invalidate(s)) by {
      forall v: nat | v in s.head
        ensures Tracked(ReadCancelled(s), v) || s.reqs[v].wdf == Cancelling
        ensures Tracked(Invalidate(s), v) || s.reqs[v].wdf == Cancelling
      {
        assert Tracked(s, v) || s.reqs[v].wdf == Cancelling;
      }
    }
  }

  /** Aborting the first request keeps the invariant exactly when that request is not one
      whose cancel callback is still to come although its flag is already cleared. */
  lemma {:induction false} AbortOneInv(s: Vusb)
    requires Inv(s) && s.invalid && s.head != [] && s.head[0] < |s.reqs|
    ensures Inv(AbortOne(s)) <==> !Orphan(s.reqs[s.head[0]])
  {
    var u := s.head[0];
    assert u in s.head;
    var t := AbortOne(s);
    assert ReqInv(s, u);
    var m := Unmark(s.(head := Without(s.head, u), pending := Without(s.pending, u), sent := Without(s.sent, u)), u);
    CompletedIsDone(m, u, NotConnected);
    if Orphan(s.reqs[u]) {
      assert !ReqInv(t, u);
    } else {
      assert TakenOff(s, t, u, t.reqs[u]);
      UnmarkedReqInv(s, t, u);
      TakenOffInv(s, t, u, t.reqs[u]);
    }
  }
}
