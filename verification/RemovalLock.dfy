/** The stub driver's removal lock: a reference count biased by one, a flag that removal is
    pending, and an event that stays set. Any number of threads take and release the lock while
    one of them, holding it, removes the device. Each step is one interlocked operation or one
    access to the flag or the event. */
module RemovalLock {
  type Thread = nat

  /** How far the removing thread is; a bool tells that it has still to set the event. */
  datatype Remover = Absent | Marked | OwnGone(signal: bool) | BiasGone(signal: bool) | Through

  /** Threads between the increment and the look at the flag are entering; those that saw it set
      are backing out; those whose decrement reached zero have still to set the event. */
  datatype Lock = Lock(
    count: int,
    pending: bool,
    event: bool,
    entering: set<Thread>,
    holding: set<Thread>,
    backing: set<Thread>,
    signalling: set<Thread>,
    remover: Remover)

  /** init_dev_removal_lock. */
  const Init := Lock(1, false, false, {}, {}, {}, {}, Absent)

  datatype Step =
    | Enter(t: Thread)
    | Look(t: Thread)
    | BackOut(t: Thread)
    | Release(t: Thread)
    | Signal(t: Thread)
    | Mark(t: Thread)
    | ReleaseOwn
    | ReleaseBias
    | RemoverSignal
    | Wait

  predicate Active(s: Lock, t: Thread) {
    t in s.entering || t in s.holding || t in s.backing || t in s.signalling
  }

  predicate Enabled(s: Lock, e: Step) {
    match e
    case Enter(t) => !Active(s, t)
    case Look(t) => t in s.entering
    case BackOut(t) => t in s.backing
    case Release(t) => t in s.holding
    case Signal(t) => t in s.signalling
    case Mark(t) => t in s.holding && s.remover.Absent?
    case ReleaseOwn => s.remover.Marked?
    case ReleaseBias => s.remover == OwnGone(false)
    case RemoverSignal => s.remover == OwnGone(true) || s.remover == BiasGone(true)
    case Wait => s.remover == BiasGone(false) && s.event
  }

  function Next(s: Lock, e: Step): Lock
    requires Enabled(s, e)
  {
    match e
    case Enter(t) =>
      s.(count := s.count + 1, entering := s.entering + {t})
    case Look(t) =>
      if s.pending then s.(entering := s.entering - {t}, backing := s.backing + {t})
      else s.(entering := s.entering - {t}, holding := s.holding + {t})
    case BackOut(t) =>
      s.(count := s.count - 1, backing := s.backing - {t},
         signalling := if s.count == 1 then s.signalling + {t} else s.signalling)
    case Release(t) =>
      s.(count := s.count - 1, holding := s.holding - {t},
         signalling := if s.count == 1 then s.signalling + {t} else s.signalling)
    case Signal(t) =>
      s.(event := true, signalling := s.signalling - {t})
    case Mark(t) =>
      s.(pending := true, holding := s.holding - {t}, remover := Marked)
    case ReleaseOwn =>
      s.(count := s.count - 1, remover := OwnGone(s.count == 1))
    case ReleaseBias =>
      s.(count := s.count - 1, remover := BiasGone(s.count == 1))
    case RemoverSignal =>
      s.(event := true, remover := if s.remover.OwnGone? then OwnGone(false) else BiasGone(false))
    case Wait =>
      s.(remover := Through)
  }

  predicate Run(s: Lock, es: seq<Step>)
    decreases |es|
  {
    es == [] || (Enabled(s, es[0]) && Run(Next(s, es[0]), es[1..]))
  }

  function After(s: Lock, es: seq<Step>): Lock
    requires Run(s, es)
    decreases |es|
  {
    if es == [] then s else After(Next(s, es[0]), es[1..])
  }

  // ---------------------------------------------------------------------------
  // The invariant
  // ---------------------------------------------------------------------------

  /** The initial reference, and the one the removing thread took before it marked the lock. */
  function Bias(s: Lock): nat {
    if s.remover.BiasGone? || s.remover.Through? then 0 else 1
  }

  function Own(s: Lock): nat {
    if s.remover.Marked? then 1 else 0
  }

  /** Somebody has set the event or is about to. */
  predicate Announced(s: Lock) {
    s.event || s.signalling != {} || s.remover == OwnGone(true) || s.remover == BiasGone(true)
  }

  predicate Disjoint(s: Lock) {
    && s.entering !! s.holding && s.entering !! s.backing && s.entering !! s.signalling
    && s.holding !! s.backing && s.holding !! s.signalling && s.backing !! s.signalling
  }

  /** The count is the bias, the removing thread's own reference, and one for each thread inside;
      zero is announced only once the bias and all holders are gone, and then it is. */
  predicate Inv(s: Lock) {
    && Disjoint(s)
    && s.count == Bias(s) + Own(s) + |s.entering| + |s.holding| + |s.backing|
    && (s.pending <==> !s.remover.Absent?)
    && (s.backing != {} ==> s.pending)
    && (Announced(s) ==> Bias(s) == 0 && s.holding == {})
    && (Bias(s) == 0 && s.count == 0 ==> Announced(s))
    && (s.remover.Through? ==> s.event)
  }

  lemma {:induction false} EnterInv(s: Lock, t: Thread)
    requires Inv(s) && Enabled(s, Enter(t))
    ensures Inv(Next(s, Enter(t)))
  {
    OneMore(s.entering, t);
  }

  lemma {:induction false} LookInv(s: Lock, t: Thread)
    requires Inv(s) && Enabled(s, Look(t))
    ensures Inv(Next(s, Look(t)))
  {
    OneLess(s.entering, t);
    OneMore(if s.pending then s.backing else s.holding, t);
  }

  lemma {:induction false} BackOutInv(s: Lock, t: Thread)
    requires Inv(s) && Enabled(s, BackOut(t))
    ensures Inv(Next(s, BackOut(t)))
  {
    OneLess(s.backing, t);
  }

  lemma {:induction false} ReleaseInv(s: Lock, t: Thread)
    requires Inv(s) && Enabled(s, Release(t))
    ensures Inv(Next(s, Release(t)))
  {
    OneLess(s.holding, t);
  }

  lemma {:induction false} MarkInv(s: Lock, t: Thread)
    requires Inv(s) && Enabled(s, Mark(t))
    ensures Inv(Next(s, Mark(t)))
  {
    OneLess(s.holding, t);
  }

  /** The other steps move no thread that counts. */
  lemma {:induction false} OtherInv(s: Lock, e: Step)
    requires Inv(s) && Enabled(s, e)
    requires e.Signal? || e.ReleaseOwn? || e.ReleaseBias? || e.RemoverSignal? || e.Wait?
    ensures Inv(Next(s, e))
  {
  }

  lemma {:induction false} StepInv(s: Lock, e: Step)
    requires Inv(s) && Enabled(s, e)
    ensures Inv(Next(s, e))
  {
    hide Inv, Next;
    match e
    case Enter(t) => EnterInv(s, t);
    case Look(t) => LookInv(s, t);
    case BackOut(t) => BackOutInv(s, t);
    case Release(t) => ReleaseInv(s, t);
    case Mark(t) => MarkInv(s, t);
    case _ => OtherInv(s, e);
  }

  /** What the removing thread t needs of the invariant. */
  lemma {:induction false} InvTells(s: Lock, t: Thread)
    requires Inv(s)
    ensures (s.pending <==> !s.remover.Absent?) && (s.remover.Marked? ==> 1 < s.count)
    ensures s.remover.Through? ==> s.event && s.holding == {} && s.count == |s.entering| + |s.backing|
    ensures t in s.holding ==> t !in s.entering && t !in s.backing && t !in s.signalling
  {
  }

  lemma {:induction false} RunInv(s: Lock, es: seq<Step>)
    requires Inv(s) && Run(s, es)
    ensures Inv(After(s, es))
    decreases |es|
  {
    if es != [] {
      StepInv(s, es[0]);
      RunInv(Next(s, es[0]), es[1..]);
    }
  }

  // ---------------------------------------------------------------------------
  // Safety
  // ---------------------------------------------------------------------------

  /** Once removal is pending, no thread comes to hold the lock. */
  lemma {:induction false} HoldersOnlyLeave(s: Lock, es: seq<Step>)
    requires s.pending && Run(s, es)
    ensures After(s, es).pending && After(s, es).holding <= s.holding
    decreases |es|
  {
    if es != [] {
      HoldersOnlyLeave(Next(s, es[0]), es[1..]);
    }
  }

  /** When the removing thread gets past its wait, nobody holds the lock, and nobody ever will,
      whatever the other threads do before and after. */
  lemma {:induction false} AloneAfterWait(before: seq<Step>, after: seq<Step>)
    requires Run(Init, before) && After(Init, before).remover.Through?
    requires Run(After(Init, before), after)
    ensures After(Init, before).holding == {}
    ensures After(After(Init, before), after).holding == {}
  {
    RunInv(Init, before);
    HoldersOnlyLeave(After(Init, before), after);
  }

  /** The removing thread's first release never reaches zero, so it never sets the event. */
  lemma {:induction false} FirstReleaseNeverLast(es: seq<Step>)
    requires Run(Init, es) && After(Init, es).remover.OwnGone?
    ensures After(Init, es).count >= 1 && After(Init, es).remover == OwnGone(false)
  {
    RunInv(Init, es);
  }

  // ---------------------------------------------------------------------------
  // Progress
  // ---------------------------------------------------------------------------

  /** The steps the threads inside have left before the event must be set, if no thread enters
      any more. */
  function Left(s: Lock): nat {
    LeftInside(s.entering, s.holding, s.backing, s.signalling) + LeftOfRemover(s.remover)
  }

  function LeftInside(entering: set<Thread>, holding: set<Thread>, backing: set<Thread>, signalling: set<Thread>): nat {
    3 * |entering| + 2 * |holding| + 2 * |backing| + |signalling|
  }

  function LeftOfRemover(r: Remover): nat {
    match r
    case Absent => 0
    case Marked => 5
    case OwnGone(signal) => if signal then 4 else 3
    case BiasGone(signal) => if signal then 2 else 1
    case Through => 0
  }

  lemma {:induction false} StepUsesUp(s: Lock, e: Step)
    requires Inv(s) && s.pending && Enabled(s, e) && !e.Enter?
    ensures Next(s, e).pending && Left(Next(s, e)) < Left(s)
  {
    hide Inv, LeftInside;
    InvTells(s, 0);
    match e
    case Look(t) => LookUsesUp(s.entering, s.holding, s.backing, s.signalling, t);
    case BackOut(t) => LeaveUsesUp(s.entering, s.holding, s.backing, s.signalling, t);
    case Release(t) => LeaveUsesUp(s.entering, s.holding, s.backing, s.signalling, t);
    case Signal(t) => SignalUsesUp(s.entering, s.holding, s.backing, s.signalling, t);
    case Mark(t) =>
    case ReleaseOwn =>
    case ReleaseBias =>
    case RemoverSignal =>
    case Wait =>
  }

  lemma {:induction false} LookUsesUp(e: set<Thread>, h: set<Thread>, b: set<Thread>, s: set<Thread>, t: Thread)
    requires t in e
    ensures LeftInside(e - {t}, h, b + {t}, s) < LeftInside(e, h, b, s)
  {
    OneLess(e, t);
    OneMore(b, t);
  }

  lemma {:induction false} LeaveUsesUp(e: set<Thread>, h: set<Thread>, b: set<Thread>, s: set<Thread>, t: Thread)
    ensures t in b ==> LeftInside(e, h, b - {t}, s + {t}) < LeftInside(e, h, b, s)
    ensures t in b ==> LeftInside(e, h, b - {t}, s) < LeftInside(e, h, b, s)
    ensures t in h ==> LeftInside(e, h - {t}, b, s + {t}) < LeftInside(e, h, b, s)
    ensures t in h ==> LeftInside(e, h - {t}, b, s) < LeftInside(e, h, b, s)
  {
    if t in b {
      OneLess(b, t);
    }
    if t in h {
      OneLess(h, t);
    }
    OneMore(s, t);
  }

  lemma {:induction false} SignalUsesUp(e: set<Thread>, h: set<Thread>, b: set<Thread>, s: set<Thread>, t: Thread)
    requires t in s
    ensures LeftInside(e, h, b, s - {t}) < LeftInside(e, h, b, s)
  {
    OneLess(s, t);
  }

  lemma {:induction false} OneLess(ts: set<Thread>, t: Thread)
    requires t in ts
    ensures |ts - {t}| == |ts| - 1
  {
  }

  lemma {:induction false} OneMore(ts: set<Thread>, t: Thread)
    ensures |ts + {t}| <= |ts| + 1
  {
    if t in ts {
      assert ts + {t} == ts;
    }
  }

  /** Something can be done as long as the removing thread is not through. */
  lemma {:induction false} NeverStuck(s: Lock)
    requires Inv(s) && s.pending && !s.remover.Through?
    ensures exists e :: Enabled(s, e) && !e.Enter?
  {
    if t :| t in s.entering {
      assert Enabled(s, Look(t));
    } else if t :| t in s.holding {
      assert Enabled(s, Release(t));
    } else if t :| t in s.backing {
      assert Enabled(s, BackOut(t));
    } else if t :| t in s.signalling {
      assert Enabled(s, Signal(t));
    } else {
      match s.remover
      case Marked => assert Enabled(s, ReleaseOwn);
      case OwnGone(signal) => assert Enabled(s, if signal then RemoverSignal else ReleaseBias);
      case BiasGone(signal) => assert Enabled(s, if signal then RemoverSignal else Wait);
    }
  }

  /** How many threads enter during a run. */
  function Entries(es: seq<Step>): nat {
    if es == [] then 0 else (if es[0].Enter? then 1 else 0) + Entries(es[1..])
  }

  lemma {:induction false} EnterAddsThree(s: Lock, t: Thread)
    requires Enabled(s, Enter(t))
    ensures Left(Next(s, Enter(t))) <= Left(s) + 3
  {
    OneMore(s.entering, t);
  }

  /** A run is as short as what was left to do, and four steps for each entry. */
  lemma {:induction false} RunsOut(s: Lock, es: seq<Step>)
    requires Inv(s) && s.pending && Run(s, es)
    ensures |es| + Left(After(s, es)) <= Left(s) + 4 * Entries(es)
    decreases |es|
  {
    hide Inv, Left, Next, Enabled;
    if es != [] {
      StaysPending(s, es[0]);
      StepInv(s, es[0]);
      if es[0].Enter? {
        EnterAddsThree(s, es[0].t);
      } else {
        StepUsesUp(s, es[0]);
      }
      RunsOut(Next(s, es[0]), es[1..]);
    }
  }

  lemma {:induction false} StaysPending(s: Lock, e: Step)
    requires s.pending && Enabled(s, e)
    ensures Next(s, e).pending
  {
  }

  /** The event is set exactly when it has to be: with the bias and all threads inside gone and
      nobody left to set it, it is set; and it is not set while there is a bias or a holder. */
  lemma {:induction false} EventWhenEmpty(es: seq<Step>)
    requires Run(Init, es)
    ensures var s := After(Init, es);
      && (Bias(s) == 0 && s.entering == s.holding == s.backing == s.signalling == {} && s.remover != BiasGone(true)
          ==> s.event)
      && (s.event ==> Bias(s) == 0 && s.holding == {})
  {
    RunInv(Init, es);
  }

  /** Removal completes: a run from a state with removal pending has at most Left steps and four
      for each thread that enters during it; and when no thread inside can take a step any more,
      the removing thread is through. */
  lemma {:induction false} RemovalCompletes(s: Lock, es: seq<Step>)
    requires Inv(s) && s.pending && Run(s, es)
    ensures |es| <= Left(s) + 4 * Entries(es)
    ensures (forall e :: Enabled(After(s, es), e) ==> e.Enter?) ==> After(s, es).remover.Through?
  {
    RunInv(s, es);
    RunsOut(s, es);
    HoldersOnlyLeave(s, es);
    if !After(s, es).remover.Through? {
      NeverStuck(After(s, es));
    }
  }

  // ---------------------------------------------------------------------------
  // The driver's code
  // ---------------------------------------------------------------------------

  /** The step is taken by thread t, which is the removing thread or not. */
  predicate By(e: Step, t: Thread, removing: bool) {
    match e
    case Enter(x) => x == t
    case Look(x) => x == t
    case BackOut(x) => x == t
    case Release(x) => x == t
    case Signal(x) => x == t
    case Mark(x) => x == t
    case _ => removing
  }

  /** What the other threads make of the lock when each of the steps is taken that is another
      thread's and possible. */
  function Interleave(s: Lock, t: Thread, removing: bool, es: seq<Step>): Lock
    decreases |es|
  {
    if es == [] then s
    else Interleave(if !By(es[0], t, removing) && Enabled(s, es[0]) then Next(s, es[0]) else s, t, removing, es[1..])
  }

  /** Where thread t is. */
  predicate SameThread(s: Lock, s': Lock, t: Thread) {
    && (t in s.entering <==> t in s'.entering) && (t in s.holding <==> t in s'.holding)
    && (t in s.backing <==> t in s'.backing) && (t in s.signalling <==> t in s'.signalling)
  }

  /** Whatever the other threads do, they keep the invariant, leave a thread where it is, and
      never take back the flag or the event. */
  lemma {:induction false} OthersKeep(s: Lock, t: Thread, removing: bool, es: seq<Step>)
    requires Inv(s)
    ensures var r := Interleave(s, t, removing, es);
      && Inv(r) && SameThread(s, r, t) && (removing ==> r.remover == s.remover || s.remover.Absent?)
      && (s.pending ==> r.pending) && (s.event ==> r.event)
    decreases |es|
  {
    hide Inv;
    if es != [] {
      var m := if !By(es[0], t, removing) && Enabled(s, es[0]) then Next(s, es[0]) else s;
      if !By(es[0], t, removing) && Enabled(s, es[0]) {
        StepInv(s, es[0]);
        AnotherStep(s, es[0], t, removing);
      }
      OthersKeep(m, t, removing, es[1..]);
    }
  }

  lemma {:induction false} AnotherStep(s: Lock, e: Step, t: Thread, removing: bool)
    requires Enabled(s, e) && !By(e, t, removing)
    ensures var r := Next(s, e);
      && SameThread(s, r, t) && (removing && !s.remover.Absent? ==> r.remover == s.remover)
      && (s.pending ==> r.pending) && (s.event ==> r.event)
  {
  }

  /** The lock. The sets are not the driver's: they say where the threads are. Between any two
      atomic actions of a thread the others take the steps it is given for them. */
  class DevRemovalLock {
    var count: int
    var removePending: bool
    var event: bool
    var entering: set<Thread>
    var holding: set<Thread>
    var backing: set<Thread>
    var signalling: set<Thread>
    var remover: Remover

    function State(): Lock
      reads this
    {
      Lock(count, removePending, event, entering, holding, backing, signalling, remover)
    }

    constructor ()
      ensures State() == Init && Inv(State())
    {
      event, count, removePending := false, 1, false;
      entering, holding, backing, signalling, remover := {}, {}, {}, {}, Absent;
    }

    /** Steps of other threads. */
    method Others(t: Thread, removing: bool, es: seq<Step>)
      requires Inv(State())
      modifies this
      ensures var was := old(State());
        && Inv(State()) && SameThread(was, State(), t)
        && (removing && !was.remover.Absent? ==> remover == was.remover)
        && (was.pending ==> removePending) && (was.event ==> event)
    {
      hide Inv, Next, Enabled, SameThread, By;
      OthersKeep(State(), t, removing, es);
      for i := 0 to |es|
        invariant Interleave(State(), t, removing, es[i..]) == Interleave(old(State()), t, removing, es)
      {
        assert es[i..][1..] == es[i + 1..];
        if !By(es[i], t, removing) && Enabled(State(), es[i]) {
          var s := Next(State(), es[i]);
          count, removePending, event := s.count, s.pending, s.event;
          entering, holding, backing, signalling, remover := s.entering, s.holding, s.backing, s.signalling, s.remover;
        }
      }
    }

    method LockIncrement(t: Thread)
      requires Enabled(State(), Enter(t))
      modifies this
      ensures State() == Next(old(State()), Enter(t))
    {
      count := count + 1;
      entering := entering + {t};
    }

    /** The look at the flag: false means that the count is to be given back. */
    method LockCheck(t: Thread) returns (ok: bool)
      requires Enabled(State(), Look(t))
      modifies this
      ensures State() == Next(old(State()), Look(t)) && ok == !removePending
    {
      entering := entering - {t};
      if removePending {
        backing := backing + {t};
        return false;
      }
      holding := holding + {t};
      return true;
    }

    /** The decrement of a thread that backs out or releases; true means that it has to set the
        event. */
    method Decrement(t: Thread) returns (last: bool)
      requires t in backing || (t in holding && t !in backing)
      modifies this
      ensures State() == Next(old(State()), if old(t in backing) then BackOut(t) else Release(t))
      ensures last == (count == 0)
    {
      count := count - 1;
      last := count == 0;
      if t in backing {
        backing := backing - {t};
      } else {
        holding := holding - {t};
      }
      signalling := if last then signalling + {t} else signalling;
    }

    method SetEvent(t: Thread)
      requires Enabled(State(), Signal(t))
      modifies this
      ensures State() == Next(old(State()), Signal(t))
    {
      event := true;
      signalling := signalling - {t};
    }

    /** lock_dev_removal. A thread that gets the lock holds it while the event is not set; one
        that does not has given back what it took, and removal is pending. */
    method LockDevRemoval(t: Thread, o1: seq<Step>, o2: seq<Step>, o3: seq<Step>) returns (ok: bool)
      requires Inv(State()) && !Active(State(), t)
      modifies this
      ensures Inv(State())
      ensures if ok then t in holding && !event else !Active(State(), t) && removePending
    {
      StepInv(State(), Enter(t));
      LockIncrement(t);
      Others(t, false, o1);
      StepInv(State(), Look(t));
      ok := LockCheck(t);
      if !ok {
        Others(t, false, o2);
        UnlockDevRemoval(t, o3);
      }
    }

    /** unlock_dev_removal, and how lock_dev_removal backs out: the thread is gone, and if it was
        the last the event is set. */
    method UnlockDevRemoval(t: Thread, others: seq<Step>)
      requires Inv(State()) && (t in holding || t in backing)
      modifies this
      ensures Inv(State()) && !Active(State(), t) && (old(removePending) ==> removePending)
      ensures old(count) == 1 ==> event
    {
      StepInv(State(), if t in backing then BackOut(t) else Release(t));
      var last := Decrement(t);
      if last {
        Others(t, false, others);
        StepInv(State(), Signal(t));
        SetEvent(t);
      }
    }

    method SetPending(t: Thread)
      requires Enabled(State(), Mark(t))
      modifies this
      ensures State() == Next(old(State()), Mark(t))
    {
      removePending := true;
      holding, remover := holding - {t}, Marked;
    }

    /** One of the two releases of unlock_wait_dev_removal. */
    method RemoverDecrement() returns (last: bool)
      requires Enabled(State(), ReleaseOwn) || Enabled(State(), ReleaseBias)
      modifies this
      ensures State() == Next(old(State()), if old(remover.Marked?) then ReleaseOwn else ReleaseBias)
      ensures last <==> remover == OwnGone(true) || remover == BiasGone(true)
    {
      count := count - 1;
      last := count == 0;
      remover := if remover.Marked? then OwnGone(last) else BiasGone(last);
    }

    method RemoverSetEvent()
      requires Enabled(State(), RemoverSignal)
      modifies this
      ensures State() == Next(old(State()), RemoverSignal)
    {
      event := true;
      remover := if remover.OwnGone? then OwnGone(false) else BiasGone(false);
    }

    /** The wait, which ends once the event is set. */
    method WaitForEvent() returns (passed: bool)
      requires remover == BiasGone(false)
      modifies this
      ensures passed <==> old(event)
      ensures State() == if passed then Next(old(State()), Wait) else old(State())
    {
      passed := event;
      if passed {
        remover := Through;
      }
    }

    /** unlock_wait_dev_removal, up to a look at the event: once that is set the removing thread
        is through and nobody holds the lock; else it waits on. */
    method UnlockWaitDevRemoval(t: Thread, o1: seq<Step>, o2: seq<Step>, o3: seq<Step>, o4: seq<Step>)
      returns (passed: bool)
      requires Inv(State()) && t in holding && remover.Absent?
      modifies this
      ensures Inv(State()) && removePending && !Active(State(), t)
      ensures if passed then remover.Through? && holding == {} && count == |entering| + |backing|
              else remover == BiasGone(false) && !event
    {
      hide Inv;
      InvTells(State(), t);
      StepInv(State(), Mark(t));
      SetPending(t);
      Others(t, true, o1);
      StepInv(State(), ReleaseOwn);
      InvTells(State(), t);
      var last := RemoverDecrement();
      assert !last;
      Others(t, true, o2);
      StepInv(State(), ReleaseBias);
      last := RemoverDecrement();
      passed := LeaveBehind(t, last, o3, o4);
    }

    /** The rest of unlock_wait_dev_removal, after the bias is gone. */
    method LeaveBehind(t: Thread, last: bool, o3: seq<Step>, o4: seq<Step>) returns (passed: bool)
      requires Inv(State()) && remover == BiasGone(last) && !Active(State(), t)
      modifies this
      ensures Inv(State()) && removePending && !Active(State(), t)
      ensures if passed then remover.Through? && holding == {} && count == |entering| + |backing|
              else remover == BiasGone(false) && !event
    {
      hide Inv;
      if last {
        Others(t, true, o3);
        StepInv(State(), RemoverSignal);
        RemoverSetEvent();
      }
      Others(t, true, o4);
      passed := WaitForEvent();
      if passed {
        ghost var s := State().(remover := BiasGone(false));
        StepInv(s, Wait);
      }
      InvTells(State(), t);
    }
  }
}
