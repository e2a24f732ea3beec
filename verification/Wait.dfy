/** A thread that blocks until signals are due: it looks, registers a watch, looks again and
    parks, and every callback wakes it to look once more. Every interleaving with pipe
    operations, with other clients of the same endpoints and with the deadline. */
module Wait {
  import opened Results
  import opened CoreErrors
  import opened Signals
  import opened Watching

  type Outcome = Result<SignalsState, CoreError>

  /** Where the thread is in its loop. */
  datatype Phase =
    | Looking
    | Registering
    | Registered(watch: nat)
    | Rechecked(watch: nat)
    | Parked(watch: nat)
    | Roused(watch: nat)
    | Unwatching(watch: nat)
    | Leaving(watch: nat, result: Outcome)
    | Done(result: Outcome)
  {
    predicate HasWatch() {
      !Looking? && !Registering? && !Done?
    }
  }

  /** The waiter `me` on endpoint `end`; `notices` counts callbacks that have set `woken` but not
      yet notified the parked thread. */
  datatype System = System(
    world: World,
    me: nat,
    end: nat,
    signals: set<Signal>,
    phase: Phase,
    woken: bool,
    notices: nat)
  {
    ghost predicate OnEnd() {
      end < |world.ends|
    }

    function State(): SignalsState
      requires OnEnd()
    {
      world.ends[end].State()
    }
  }

  datatype Step =
    | PipeOperation(after: seq<Watched>, fired: seq<Firing>)
    | OtherWatch(e: nat, watch: set<Signal>, callback: nat)
    | OtherUnwatch(e: nat, id: nat)
    | OtherCall(f: Firing)
    | Look(late: bool)
    | Register
    | Recheck
    | Park(late: bool)
    | Wake(f: Firing)
    | Notify
    | Rouse
    | Resume(late: bool)
    | Unwatch

  /** What a look at the signals decides, if anything. */
  function Verdict(state: SignalsState, signals: set<Signal>): Option<Outcome> {
    if state.IsSatisfied(signals) then Some(Ok(state))
    else if state.IsUnsatisfiable(signals) then Some(Err(FailedPrecondition))
    else None
  }

  /** When a step can be taken. A closed end, which drops watches, is waited on only for signals
      that are due for good. */
  ghost predicate Enabled(s: System, step: Step)
    requires s.OnEnd()
  {
    match step
    case PipeOperation(after, fired) => CanOperate(s.world, after, fired)
    case OtherWatch(e, _, callback) => e < |s.world.ends| && callback != s.me
    case OtherUnwatch(e, id) => e < |s.world.ends| && (s.phase.HasWatch() ==> id != s.phase.watch)
    case OtherCall(f) => f in s.world.pending && f.callback != s.me
    case Look(_) => s.phase.Looking?
    case Register => s.phase.Registering?
      && (s.world.ends[s.end].closed ==> DueForever(s.world.ends[s.end].facts, s.signals))
    case Recheck => s.phase.Registered?
    case Park(_) => s.phase.Rechecked?
    case Wake(f) => f in s.world.pending && f.callback == s.me
    case Notify => s.notices > 0
    case Rouse => s.phase.Parked?
    case Resume(_) => s.phase.Roused?
    case Unwatch => s.phase.Unwatching? || s.phase.Leaving?
  }

  const LATE: Outcome := Err(DeadlineExceeded)

  function Apply(s: System, step: Step): System
    requires s.OnEnd() && Enabled(s, step)
  {
    match step
    case PipeOperation(after, fired) => s.(world := Operate(s.world, after, fired))
    case OtherWatch(e, signals, callback) => s.(world := StartWatch(s.world, e, signals, callback))
    case OtherUnwatch(e, id) => s.(world := CancelWatch(s.world, e, id))
    case OtherCall(f) => s.(world := Called(s.world, f))
    case Look(late) =>
      s.(phase := match Verdict(s.State(), s.signals)
        case Some(r) => Done(r)
        case None => if late then Done(LATE) else Registering)
    case Register => s.(world := StartWatch(s.world, s.end, s.signals, s.me), phase := Registered(s.world.nextWatch))
    case Recheck =>
      s.(phase := match Verdict(s.State(), s.signals)
        case Some(r) => Leaving(s.phase.watch, r)
        case None => Rechecked(s.phase.watch))
    case Park(late) =>
      if s.woken then s.(phase := Unwatching(s.phase.watch), woken := false)
      else s.(phase := if late then Leaving(s.phase.watch, LATE) else Parked(s.phase.watch))
    case Wake(f) => s.(world := Called(s.world, f), woken := true, notices := s.notices + 1)
    case Notify => s.(notices := s.notices - 1, phase := if s.phase.Parked? then Roused(s.phase.watch) else s.phase)
    case Rouse => s.(phase := Roused(s.phase.watch))
    case Resume(late) =>
      if late && !s.woken then s.(phase := Leaving(s.phase.watch, LATE))
      else s.(phase := Unwatching(s.phase.watch), woken := false)
    case Unwatch =>
      s.(world := CancelWatch(s.world, s.end, s.phase.watch),
         phase := if s.phase.Leaving? then Done(s.phase.result) else Looking)
  }

  // ---------------------------------------------------------------- the invariant

  /** From the re-check on, a thread that has not been woken is owed a callback if its signals
      are due; once parked, being woken means being about to be notified. */
  ghost predicate Wakeable(s: System)
    requires s.OnEnd()
  {
    && (s.phase.Registered? ==> s.woken || Covered(s.world, s.end, s.phase.watch, s.signals, s.me))
    && (s.phase.Rechecked? || s.phase.Parked? ==>
          s.woken || (Covered(s.world, s.end, s.phase.watch, s.signals, s.me) && Owed(s.world, s.end, s.signals, s.me)))
    && (s.phase.Parked? && s.woken ==> s.notices > 0)
  }

  /** Ids name watches, and the only live watch of this waiter is the one its phase holds. */
  ghost predicate NoStray(s: System) {
    forall e :: 0 <= e < |s.world.ends| ==> EndTidy(s, e, s.world.ends[e].watchers)
  }

  ghost predicate EndTidy(s: System, e: nat, ws: seq<Watcher>) {
    && (forall i, j :: 0 <= i < j < |ws| ==> ws[i].id != ws[j].id)
    && (forall w :: w in ws ==> w.id < s.world.nextWatch)
    && (forall w :: w in ws && w.callback == s.me && !w.cancelled ==>
          s.phase.HasWatch() && w.id == s.phase.watch && e == s.end)
  }

  ghost predicate Truthful(s: System) {
    s.phase.Leaving? || s.phase.Done? ==>
      match s.phase.result
      case Ok(state) => state.IsSatisfied(s.signals)
      case Err(e) => e == FailedPrecondition || e == DeadlineExceeded
  }

  ghost predicate Inv(s: System) {
    && AllSilent(s.world) && s.OnEnd() && Wakeable(s) && NoStray(s) && Truthful(s)
    && (s.phase.HasWatch() ==> s.phase.watch < s.world.nextWatch)
  }

  // ---------------------------------------------------------------- each step keeps it

  lemma OperateTidy(s: System, after: seq<Watched>, fired: seq<Firing>)
    requires NoStray(s) && CanOperate(s.world, after, fired)
    ensures NoStray(s.(world := Operate(s.world, after, fired)))
  {
    hide Notified, Cancellations;
    forall e | 0 <= e < |after| ensures EndTidy(s.(world := Operate(s.world, after, fired)), e, after[e].watchers) {
      assert Lawful(s.world.ends[e], after[e], fired) && EndTidy(s, e, s.world.ends[e].watchers);
    }
  }

  lemma KeepOperate(s: System, after: seq<Watched>, fired: seq<Firing>)
    requires Inv(s) && CanOperate(s.world, after, fired)
    ensures Inv(s.(world := Operate(s.world, after, fired)))
  {
    hide Covered, Owed, Lawful, NoStray, AllSilent;
    OperateSilent(s.world, after, fired);
    OperateTidy(s, after, fired);
    if (s.phase.Registered? || s.phase.Rechecked? || s.phase.Parked?) && !s.woken {
      OperateKeeps(s.world, after, fired, s.end, s.phase.watch, s.signals, s.me);
    }
  }

  lemma StartTidy(s: System, e: nat, signals: set<Signal>, callback: nat, phase: Phase)
    requires NoStray(s) && e < |s.world.ends|
    requires if callback == s.me then phase == Registered(s.world.nextWatch) && e == s.end && !s.phase.HasWatch()
      else phase == s.phase
    ensures NoStray(s.(world := StartWatch(s.world, e, signals, callback), phase := phase))
  {
    var s' := s.(world := StartWatch(s.world, e, signals, callback), phase := phase);
    forall k | 0 <= k < |s.world.ends| ensures EndTidy(s', k, s'.world.ends[k].watchers) {
      assert EndTidy(s, k, s.world.ends[k].watchers);
    }
  }

  lemma CancelTidy(s: System, e: nat, id: nat)
    requires NoStray(s) && e < |s.world.ends|
    ensures NoStray(s.(world := CancelWatch(s.world, e, id)))
    ensures s.phase.HasWatch() && s.phase.watch == id && e == s.end ==>
      forall phase: Phase | !phase.HasWatch() :: NoStray(s.(world := CancelWatch(s.world, e, id), phase := phase))
  {
    var w := CancelWatch(s.world, e, id);
    forall k | 0 <= k < |s.world.ends| ensures EndTidy(s.(world := w), k, w.ends[k].watchers) {
      assert EndTidy(s, k, s.world.ends[k].watchers);
    }
    if s.phase.HasWatch() && s.phase.watch == id && e == s.end {
      forall phase: Phase | !phase.HasWatch() ensures NoStray(s.(world := w, phase := phase)) {
        forall k | 0 <= k < |s.world.ends| ensures EndTidy(s.(world := w, phase := phase), k, w.ends[k].watchers) {
          assert EndTidy(s, k, s.world.ends[k].watchers);
        }
      }
    }
  }

  lemma KeepOthers(s: System, step: Step)
    requires Inv(s) && Enabled(s, step) && (step.OtherWatch? || step.OtherUnwatch? || step.OtherCall?)
    ensures Inv(Apply(s, step))
  {
    hide Covered, Owed, NoStray;
    var waiting := (s.phase.Registered? || s.phase.Rechecked? || s.phase.Parked?) && !s.woken;
    match step
    case OtherWatch(e, signals, callback) =>
      StartTidy(s, e, signals, callback, s.phase);
      if waiting { StartKeeps(s.world, e, signals, callback, s.end, s.phase.watch, s.signals, s.me); }
    case OtherUnwatch(e, id) =>
      CancelTidy(s, e, id);
      if waiting { CancelKeeps(s.world, e, id, s.end, s.phase.watch, s.signals, s.me); }
    case OtherCall(f) =>
      CalledTidy(s, f);
      if waiting { CalledKeeps(s.world, f, s.end, s.phase.watch, s.signals, s.me); }
  }

  lemma CalledTidy(s: System, f: Firing)
    requires NoStray(s)
    ensures NoStray(s.(world := Called(s.world, f)))
  {
    forall e | 0 <= e < |s.world.ends| ensures EndTidy(s.(world := Called(s.world, f)), e, s.world.ends[e].watchers) {
      assert EndTidy(s, e, s.world.ends[e].watchers);
    }
  }

  lemma KeepRegister(s: System)
    requires Inv(s) && Enabled(s, Register)
    ensures Inv(Apply(s, Register))
  {
    hide NoStray;
    StartTidy(s, s.end, s.signals, s.me, Registered(s.world.nextWatch));
  }

  /** Moving from one phase to another that holds the same watch, or between two that hold none. */
  lemma PhaseTidy(s: System, phase: Phase)
    requires NoStray(s) && phase.HasWatch() == s.phase.HasWatch() && (phase.HasWatch() ==> phase.watch == s.phase.watch)
    ensures forall woken, notices :: NoStray(s.(phase := phase, woken := woken, notices := notices))
  {
    forall woken, notices ensures NoStray(s.(phase := phase, woken := woken, notices := notices)) {
      forall e | 0 <= e < |s.world.ends|
        ensures EndTidy(s.(phase := phase, woken := woken, notices := notices), e, s.world.ends[e].watchers)
      {
        assert EndTidy(s, e, s.world.ends[e].watchers);
      }
    }
  }

  lemma KeepOwn(s: System, step: Step)
    requires Inv(s) && Enabled(s, step)
    requires step.Look? || step.Recheck? || step.Park? || step.Notify? || step.Rouse? || step.Resume?
    ensures Inv(Apply(s, step))
  {
    hide NoStray, Covered, Answered;
    PhaseTidy(s, Apply(s, step).phase);
  }

  lemma KeepWake(s: System, f: Firing)
    requires Inv(s) && Enabled(s, Wake(f))
    ensures Inv(Apply(s, Wake(f)))
  {
    hide NoStray, Covered, Owed;
    CalledTidy(s, f);
    PhaseTidy(s.(world := Called(s.world, f)), s.phase);
  }

  lemma KeepUnwatch(s: System)
    requires Inv(s) && Enabled(s, Unwatch)
    ensures Inv(Apply(s, Unwatch))
  {
    hide NoStray, Covered, Owed, CancelWatch, AllSilent;
    CancelTidy(s, s.end, s.phase.watch);
    CancelSilent(s.world, s.end, s.phase.watch);
  }

  lemma StepKeeps(s: System, step: Step)
    requires Inv(s) && Enabled(s, step)
    ensures Inv(Apply(s, step))
  {
    match step
    case PipeOperation(after, fired) => KeepOperate(s, after, fired);
    case OtherWatch(_, _, _) => KeepOthers(s, step);
    case OtherUnwatch(_, _) => KeepOthers(s, step);
    case OtherCall(_) => KeepOthers(s, step);
    case Register => KeepRegister(s);
    case Wake(f) => KeepWake(s, f);
    case Unwatch => KeepUnwatch(s);
    case _ => KeepOwn(s, step);
  }

  // ---------------------------------------------------------------- runs

  ghost predicate CanRun(s: System, steps: seq<Step>)
    decreases |steps|
  {
    |steps| == 0 || (s.OnEnd() && Enabled(s, steps[0]) && CanRun(Apply(s, steps[0]), steps[1..]))
  }

  function Run(s: System, steps: seq<Step>): System
    requires CanRun(s, steps)
    decreases |steps|
  {
    if |steps| == 0 then s else Run(Apply(s, steps[0]), steps[1..])
  }

  lemma {:induction false} RunKeeps(s: System, steps: seq<Step>)
    requires Inv(s) && CanRun(s, steps)
    ensures Inv(Run(s, steps))
    decreases |steps|
  {
    hide Inv, Enabled, Apply;
    if |steps| > 0 {
      StepKeeps(s, steps[0]);
      RunKeeps(Apply(s, steps[0]), steps[1..]);
    }
  }

  /** A call of `wait` on a waiter used before: `woken` may have been left set. */
  ghost predicate Fresh(s: System) {
    && s.phase.Looking? && s.OnEnd() && AllSilent(s.world)
    && forall e :: 0 <= e < |s.world.ends| ==> EndTidy(s, e, s.world.ends[e].watchers)
  }

  /** A parked thread never sleeps through a change: if it has not been woken and its signals are
      satisfied or can never be, a callback that will wake it is pending; if it has been woken,
      its notification is. */
  lemma ParkedIsWoken(s0: System, steps: seq<Step>)
    requires Fresh(s0) && CanRun(s0, steps)
    ensures var s := Run(s0, steps);
      s.OnEnd() && (s.phase.Parked? && !s.woken && s.State().Due(s.signals) ==> Answered(s.world, s.end, s.me))
    ensures Run(s0, steps).phase.Parked? && Run(s0, steps).woken ==> Run(s0, steps).notices > 0
  {
    RunKeeps(s0, steps);
  }

  /** A wait that ends leaves no watch behind, and says its signals are satisfied only with a
      state in which they are. */
  lemma WaitEndsClean(s0: System, steps: seq<Step>, e: nat, w: Watcher)
    requires Fresh(s0) && CanRun(s0, steps) && Run(s0, steps).phase.Done?
    requires e < |Run(s0, steps).world.ends| && w in Run(s0, steps).world.ends[e].watchers
    ensures w.callback == s0.me ==> w.cancelled
    ensures var r := Run(s0, steps).phase.result;
      if r.Ok? then r.value.IsSatisfied(s0.signals) else r.error == FailedPrecondition || r.error == DeadlineExceeded
  {
    RunKeeps(s0, steps);
    SameWait(s0, steps);
    var s := Run(s0, steps);
    assert EndTidy(s, e, s.world.ends[e].watchers);
  }

  // ---------------------------------------------------------------- what a wait ends with

  /** Why a step taken here ends the wait with this result: the state looked at satisfies the
      signals, or never can, or does neither when the deadline has passed. */
  ghost predicate Decides(s: System, step: Step, r: Outcome) {
    s.OnEnd() &&
    match r
    case Ok(state) => (step.Look? || step.Recheck?) && state == s.State() && s.signals <= state.satisfied
    case Err(e) =>
      if step.Look? || step.Recheck? then
        && !(s.signals <= s.State().satisfied)
        && (e == FailedPrecondition <==> !(s.signals <= s.State().satisfiable))
        && (e == DeadlineExceeded <==> s.signals <= s.State().satisfiable && step.Look? && step.late)
      else e == DeadlineExceeded && (step.Park? || step.Resume?) && step.late && !s.woken
  }

  ghost predicate Ended(phase: Phase, r: Outcome) {
    (phase.Leaving? || phase.Done?) && phase.result == r
  }

  lemma StepDecides(s: System, step: Step)
    requires s.OnEnd() && Enabled(s, step) && !s.phase.Leaving? && !s.phase.Done?
    ensures var after := Apply(s, step).phase;
      after.Leaving? || after.Done? ==> Decides(s, step, after.result)
  {
  }

  /** Every look at satisfied or unsatisfiable signals ends the wait. */
  lemma LookEnds(s: System, step: Step)
    requires s.OnEnd() && Enabled(s, step) && (step.Look? || step.Recheck?)
    ensures s.signals <= s.State().satisfied ==> Ended(Apply(s, step).phase, Ok(s.State()))
    ensures !(s.signals <= s.State().satisfied) && !(s.signals <= s.State().satisfiable) ==>
      Ended(Apply(s, step).phase, Err(FailedPrecondition))
  {
  }

  lemma {:induction false} ResultKept(s: System, steps: seq<Step>, r: Outcome)
    requires CanRun(s, steps) && Ended(s.phase, r)
    ensures Ended(Run(s, steps).phase, r)
    decreases |steps|
  {
    if |steps| > 0 { ResultKept(Apply(s, steps[0]), steps[1..], r); }
  }

  /** A wait that has ended did so at a step that decided it as it ended. */
  lemma {:induction false} EndDecided(s: System, steps: seq<Step>) returns (k: nat)
    requires CanRun(s, steps) && !s.phase.Leaving? && !s.phase.Done?
    requires Run(s, steps).phase.Leaving? || Run(s, steps).phase.Done?
    ensures k < |steps| && CanRun(s, steps[..k]) && Decides(Run(s, steps[..k]), steps[k], Run(s, steps).phase.result)
    decreases |steps|
  {
    hide Enabled, Apply, Decides;
    var s1 := Apply(s, steps[0]);
    StepDecides(s, steps[0]);
    if s1.phase.Leaving? || s1.phase.Done? {
      ResultKept(s1, steps[1..], s1.phase.result);
      k := 0;
      assert steps[..0] == [];
    } else {
      var j := EndDecided(s1, steps[1..]);
      k := j + 1;
      assert steps[..k][1..] == steps[1..][..j] && steps[..k][0] == steps[0];
    }
  }

  /** The waiter, its endpoint and its signals stay the same. */
  lemma {:induction false} SameWait(s: System, steps: seq<Step>)
    requires CanRun(s, steps)
    ensures Run(s, steps).me == s.me && Run(s, steps).end == s.end && Run(s, steps).signals == s.signals
    decreases |steps|
  {
    if |steps| > 0 {
      SameWait(Apply(s, steps[0]), steps[1..]);
    }
  }

  /** What registering comes to, allowed or not. */
  function Registers(s: System): System
    requires s.OnEnd()
  {
    s.(world := StartWatch(s.world, s.end, s.signals, s.me), phase := Registered(s.world.nextWatch))
  }

  /** Whatever happens from here on, a parked thread that has not been woken and whose signals are
      due has a callback pending that will wake it. */
  ghost predicate Guaranteed(s: System) {
    forall steps :: CanRun(s, steps) ==> !Stranded(Run(s, steps))
  }

  ghost predicate Stranded(s: System) {
    s.OnEnd() && s.phase.Parked? && !s.woken && s.State().Due(s.signals) && !Answered(s.world, s.end, s.me)
  }

  /** A thread about to register, not woken and with no callback of its own pending, is covered in
      every continuation exactly when its end is open or its signals are due for good. */
  lemma RegisterGuarantee(s: System)
    requires Inv(s) && s.phase.Registering? && !s.woken
    requires forall f :: f in s.world.pending ==> f.callback != s.me
    ensures Guaranteed(Registers(s)) <==>
      (s.world.ends[s.end].closed ==> DueForever(s.world.ends[s.end].facts, s.signals))
  {
    hide Enabled, Stranded, DueForever, Apply;
    if s.world.ends[s.end].closed && !DueForever(s.world.ends[s.end].facts, s.signals) {
      var steps := ClosedEndStrands(s);
      assert CanRun(Registers(s), steps);
    } else {
      RegisterKeeps(s);
      forall steps | CanRun(Registers(s), steps) ensures !Stranded(Run(Registers(s), steps)) {
        RunKeeps(Registers(s), steps);
        NotStranded(Run(Registers(s), steps));
      }
    }
  }

  lemma RegisterKeeps(s: System)
    requires Inv(s) && s.phase.Registering?
    requires s.world.ends[s.end].closed ==> DueForever(s.world.ends[s.end].facts, s.signals)
    ensures Inv(Registers(s))
  {
    hide NoStray, DueForever;
    KeepRegister(s);
    assert Apply(s, Register) == Registers(s);
  }

  lemma NotStranded(s: System)
    requires Inv(s)
    ensures !Stranded(s)
  {
  }

  /** Where registering is not allowed a wakeup can be lost: on a closed end the watch is dropped,
      and a thread that then finds its signals not due parks, and sleeps on when the peer's
      closing makes them due. */
  lemma ClosedEndStrands(s: System) returns (steps: seq<Step>)
    requires Inv(s) && s.phase.Registering? && s.world.ends[s.end].closed && !s.woken
    requires !DueForever(s.world.ends[s.end].facts, s.signals)
    requires forall f :: f in s.world.pending ==> f.callback != s.me
    ensures CanRun(Registers(s), steps) && Stranded(Run(Registers(s), steps))
  {
    hide SignalsState.Due, DueForever, MessageState, ConsumerState, ProducerState, NoStray, Lawful;
    var e, facts := s.end, s.world.ends[s.end].facts;
    DueForeverExact(facts, s.signals);
    assert s.world.ends[e].Silent();
    var s0 := Registers(s);
    var idle := ClosedChange(s0, Idle(facts));
    var s1 := Apply(s0, PipeOperation(idle, []));
    assert s1.State() == Watched(Idle(facts), true, []).State();
    Undecided(s1.State(), s.signals);
    var s2 := Apply(s1, Recheck);
    var s3 := Apply(s2, Park(false));
    var gone := ClosedChange(s3, PeerGone(Idle(facts)));
    DueForeverExact(Idle(facts), s.signals);
    var s4 := Apply(s3, PipeOperation(gone, []));
    assert s4.State() == Watched(PeerGone(Idle(facts)), true, []).State();
    assert s4.world.pending == s.world.pending;
    FourSteps(s0, PipeOperation(idle, []), Recheck, Park(false), PipeOperation(gone, []));
    steps := [PipeOperation(idle, []), Recheck, Park(false), PipeOperation(gone, [])];
  }

  /** A change of a closed end's facts, which collects nothing. */
  lemma ClosedChange(s: System, facts: Facts) returns (after: seq<Watched>)
    requires s.OnEnd() && s.world.ends[s.end].closed && s.world.ends[s.end].Silent()
    requires Later(s.world.ends[s.end].facts, facts)
    ensures after == s.world.ends[s.end := s.world.ends[s.end].(facts := facts)]
    ensures Enabled(s, PipeOperation(after, []))
  {
    hide Watched.State, CancelAll, Cancellations;
    after := s.world.ends[s.end := s.world.ends[s.end].(facts := facts)];
    forall k | 0 <= k < |after| ensures Lawful(s.world.ends[k], after[k], []) {
      if k != s.end { SameIsLawful(s.world.ends[k], []); }
    }
  }

  lemma FourSteps(s: System, a: Step, b: Step, c: Step, d: Step)
    requires s.OnEnd() && Enabled(s, a)
    requires var s1 := Apply(s, a); s1.OnEnd() && Enabled(s1, b)
    requires var s2 := Apply(Apply(s, a), b); s2.OnEnd() && Enabled(s2, c)
    requires var s3 := Apply(Apply(Apply(s, a), b), c); s3.OnEnd() && Enabled(s3, d)
    ensures CanRun(s, [a, b, c, d]) && Run(s, [a, b, c, d]) == Apply(Apply(Apply(Apply(s, a), b), c), d)
  {
    hide Enabled, Apply;
    var s1 := Apply(s, a);
    var s2 := Apply(s1, b);
    var s3 := Apply(s2, c);
    RunAfter(s3, d, []);
    RunAfter(s2, c, [d]);
    RunAfter(s1, b, [c, d]);
    RunAfter(s, a, [b, c, d]);
    assert [a, b, c, d] == [a] + [b, c, d] && [b, c, d] == [b] + [c, d] && [c, d] == [c] + [d] && [d] == [d] + [];
  }

  lemma PeerStillOpen(facts: Facts, signals: set<Signal>)
    requires !DueForever(facts, signals)
    ensures !facts.peerClosed
  {
  }

  /** Every closed end and every signals not due there for good are met with by a thread about to
      register, not woken and with nothing pending. */
  lemma StrandedReachable(facts: Facts, signals: set<Signal>) returns (s0: System, steps: seq<Step>)
    requires !DueForever(facts, signals)
    ensures Fresh(s0) && CanRun(s0, steps)
    ensures var s := Run(s0, steps);
      && Inv(s) && s.phase.Registering? && !s.woken && s.world.pending == multiset{} && s.signals == signals
      && s.world.ends[s.end].closed && s.world.ends[s.end].facts == facts
  {
    hide DueForever, SignalsState.Due, MessageState, ConsumerState, ProducerState, Lawful;
    s0 := System(World([Watched(Idle(facts), true, [])], multiset{}, 0), 0, 0, signals, Looking, false, 0);
    DueForeverExact(facts, signals);
    Undecided(s0.State(), signals);
    var s1 := Apply(s0, Look(false));
    assert !facts.peerClosed by { PeerStillOpen(facts, signals); }
    var after := ClosedChange(s1, facts);
    RunAfter(s1, PipeOperation(after, []), []);
    RunAfter(s0, Look(false), [PipeOperation(after, [])]);
    steps := [Look(false)] + [PipeOperation(after, [])];
    assert [PipeOperation(after, [])] + [] == [PipeOperation(after, [])];
    RunKeeps(s0, steps);
  }

  lemma RunAfter(s: System, step: Step, rest: seq<Step>)
    requires s.OnEnd() && Enabled(s, step) && CanRun(Apply(s, step), rest)
    ensures CanRun(s, [step] + rest) && Run(s, [step] + rest) == Run(Apply(s, step), rest)
  {
    hide Enabled, Apply;
    assert ([step] + rest)[1..] == rest;
  }

  lemma Undecided(state: SignalsState, signals: set<Signal>)
    requires !state.Due(signals)
    ensures Verdict(state, signals) == None
  {
  }
}
