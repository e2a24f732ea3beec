/** Whether what a trap tells its client is true: over every run each event is about its own
    trigger and succeeds exactly when its state satisfies what the trigger watches; and it fails
    only what can no longer be satisfied, if and only if the callback was due for the trigger. */
module TrapTruth {
  import opened Results
  import opened Signals
  import opened Watching
  import opened Trap
  import opened TrapRuns
  import opened TrapEvents

  ghost predicate Said(known: map<nat, Trigger>, d: Delivery, truly: bool) {
    d.watch in known && if truly then TellsTruly(known[d.watch], d) else Tells(known[d.watch], d)
  }

  /** What has been logged, or found while arming, tells what it should. */
  ghost predicate Recorded(s: System, truly: bool) {
    && (forall t :: t in s.inner.triggers ==> t.watch in s.known && s.known[t.watch] == t.(removed := false))
    && (forall d :: d in s.log ==> Said(s.known, d, truly))
    && (s.arming.Some? ==> forall d :: d in s.arming.value.blocking ==> Said(s.known, d, truly))
  }

  // ---------------------------------------------------------------- callbacks of the trigger's own

  /** A callback with this context is, now and later, for these signals: every live watch that has
      it watches them, and what is pending of it was due for them. */
  ghost predicate OwnContext(w: World, context: nat, signals: set<Signal>) {
    && (forall e, v :: 0 <= e < |w.ends| && v in w.ends[e].watchers && !v.cancelled && v.callback == context ==>
          v.signals == signals)
    && (forall f :: f in w.pending && f.kind.Changed? && f.callback == context ==> f.state.Due(signals))
  }

  ghost predicate Waiting(s: System, u: Trigger) {
    u in s.started || (u in s.inner.triggers && !u.removed)
  }

  ghost predicate Own(s: System) {
    forall u :: Waiting(s, u) ==> OwnContext(s.world, u.context, u.signals)
  }

  /** A context is used anew only for the same signals, unless nothing is left of its last use: no
      trigger, no live watch, and no callback still to be called. */
  ghost predicate Unmixed(s: System, signals: set<Signal>, context: nat) {
    && OwnContext(s.world, context, signals)
    && forall u :: Waiting(s, u) && u.context == context ==> u.signals == signals
  }

  lemma OperateOwn(w: World, after: seq<Watched>, fired: seq<Firing>, context: nat, signals: set<Signal>)
    requires CanOperate(w, after, fired) && OwnContext(w, context, signals)
    ensures OwnContext(Operate(w, after, fired), context, signals)
  {
    hide SignalsState.Due, Watched.State, Collect, Cancellations, CancelAll, Notified;
    forall e, v | 0 <= e < |after| && v in after[e].watchers && !v.cancelled && v.callback == context
      ensures v.signals == signals
    {
      assert Lawful(w.ends[e], after[e], fired);
      StillThere(w.ends[e], after[e], fired, v);
    }
    forall f | f in w.pending + multiset(fired) && f.kind.Changed? && f.callback == context
      ensures f.state.Due(signals)
    {
      if f !in w.pending {
        assert f in fired;
        var e :| 0 <= e < |after| && Collected(w.ends[e], after[e], f);
        var v := DueWatch(w.ends[e], after[e], f);
        assert v.signals == signals;
      }
    }
  }

  /** A live watch was there before. */
  lemma StillThere(a: Watched, b: Watched, fired: seq<Firing>, v: Watcher)
    requires Lawful(a, b, fired) && v in b.watchers && !v.cancelled
    ensures v in a.watchers
  {
  }

  /** A change is collected for a live watch that is due. */
  lemma DueWatch(a: Watched, b: Watched, f: Firing) returns (v: Watcher)
    requires Collected(a, b, f) && f.kind.Changed?
    ensures v in a.watchers && !v.cancelled && v.callback == f.callback && f.state.Due(v.signals)
  {
    hide Watched.State, SignalsState.Due, Collect, Cancellations;
    CancellationsExact(a.watchers, f);
    CollectExact(a.watchers, b.State(), f);
    v :| v in a.watchers && !v.cancelled && b.State().Due(v.signals) && f == Firing(v.callback, b.State(), Changed);
  }

  lemma StartOwn(w: World, e: nat, signals: set<Signal>, callback: nat, context: nat, own: set<Signal>)
    requires e < |w.ends| && OwnContext(w, context, own) && (callback == context ==> signals == own)
    ensures OwnContext(StartWatch(w, e, signals, callback), context, own)
  {
    hide SignalsState.Due;
  }

  lemma CancelOwn(w: World, e: nat, id: nat, context: nat, own: set<Signal>)
    requires e < |w.ends| && OwnContext(w, context, own)
    ensures OwnContext(CancelWatch(w, e, id), context, own)
  {
    hide SignalsState.Due;
    var ws, ws' := w.ends[e].watchers, CancelOne(w.ends[e].watchers, id);
    forall v | v in ws' && !v.cancelled ensures v in ws {
      var k :| 0 <= k < |ws'| && ws'[k] == v;
      assert ws[k] == v;
    }
  }

  lemma CalledOwn(w: World, f: Firing, context: nat, own: set<Signal>)
    requires OwnContext(w, context, own)
    ensures OwnContext(Called(w, f), context, own)
  {
    hide SignalsState.Due;
  }

  /** Callbacks stay the triggers' own as long as contexts are not mixed. */
  lemma StepOwn(s: System, step: Step)
    requires Inv(s) && Own(s) && Enabled(s, step)
    requires step.BeginAdd? ==> Unmixed(s, step.signals, step.context)
    ensures Own(Apply(s, step))
  {
    hide OwnContext, Inv, SignalsState.Due, CanOperate, Watched.State;
    var s' := Apply(s, step);
    forall u | Waiting(s', u) ensures OwnContext(s'.world, u.context, u.signals) {
      if !step.BeginAdd? || Waiting(s, u) { WasWaiting(s, step, u); }
      match step
      case PipeOperation(after, fired) => OperateOwn(s.world, after, fired, u.context, u.signals);
      case BeginAdd(e, signals, context) => StartOwn(s.world, e, signals, context, u.context, u.signals);
      case Unwatch(e, id) => CancelOwn(s.world, e, id, u.context, u.signals);
      case Call(f) => CalledOwn(s.world, f, u.context, u.signals);
      case _ =>
    }
  }

  lemma WasWaiting(s: System, step: Step, u: Trigger)
    requires Enabled(s, step) && Waiting(Apply(s, step), u)
    requires step.BeginAdd? ==> Waiting(s, u)
    ensures Waiting(s, u)
  {
    hide FitToAdd, CanOperate, StartWatch, CancelWatch, Operate;
    if u in s.inner.triggers || u in s.started { return; }
    match step
    case Remove(context) => RemovedWaiting(s.inner, FindLive(s.inner.triggers, context), u);
    case Call(f) => RemovedWaiting(s.inner, FindLive(s.inner.triggers, f.callback), u);
    case _ =>
  }

  lemma RemovedWaiting(inner: Inner, at: Option<nat>, u: Trigger)
    requires at.Some? ==> at.value < |inner.triggers|
    ensures at.Some? && u in Removed(inner, at.value).triggers && !u.removed ==> u in inner.triggers
  {
  }

  // ---------------------------------------------------------------- the log

  /** What a callback says to an armed trap is true exactly when it was due for the trigger. */
  lemma CallTruth(s: System, f: Firing)
    requires Inv(s) && s.inner.armed && f.kind.Changed? && FindLive(s.inner.triggers, f.callback).Some?
    ensures var t := s.inner.triggers[FindLive(s.inner.triggers, f.callback).value];
      var events := OnWatch(s.inner, f).1;
      && |events| == 1 && Tells(t, events[0]) && events[0].event.state == f.state
      && (TellsTruly(t, events[0]) <==> f.state.Due(t.signals))
  {
    hide ScanReady, AllSilent, AllCovered, Distinct;
    var t := s.inner.triggers[FindLive(s.inner.triggers, f.callback).value];
    assert t in s.inner.triggers && Ready(s.world, t);
  }

  lemma SaidOf(known: map<nat, Trigger>, t: Trigger, d: Delivery, truly: bool)
    requires t.watch in known && known[t.watch] == t.(removed := false)
    requires if truly then TellsTruly(t, d) else Tells(t, d)
    ensures Said(known, d, truly)
  {
  }

  lemma CallRecorded(s: System, f: Firing, truly: bool)
    requires Inv(s) && Recorded(s, truly) && s.arming.None? && f in s.world.pending && (truly ==> Own(s))
    ensures Recorded(AfterCall(s, f), truly)
  {
    hide Inv, Tells, TellsTruly, SignalsState.Due, OwnContext, Said;
    var at := FindLive(s.inner.triggers, f.callback);
    if at.None? { return; }
    var t := s.inner.triggers[at.value];
    var (inner, events) := OnWatch(s.inner, f);
    if f.kind.Cancelled? {
      CancelSaid(s.known, t, truly);
      RemovedRecorded(s, at.value, truly);
    } else if s.inner.armed {
      CallTruth(s, f);
      if truly {
        assert Waiting(s, t);
        OwnDue(s.world, t.context, t.signals, f);
      }
      Truly(t, events[0]);
      SaidOf(s.known, t, events[0], truly);
    }
  }

  lemma OwnDue(w: World, context: nat, signals: set<Signal>, f: Firing)
    requires OwnContext(w, context, signals) && f in w.pending && f.kind.Changed? && f.callback == context
    ensures f.state.Due(signals)
  {
  }

  lemma Truly(t: Trigger, d: Delivery)
    ensures TellsTruly(t, d) ==> Tells(t, d)
  {
  }

  lemma CancelSaid(known: map<nat, Trigger>, t: Trigger, truly: bool)
    requires t.watch in known && known[t.watch] == t.(removed := false)
    ensures Said(known, CancelEvent(t), truly)
  {
  }

  /** Marking a trigger removed changes nothing about it. */
  lemma RemovedRecorded(s: System, i: nat, truly: bool)
    requires Recorded(s, truly) && i < |s.inner.triggers|
    ensures forall u :: u in Removed(s.inner, i).triggers ==>
      u.watch in s.known && s.known[u.watch] == u.(removed := false)
  {
    hide Said;
    var ts, ts' := s.inner.triggers, Removed(s.inner, i).triggers;
    forall u | u in ts' ensures u.watch in s.known && s.known[u.watch] == u.(removed := false) {
      var k :| 0 <= k < |ts'| && ts'[k] == u;
      assert ts[k] in ts;
    }
  }

  lemma AskRecorded(s: System, truly: bool)
    requires Recorded(s, truly) && Enabled(s, ArmAsk)
    ensures Recorded(AfterAsk(s), truly)
  {
    hide Tells, TellsTruly, Blocking, SignalsState.Due, Said;
    var t := s.inner.triggers[s.arming.value.next];
    var more := Blocking(t, s.world.ends[t.dispatcher].State());
    forall d | d in more ensures Said(s.known, d, truly) {
      Truly(t, d);
      SaidOf(s.known, t, d, truly);
    }
  }

  lemma FinishRecorded(s: System, t: Trigger, truly: bool)
    requires Recorded(s, truly) && t.watch !in s.known && !t.removed && s.arming.None?
    ensures Recorded(Finished(s, t), truly)
  {
    hide Tells, TellsTruly;
  }

  lemma CloseRecorded(s: System, truly: bool)
    requires Recorded(s, truly) && s.arming.None?
    ensures Recorded(AfterClose(s), truly)
  {
    hide Said;
    var live := LiveOnes(s.inner.triggers);
    forall d | d in CancelEvents(live) ensures Said(s.known, d, truly) {
      var k :| 0 <= k < |live| && CancelEvents(live)[k] == d;
      assert live[k] in live;
      CancelSaid(s.known, live[k], truly);
    }
  }

  lemma RemoveRecorded(s: System, context: nat, truly: bool)
    requires Recorded(s, truly) && s.arming.None?
    ensures Recorded(AfterRemove(s, context), truly)
  {
    hide Said, Removed;
    var at := FindLive(s.inner.triggers, context);
    if at.Some? {
      assert s.inner.triggers[at.value] in s.inner.triggers;
      CancelSaid(s.known, s.inner.triggers[at.value], truly);
      RemovedRecorded(s, at.value, truly);
    }
  }

  lemma QuietRecorded(s: System, step: Step, truly: bool)
    requires Recorded(s, truly) && Enabled(s, step)
    requires step.PipeOperation? || step.BeginAdd? || step.Unwatch? || step.ArmBegin? || step.ArmEnd?
    ensures Recorded(Apply(s, step), truly)
  {
    hide Said, CanOperate, CancelOne;
  }

  lemma StepRecorded(s: System, step: Step, truly: bool)
    requires Inv(s) && Told(s) && Recorded(s, truly) && Enabled(s, step) && (truly ==> Own(s))
    ensures Recorded(Apply(s, step), truly)
  {
    DistinctOf(s);
    StartedNew(s);
    hide Inv, Told, Recorded, CanOperate, Own, Distinct;
    match step
    case FinishAdd(t) => FinishRecorded(s, t, truly);
    case Remove(context) => RemoveRecorded(s, context, truly);
    case ArmAsk => AskRecorded(s, truly);
    case Call(f) => CallRecorded(s, f, truly);
    case CloseTrap => CloseRecorded(s, truly);
    case _ => QuietRecorded(s, step, truly);
  }

  lemma StartedNew(s: System)
    requires Told(s) && Distinct(s)
    ensures forall t :: t in s.started ==> t.watch !in s.known && !t.removed
  {
  }

  // ---------------------------------------------------------------- runs

  /** No context is mixed on the way. */
  ghost predicate Careful(s: System, steps: seq<Step>)
    requires CanRun(s, steps)
    decreases |steps|
  {
    |steps| == 0 ||
      ((steps[0].BeginAdd? ==> Unmixed(s, steps[0].signals, steps[0].context))
        && Careful(Apply(s, steps[0]), steps[1..]))
  }

  lemma {:induction false} RunRecorded(s: System, steps: seq<Step>, truly: bool)
    requires Inv(s) && Told(s) && Balanced(s) && Recorded(s, truly) && CanRun(s, steps)
    requires truly ==> Own(s) && Careful(s, steps)
    ensures Recorded(Run(s, steps), truly)
    decreases |steps|
  {
    hide Inv, Told, Balanced, Recorded, Own, Enabled, Apply, Unmixed;
    if |steps| > 0 {
      StepKeeps(s, steps[0]);
      StepTold(s, steps[0]);
      StepRecorded(s, steps[0], truly);
      if truly { StepOwn(s, steps[0]); }
      RunRecorded(Apply(s, steps[0]), steps[1..], truly);
    }
  }

  /** Over every run each event names its own trigger's context, and, unless it is a cancellation,
      says that the trigger succeeded exactly when it watches something that the event's own state
      satisfies. */
  lemma EventsTell(world: World, steps: seq<Step>, d: Delivery)
    requires AllSilent(world) && CanRun(Start(world), steps) && d in Run(Start(world), steps).log
    ensures var known := Run(Start(world), steps).known;
      d.watch in known &&
      var t, e := known[d.watch], d.event;
      && e.context == t.context
      && (e.result.EventOk? <==> !e.result.EventCancelled? && t.signals != {} && t.signals <= e.state.satisfied)
      && (e.result.EventCancelled? || (e.result.EventFailed? && t.signals == {}) ==> e.state == NO_SIGNALS)
  {
    StartInv(world);
    RunRecorded(Start(world), steps, false);
    assert Said(Run(Start(world), steps).known, d, false);
  }

  /** And where contexts are not mixed, it says that a trigger failed exactly when that watches
      nothing, or something that in the event's own state is not satisfied and can never be. */
  lemma FailuresAreTrue(world: World, steps: seq<Step>, d: Delivery)
    requires AllSilent(world) && CanRun(Start(world), steps) && Careful(Start(world), steps)
    requires d in Run(Start(world), steps).log
    ensures var known := Run(Start(world), steps).known;
      d.watch in known &&
      var t, e := known[d.watch], d.event;
      !e.result.EventCancelled? ==>
        (e.result.EventFailed? <==>
          t.signals == {} || (!(t.signals <= e.state.satisfied) && !(t.signals <= e.state.satisfiable)))
  {
    StartInv(world);
    RunRecorded(Start(world), steps, true);
    assert Said(Run(Start(world), steps).known, d, true);
  }

  // ---------------------------------------------------------------- a failure that is not true

  const OPEN: Watched := Watched(MessageFacts(false, false), false, [])
  const FIRST: Trigger := Trigger(0, 0, {Readable}, 7, false)
  const SECOND: Trigger := Trigger(1, 0, {PeerClosed}, 7, false)
  const FULL: SignalsState := MessageState(false, true)
  const STALE: Firing := Firing(7, FULL, Changed)

  /** A trigger on {Readable} is removed when a message has come and its callback is on the way, and
      its context is used again for {PeerClosed} on the same end: the callback tells the new trigger
      that it has failed, with a state in which its peer can still close. */
  lemma MixedContextMisleads() returns (world: World, steps: seq<Step>, d: Delivery)
    ensures AllSilent(world) && CanRun(Start(world), steps) && !Careful(Start(world), steps)
    ensures var s := Run(Start(world), steps);
      && d in s.log && d.watch in s.known && s.known[d.watch].signals == {PeerClosed}
      && d.event.result.EventFailed? && PeerClosed in d.event.state.satisfiable
  {
    hide CanRun, Run, Inv, Careful, CanOperate;
    world := World([OPEN], multiset{}, 0);
    var s0 := Start(world);
    var before := Collecting(world);
    var s := Run(s0, before);
    var add := BeginAdd(0, {PeerClosed}, 7);
    var s1 := Apply(s, add);
    RunThen(s0, before, add);
    assert SECOND in s1.started;
    SecondFits(s1);
    RunThen(s0, before + [add], FinishAdd(SECOND));
    var s2 := Apply(s1, FinishAdd(SECOND));
    assert s2.inner.triggers == [FIRST.(removed := true), SECOND];
    FoundSecond(s2.inner.triggers);
    steps := before + [add] + [FinishAdd(SECOND)] + [Call(STALE)];
    RunThen(s0, before + [add] + [FinishAdd(SECOND)], Call(STALE));
    d := Delivery(1, TrapEvent(7, FULL, EventFailed));
    var s3 := Apply(s2, Call(STALE));
    NotPeerClosed();
    assert s3.log[|s3.log| - 1] == d;
    StartInv(world);
    if Careful(s0, steps) {
      FailuresAreTrue(world, steps, d);
    }
  }

  lemma NotPeerClosed()
    ensures !({PeerClosed} <= FULL.satisfied) && PeerClosed in FULL.satisfiable
  {
    assert PeerClosed in {PeerClosed};
  }

  lemma FoundSecond(ts: seq<Trigger>)
    requires ts == [FIRST.(removed := true), SECOND]
    ensures FindLive(ts, 7) == Some(1)
  {
    assert ts[1..] == [SECOND];
  }

  lemma SecondFits(s: System)
    requires s.inner == Inner([FIRST.(removed := true)], true) && |s.world.ends| == 1
    requires !s.world.ends[0].closed && s.world.ends[0].facts == MessageFacts(false, true)
    ensures FitToAdd(s, SECOND)
  {
    NotPeerClosed();
  }

  /** The trap is armed, the first trigger added, a message comes, the trigger is removed. */
  lemma Collecting(world: World) returns (steps: seq<Step>)
    requires world == World([OPEN], multiset{}, 0)
    ensures CanRun(Start(world), steps)
    ensures var s := Run(Start(world), steps);
      && s.inner == Inner([FIRST.(removed := true)], true) && s.arming.None?
      && s.world.pending == multiset{STALE} && s.world.nextWatch == 1 && |s.world.ends| == 1
      && !s.world.ends[0].closed && s.world.ends[0].facts == MessageFacts(false, true)
  {
    hide CanRun, Run, CanOperate;
    var s0 := Start(world);
    var first := Adding(world);
    var s4 := Run(s0, first);
    var watched := Watched(MessageFacts(false, false), false, [Watcher(0, {Readable}, 7, false)]);
    var come := PipeOperation([watched.(facts := MessageFacts(false, true))], [STALE]);
    MessageComes(s4.world, watched);
    var s5 := Apply(s4, come);
    RunThen(s0, first, come);
    assert s5.inner.triggers == [FIRST] && FindLive([FIRST], 7) == Some(0);
    RunThen(s0, first + [come], Remove(7));
    steps := first + [come] + [Remove(7)];
  }

  lemma Adding(world: World) returns (first: seq<Step>)
    requires world == World([OPEN], multiset{}, 0)
    ensures CanRun(Start(world), first)
    ensures var s := Run(Start(world), first);
      && s.inner == Inner([FIRST], true) && s.arming.None? && s.world.pending == multiset{} && s.world.nextWatch == 1
      && s.world.ends == [Watched(MessageFacts(false, false), false, [Watcher(0, {Readable}, 7, false)])]
  {
    hide CanRun, Run, CanOperate;
    var s0 := Start(world);
    RunNothing(s0);
    var s1 := Apply(s0, ArmBegin);
    RunThen(s0, [], ArmBegin);
    var s2 := Apply(s1, ArmEnd);
    RunThen(s0, [] + [ArmBegin], ArmEnd);
    var add := BeginAdd(0, {Readable}, 7);
    var s3 := Apply(s2, add);
    RunThen(s0, [] + [ArmBegin] + [ArmEnd], add);
    FirstFits(s3);
    var s4 := Apply(s3, FinishAdd(FIRST));
    RunThen(s0, [] + [ArmBegin] + [ArmEnd] + [add], FinishAdd(FIRST));
    first := [] + [ArmBegin] + [ArmEnd] + [add] + [FinishAdd(FIRST)];
    var watched := Watched(MessageFacts(false, false), false, [Watcher(0, {Readable}, 7, false)]);
    assert s4.world.ends[0].watchers == [] + [Watcher(0, {Readable}, 7, false)];
    assert s4.world.ends[0] == watched;
    assert s4.world.ends == [watched];
  }

  lemma FirstFits(s: System)
    requires s.inner == Inner([], true) && |s.world.ends| == 1
    requires !s.world.ends[0].closed && s.world.ends[0].facts == MessageFacts(false, false)
    ensures FitToAdd(s, FIRST)
  {
    assert Readable in {Readable};
  }

  lemma MessageComes(w: World, watched: Watched)
    requires watched == Watched(MessageFacts(false, false), false, [Watcher(0, {Readable}, 7, false)])
    requires w.ends == [watched]
    ensures CanOperate(w, [watched.(facts := MessageFacts(false, true))], [STALE])
  {
    var now := watched.(facts := MessageFacts(false, true));
    CollectExact(watched.watchers, now.State(), STALE);
    assert watched.watchers[0] in watched.watchers;
    assert !now.watchers[0].cancelled && now.State().Due({Readable});
    assert Collected([watched][0], [now][0], STALE);
    assert Lawful([watched][0], [now][0], [STALE]);
  }
}
