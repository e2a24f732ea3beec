/** A trap among endpoints that change on their own: every interleaving of pipe operations,
    watch registrations, callbacks and trap calls. Adding a trigger takes two steps, removing
    one leaves its watch to be cancelled later, and arming asks the endpoints one by one while
    it holds the trap's lock. */
module TrapRuns {
  import opened Results
  import opened Signals
  import opened Watching
  import opened Trap

  /** An arm under way: the next trigger to ask about, and what stands in its way so far. */
  datatype Arming = Arming(next: nat, blocking: seq<Delivery>)

  /** `started` holds triggers whose watch is registered but which are not in the trap yet,
      `toCancel` watches whose trigger is gone, `log` the events in the order they were decided
      under the trap's lock, `known` every trigger there has been, by its watch. */
  datatype System = System(
    world: World,
    inner: Inner,
    arming: Option<Arming>,
    started: set<Trigger>,
    toCancel: set<(nat, nat)>,
    log: seq<Delivery>,
    arms: nat,
    changes: nat,
    known: map<nat, Trigger>)

  datatype Step =
    | PipeOperation(after: seq<Watched>, fired: seq<Firing>)
    | BeginAdd(dispatcher: nat, signals: set<Signal>, context: nat)
    | FinishAdd(t: Trigger)
    | Remove(context: nat)
    | Unwatch(dispatcher: nat, id: nat)
    | ArmBegin
    | ArmAsk
    | ArmEnd
    | Call(f: Firing)
    | CloseTrap

  function Start(world: World): System {
    System(world, Inner([], false), None, {}, {}, [], 0, 0, map[])
  }

  /** What the trap asks of whoever adds a trigger: a context of its own; while the trap is armed,
      an open end on which it is not due; and on a closed end a watch that is due for good. */
  predicate FitToAdd(s: System, t: Trigger)
    requires t.dispatcher < |s.world.ends|
  {
    var end := s.world.ends[t.dispatcher];
    && FindLive(s.inner.triggers, t.context).None?
    && (s.inner.armed ==> !end.closed && !end.State().Due(t.signals))
    && (end.closed ==> DueForever(end.facts, t.signals))
  }

  /** When a step can be taken. */
  ghost predicate Enabled(s: System, step: Step) {
    match step
    case PipeOperation(after, fired) => CanOperate(s.world, after, fired)
    case BeginAdd(e, _, _) => e < |s.world.ends|
    case FinishAdd(t) => t in s.started && s.arming.None? && t.dispatcher < |s.world.ends| && FitToAdd(s, t)
    case Remove(_) => s.arming.None?
    case Unwatch(e, id) => (e, id) in s.toCancel && e < |s.world.ends|
    case ArmBegin => s.arming.None?
    case ArmAsk =>
      s.arming.Some? && s.arming.value.next < |s.inner.triggers| &&
      s.inner.triggers[s.arming.value.next].dispatcher < |s.world.ends|
    case ArmEnd => s.arming.Some? && s.arming.value.next >= |s.inner.triggers|
    case Call(f) => s.arming.None? && f in s.world.pending
    case CloseTrap => s.arming.None?
  }

  function Finished(s: System, t: Trigger): System {
    s.(inner := s.inner.(triggers := s.inner.triggers + [t]), started := s.started - {t},
      known := s.known[t.watch := t])
  }

  function AfterRemove(s: System, context: nat): System {
    match FindLive(s.inner.triggers, context)
    case None => s
    case Some(i) =>
      var t := s.inner.triggers[i];
      s.(inner := Removed(s.inner, i), toCancel := s.toCancel + {(t.dispatcher, t.watch)},
        log := s.log + [CancelEvent(t)])
  }

  function AfterAsk(s: System): System
    requires s.arming.Some? && s.arming.value.next < |s.inner.triggers|
    requires s.inner.triggers[s.arming.value.next].dispatcher < |s.world.ends|
  {
    var a := s.arming.value;
    var t := s.inner.triggers[a.next];
    s.(arming := Some(Arming(a.next + 1, a.blocking + Blocking(t, s.world.ends[t.dispatcher].State()))))
  }

  function AfterArm(s: System): System
    requires s.arming.Some?
  {
    var blocking := s.arming.value.blocking;
    if blocking == [] then s.(arming := None, inner := s.inner.(armed := true), arms := s.arms + 1)
    else s.(arming := None, log := s.log + blocking)
  }

  function AfterCall(s: System, f: Firing): System {
    var (inner, events) := OnWatch(s.inner, f);
    s.(world := Called(s.world, f), inner := inner, log := s.log + events,
       changes := s.changes + if f.kind.Changed? then |events| else 0)
  }

  function AfterClose(s: System): System {
    var live := LiveOnes(s.inner.triggers);
    s.(inner := s.inner.(triggers := []),
       toCancel := s.toCancel + set t <- live :: (t.dispatcher, t.watch),
       log := s.log + CancelEvents(live))
  }

  function Apply(s: System, step: Step): System
    requires Enabled(s, step)
  {
    match step
    case PipeOperation(after, fired) => s.(world := Operate(s.world, after, fired))
    case BeginAdd(e, signals, context) =>
      s.(world := StartWatch(s.world, e, signals, context),
         started := s.started + {Trigger(s.world.nextWatch, e, signals, context, false)})
    case FinishAdd(t) => Finished(s, t)
    case Remove(context) => AfterRemove(s, context)
    case Unwatch(e, id) => s.(world := CancelWatch(s.world, e, id), toCancel := s.toCancel - {(e, id)})
    case ArmBegin => if s.inner.armed then s else s.(arming := Some(Arming(0, [])))
    case ArmAsk => AfterAsk(s)
    case ArmEnd => AfterArm(s)
    case Call(f) => AfterCall(s, f)
    case CloseTrap => AfterClose(s)
  }

  ghost predicate CanRun(s: System, steps: seq<Step>)
    decreases |steps|
  {
    |steps| == 0 || (Enabled(s, steps[0]) && CanRun(Apply(s, steps[0]), steps[1..]))
  }

  function Run(s: System, steps: seq<Step>): System
    requires CanRun(s, steps)
    decreases |steps|
  {
    if |steps| == 0 then s else Run(Apply(s, steps[0]), steps[1..])
  }

  // ---------------------------------------------------------------- the invariant

  /** Watches and live contexts are each one trigger's own, and no watch that is about to be
      cancelled is a live trigger's. */
  ghost predicate Distinct(s: System) {
    var ts := s.inner.triggers;
    && (forall i, j :: 0 <= i < j < |ts| ==> ts[i].watch != ts[j].watch)
    && (forall i, j :: 0 <= i < j < |ts| && !ts[i].removed && !ts[j].removed ==> ts[i].context != ts[j].context)
    && (forall t :: t in ts ==> t.watch < s.world.nextWatch && t.dispatcher < |s.world.ends|)
    && (forall t :: t in s.started ==> !t.removed && t.watch < s.world.nextWatch && t.dispatcher < |s.world.ends|)
    && (forall t, u :: t in s.started && u in ts ==> t.watch != u.watch)
    && (forall t, u :: t in s.started && u in s.started && t.watch == u.watch ==> t == u)
    && (forall c :: c in s.toCancel ==> c.1 < s.world.nextWatch)
    && (forall c, t :: c in s.toCancel && t in ts && !t.removed ==> t.watch != c.1)
    && (forall c, t :: c in s.toCancel && t in s.started ==> t.watch != c.1)
  }

  ghost predicate TriggerCovered(w: World, t: Trigger) {
    Covered(w, t.dispatcher, t.watch, t.signals, t.context)
  }

  ghost predicate Standing(w: World, t: Trigger) {
    t.dispatcher < |w.ends| &&
    (w.ends[t.dispatcher].closed || Watcher(t.watch, t.signals, t.context, false) in w.ends[t.dispatcher].watchers)
  }

  /** The trigger could still be armed for: it watches something, and if it is due a callback
      for it is pending. */
  ghost predicate Ready(w: World, t: Trigger) {
    t.signals != {} && t.dispatcher < |w.ends| && Owed(w, t.dispatcher, t.signals, t.context)
  }

  ghost predicate AllCovered(s: System) {
    && (forall t :: t in s.inner.triggers && !t.removed ==> TriggerCovered(s.world, t))
    && (forall t :: t in s.started ==> Standing(s.world, t))
  }

  ghost predicate AllReady(s: System) {
    s.inner.armed ==> forall t :: t in s.inner.triggers && !t.removed ==> Ready(s.world, t)
  }

  ghost predicate ScanReady(s: System) {
    s.arming.Some? ==>
      && !s.inner.armed && s.arming.value.next <= |s.inner.triggers|
      && (s.arming.value.blocking == [] ==>
            forall i :: 0 <= i < s.arming.value.next && !s.inner.triggers[i].removed ==>
              Ready(s.world, s.inner.triggers[i]))
  }

  ghost predicate Inv(s: System) {
    AllSilent(s.world) && Distinct(s) && AllCovered(s) && AllReady(s) && ScanReady(s)
  }

  // ---------------------------------------------------------------- each step keeps it

  /** A change of the world that keeps every trigger covered, and ready if it was. */
  ghost predicate Kept(s: System, w: World) {
    && AllSilent(w) && |w.ends| == |s.world.ends| && s.world.nextWatch <= w.nextWatch
    && (forall t :: t in s.inner.triggers && !t.removed ==> TriggerCovered(w, t) && (Ready(s.world, t) ==> Ready(w, t)))
    && (forall t :: t in s.started ==> Standing(w, t))
  }

  lemma WorldStep(s: System, w: World)
    requires Inv(s) && Kept(s, w)
    ensures Inv(s.(world := w))
  {
    hide TriggerCovered, Ready, Standing, AllSilent;
    if s.arming.Some? && s.arming.value.blocking == [] {
      forall i | 0 <= i < s.arming.value.next && !s.inner.triggers[i].removed ensures Ready(w, s.inner.triggers[i]) {
        assert s.inner.triggers[i] in s.inner.triggers;
      }
    }
  }

  lemma OperateStands(w: World, after: seq<Watched>, fired: seq<Firing>, t: Trigger)
    requires CanOperate(w, after, fired) && Standing(w, t)
    ensures Standing(Operate(w, after, fired), t)
  {
    hide Notified, CancelAll, Cancellations;
    assert Lawful(w.ends[t.dispatcher], after[t.dispatcher], fired);
  }

  lemma KeepOperate(s: System, after: seq<Watched>, fired: seq<Firing>)
    requires Inv(s) && CanOperate(s.world, after, fired)
    ensures Inv(s.(world := Operate(s.world, after, fired)))
  {
    hide Covered, Owed, AllSilent, Lawful, Standing, Distinct, AllReady, ScanReady;
    var w, w' := s.world, Operate(s.world, after, fired);
    OperateSilent(w, after, fired);
    forall t | t in s.inner.triggers && !t.removed
      ensures TriggerCovered(w', t) && (Ready(w, t) ==> Ready(w', t))
    {
      assert TriggerCovered(w, t);
      OperateKeeps(w, after, fired, t.dispatcher, t.watch, t.signals, t.context);
    }
    forall t | t in s.started ensures Standing(w', t) {
      OperateStands(w, after, fired, t);
    }
    WorldStep(s, w');
  }

  lemma KeepBeginAdd(s: System, e: nat, signals: set<Signal>, context: nat)
    requires Inv(s) && e < |s.world.ends|
    ensures Inv(Apply(s, BeginAdd(e, signals, context)))
  {
    StartSilent(s.world, e, signals, context);
    hide Covered, Owed, AllReady, ScanReady, AllSilent;
    var w, w' := s.world, StartWatch(s.world, e, signals, context);
    forall t | t in s.inner.triggers && !t.removed
      ensures TriggerCovered(w', t) && (Ready(w, t) ==> Ready(w', t))
    {
      assert TriggerCovered(w, t);
      StartKeeps(w, e, signals, context, t.dispatcher, t.watch, t.signals, t.context);
    }
    WorldStep(s, w');
    AddStarted(s.(world := w'), Trigger(w.nextWatch, e, signals, context, false));
  }

  /** A trigger whose watch has just been registered under a fresh id joins the started ones. */
  lemma AddStarted(s: System, t: Trigger)
    requires Inv(s) && Standing(s.world, t) && !t.removed && t.watch < s.world.nextWatch
    requires forall u :: u in s.inner.triggers || u in s.started ==> u.watch < t.watch
    requires forall c :: c in s.toCancel ==> c.1 < t.watch
    ensures Inv(s.(started := s.started + {t}))
  {
    hide TriggerCovered, Ready, Standing, AllSilent;
    assert t.dispatcher < |s.world.ends| by { StandingOnEnd(s.world, t); }
  }

  lemma StandingOnEnd(w: World, t: Trigger)
    requires Standing(w, t)
    ensures t.dispatcher < |w.ends|
  {
  }

  lemma KeepFinishAdd(s: System, t: Trigger)
    requires Inv(s) && Enabled(s, FinishAdd(t))
    ensures Inv(Finished(s, t))
  {
    hide TriggerCovered, Ready, AllSilent, Standing, Distinct, FitToAdd;
    StandingCovered(s, t);
    FitUnique(s, t);
    FinishDistinct(s, t);
  }

  lemma FitUnique(s: System, t: Trigger)
    requires t.dispatcher < |s.world.ends| && FitToAdd(s, t)
    ensures forall u :: u in s.inner.triggers && !u.removed ==> u.context != t.context
  {
    NoneLive(s.inner.triggers, t.context);
  }

  lemma FinishDistinct(s: System, t: Trigger)
    requires Distinct(s) && t in s.started
    requires forall u :: u in s.inner.triggers && !u.removed ==> u.context != t.context
    ensures Distinct(Finished(s, t))
  {
    var ts := s.inner.triggers + [t];
    forall i, j | 0 <= i < j < |ts|
      ensures ts[i].watch != ts[j].watch && (!ts[i].removed && !ts[j].removed ==> ts[i].context != ts[j].context)
    {
      if j == |ts| - 1 { assert ts[i] in s.inner.triggers; }
    }
  }

  lemma StandingCovered(s: System, t: Trigger)
    requires Standing(s.world, t) && t.dispatcher < |s.world.ends| && FitToAdd(s, t)
    ensures TriggerCovered(s.world, t) && (s.inner.armed ==> Ready(s.world, t))
  {
    if t.signals == {} { assert s.world.ends[t.dispatcher].State().Due({}); }
  }

  /** What is live once trigger `i` has gone was live before, and is another trigger. */
  lemma RemovedLive(s: System, i: nat, t: Trigger)
    requires Distinct(s) && i < |s.inner.triggers| && !s.inner.triggers[i].removed
    requires t in Removed(s.inner, i).triggers && !t.removed
    ensures t in s.inner.triggers && t.watch != s.inner.triggers[i].watch && t.context != s.inner.triggers[i].context
  {
    var ts := s.inner.triggers;
    var k :| 0 <= k < |ts| && Removed(s.inner, i).triggers[k] == t;
    assert ts[k] in ts;
    assert if k < i then ts[k].watch != ts[i].watch else ts[i].watch != ts[k].watch;
  }

  /** Removing a live trigger, its watch left to be cancelled or already cancelled. */
  lemma KeepRemoved(s: System, i: nat, toCancel: set<(nat, nat)>)
    requires Inv(s) && s.arming.None? && i < |s.inner.triggers| && !s.inner.triggers[i].removed
    requires forall c :: c in toCancel ==>
      c in s.toCancel || c == (s.inner.triggers[i].dispatcher, s.inner.triggers[i].watch)
    ensures Inv(s.(inner := Removed(s.inner, i), toCancel := toCancel))
  {
    hide TriggerCovered, Ready, AllSilent, Standing;
    var ts, ts' := s.inner.triggers, Removed(s.inner, i).triggers;
    assert ts[i] in ts;
    forall t | t in ts' && !t.removed
      ensures t in ts && t.watch != ts[i].watch
    {
      RemovedLive(s, i, t);
    }
    forall t | t in ts' ensures exists u :: u in ts && u.watch == t.watch && u.dispatcher == t.dispatcher {
      var k :| 0 <= k < |ts'| && ts'[k] == t;
      assert ts[k] in ts;
    }
  }

  lemma KeepRemove(s: System, context: nat)
    requires Inv(s) && s.arming.None?
    ensures Inv(AfterRemove(s, context))
  {
    hide Inv;
    var at := FindLive(s.inner.triggers, context);
    if at.Some? {
      var t := s.inner.triggers[at.value];
      KeepRemoved(s, at.value, s.toCancel + {(t.dispatcher, t.watch)});
      LogFree(s.(inner := Removed(s.inner, at.value), toCancel := s.toCancel + {(t.dispatcher, t.watch)}),
        AfterRemove(s, context));
    }
  }

  /** The invariant says nothing of the log and the counts. */
  lemma LogFree(s: System, s': System)
    requires Inv(s) && s' == s.(log := s'.log, arms := s'.arms, changes := s'.changes, known := s'.known)
    ensures Inv(s')
  {
    hide TriggerCovered, Ready, AllSilent, Standing;
  }

  lemma KeepUnwatch(s: System, e: nat, id: nat)
    requires Inv(s) && (e, id) in s.toCancel && e < |s.world.ends|
    ensures Inv(Apply(s, Unwatch(e, id)))
  {
    hide Covered, Owed, AllReady, ScanReady, AllSilent, CancelWatch, Standing;
    CancelSilent(s.world, e, id);
    var w, w' := s.world, CancelWatch(s.world, e, id);
    forall t | t in s.inner.triggers && !t.removed
      ensures TriggerCovered(w', t) && (Ready(w, t) ==> Ready(w', t))
    {
      assert TriggerCovered(w, t);
      CancelKeeps(w, e, id, t.dispatcher, t.watch, t.signals, t.context);
    }
    forall t | t in s.started ensures Standing(w', t) {
      CancelStands(w, e, id, t);
    }
    WorldStep(s, w');
    FewerToCancel(s.(world := w'), s.toCancel - {(e, id)});
  }

  lemma CancelStands(w: World, e: nat, id: nat, t: Trigger)
    requires e < |w.ends| && Standing(w, t) && t.watch != id
    ensures Standing(CancelWatch(w, e, id), t)
  {
    if e == t.dispatcher && !w.ends[e].closed {
      var k :| 0 <= k < |w.ends[e].watchers| && w.ends[e].watchers[k] == Watcher(t.watch, t.signals, t.context, false);
      assert CancelOne(w.ends[e].watchers, id)[k] == w.ends[e].watchers[k];
    }
  }

  lemma FewerToCancel(s: System, toCancel: set<(nat, nat)>)
    requires Inv(s) && toCancel <= s.toCancel
    ensures Inv(s.(toCancel := toCancel))
  {
    hide TriggerCovered, Ready, AllSilent, Standing;
  }

  lemma KeepAsk(s: System)
    requires Inv(s) && Enabled(s, ArmAsk)
    ensures Inv(AfterAsk(s))
  {
    hide TriggerCovered, AllSilent, Standing, Blocking, SignalsState.Due;
    var a := s.arming.value;
    var t := s.inner.triggers[a.next];
    var more := Blocking(t, s.world.ends[t.dispatcher].State());
    assert a.blocking + more == [] ==> a.blocking == [] && more == [];
    if a.blocking + more == [] && !t.removed { assert Ready(s.world, t); }
  }

  lemma KeepArmEnd(s: System)
    requires Inv(s) && Enabled(s, ArmEnd)
    ensures Inv(AfterArm(s))
  {
    hide TriggerCovered, AllSilent, Standing, Ready;
    if s.arming.value.blocking == [] {
      forall t | t in s.inner.triggers && !t.removed ensures Ready(s.world, t) {
        var k :| 0 <= k < |s.inner.triggers| && s.inner.triggers[k] == t;
      }
    }
  }

  /** A callback that finds no live trigger, or a change that finds the trap disarmed or disarms
      it, takes nothing away that is still owed. */
  lemma KeepChanged(s: System, f: Firing)
    requires Inv(s) && s.arming.None? && f.kind.Changed?
    requires forall t :: s.inner.armed && t in s.inner.triggers && !t.removed ==> t.context != f.callback
    ensures Inv(s.(world := Called(s.world, f)))
  {
    hide Covered, Owed, ScanReady;
    var w, w' := s.world, Called(s.world, f);
    forall t | t in s.inner.triggers && !t.removed
      ensures TriggerCovered(w', t) && (s.inner.armed ==> Ready(w', t))
    {
      assert TriggerCovered(w, t);
      ChangedKeeps(w, f, t.dispatcher, t.watch, t.signals, t.context);
      if s.inner.armed { CalledKeeps(w, f, t.dispatcher, t.watch, t.signals, t.context); }
    }
    DropScan(s, w');
  }

  lemma DropScan(s: System, w: World)
    requires Inv(s) && s.arming.None? && w.ends == s.world.ends && w.nextWatch == s.world.nextWatch
    requires forall t :: t in s.inner.triggers && !t.removed ==> TriggerCovered(w, t) && (s.inner.armed ==> Ready(w, t))
    ensures Inv(s.(world := w))
  {
    hide TriggerCovered, Ready;
  }

  lemma KeepCancelled(s: System, f: Firing)
    requires Inv(s) && s.arming.None?
    requires forall t :: t in s.inner.triggers && !t.removed ==> t.context != f.callback
    ensures Inv(s.(world := Called(s.world, f)))
  {
    hide Covered, Owed, ScanReady;
    var w, w' := s.world, Called(s.world, f);
    forall t | t in s.inner.triggers && !t.removed
      ensures TriggerCovered(w', t) && (s.inner.armed ==> Ready(w', t))
    {
      assert TriggerCovered(w, t);
      CalledKeeps(w, f, t.dispatcher, t.watch, t.signals, t.context);
    }
    DropScan(s, w');
  }

  lemma Disarm(s: System)
    requires Inv(s) && s.arming.None?
    ensures Inv(s.(inner := s.inner.(armed := false)))
  {
    hide TriggerCovered, Ready, AllSilent, Standing;
  }

  lemma KeepCall(s: System, f: Firing)
    requires Inv(s) && s.arming.None?
    ensures Inv(AfterCall(s, f))
  {
    hide Inv, Called;
    var at := FindLive(s.inner.triggers, f.callback);
    var (inner, events) := OnWatch(s.inner, f);
    var w := Called(s.world, f);
    if at.None? {
      NoneLive(s.inner.triggers, f.callback);
      KeepCancelled(s, f);
    } else if f.kind.Changed? {
      if s.inner.armed { Disarm(s); }
      KeepChanged(s.(inner := inner), f);
    } else {
      KeepRemoved(s, at.value, s.toCancel) by { DistinctOf(s); }
      RemovedElsewhere(s, at.value, f.callback);
      KeepCancelled(s.(inner := inner), f);
    }
    LogFree(s.(inner := inner, world := w), AfterCall(s, f));
  }

  lemma DistinctOf(s: System)
    requires Inv(s)
    ensures Distinct(s)
  {
  }

  lemma NoneLive(ts: seq<Trigger>, context: nat)
    requires FindLive(ts, context).None?
    ensures forall t :: t in ts && !t.removed ==> t.context != context
  {
    forall t | t in ts && !t.removed ensures t.context != context {
      var k :| 0 <= k < |ts| && ts[k] == t;
      assert !Live(ts[k], context);
    }
  }

  lemma RemovedElsewhere(s: System, i: nat, context: nat)
    requires Inv(s) && i < |s.inner.triggers| && Live(s.inner.triggers[i], context)
    ensures forall t :: t in Removed(s.inner, i).triggers && !t.removed ==> t.context != context
  {
    DistinctOf(s);
    hide Inv, Distinct;
    forall t | t in Removed(s.inner, i).triggers && !t.removed ensures t.context != context {
      RemovedLive(s, i, t);
    }
  }

  lemma KeepClose(s: System)
    requires Inv(s) && s.arming.None?
    ensures Inv(AfterClose(s))
  {
    hide TriggerCovered, Ready, AllSilent, Standing;
    var live := LiveOnes(s.inner.triggers);
    forall c | c in AfterClose(s).toCancel
      ensures c.1 < s.world.nextWatch && forall t :: t in s.started ==> t.watch != c.1
    {
      if c !in s.toCancel {
        var t :| t in live && c == (t.dispatcher, t.watch);
        assert t in s.inner.triggers;
      }
    }
  }

  lemma StepKeeps(s: System, step: Step)
    requires Inv(s) && Enabled(s, step)
    ensures Inv(Apply(s, step))
  {
    hide Inv, AfterRemove, AfterAsk, AfterArm, AfterCall, AfterClose, Finished, CanOperate;
    match step
    case PipeOperation(after, fired) => KeepOperate(s, after, fired);
    case BeginAdd(e, signals, context) => KeepBeginAdd(s, e, signals, context);
    case FinishAdd(t) => KeepFinishAdd(s, t);
    case Remove(context) => KeepRemove(s, context);
    case Unwatch(e, id) => KeepUnwatch(s, e, id);
    case ArmBegin => KeepArmBegin(s);
    case ArmAsk => KeepAsk(s);
    case ArmEnd => KeepArmEnd(s);
    case Call(f) => KeepCall(s, f);
    case CloseTrap => KeepClose(s);
  }

  lemma KeepArmBegin(s: System)
    requires Inv(s) && s.arming.None?
    ensures !s.inner.armed ==> Inv(s.(arming := Some(Arming(0, []))))
  {
    hide TriggerCovered, Ready, AllSilent, Standing;
  }

  lemma {:induction false} RunKeeps(s: System, steps: seq<Step>)
    requires Inv(s) && CanRun(s, steps)
    ensures Inv(Run(s, steps))
    decreases |steps|
  {
    hide Inv, Enabled, Apply;
    if |steps| > 0 {
      StepKeeps(s, steps[0]);
      RunKeeps(Apply(s, steps[0]), steps[1..]);
    }
  }

  /** No wakeup is lost: in every reachable state of every interleaving, while the trap is armed
      each live trigger watches something, and if it is due a callback that will fire or remove
      it is pending. */
  lemma NoLostWakeup(world: World, steps: seq<Step>, t: Trigger)
    requires AllSilent(world) && CanRun(Start(world), steps)
    requires var s := Run(Start(world), steps); s.inner.armed && t in s.inner.triggers && !t.removed
    ensures var s := Run(Start(world), steps);
      t.signals != {} && t.dispatcher < |s.world.ends| &&
      (s.world.ends[t.dispatcher].State().Due(t.signals) ==> Answered(s.world, t.dispatcher, t.context))
  {
    StartInv(world);
    RunKeeps(Start(world), steps);
  }

  lemma StartInv(world: World)
    requires AllSilent(world)
    ensures Inv(Start(world))
  {
  }

  // ---------------------------------------------------------------- why FinishAdd asks what it does

  /** No callback for this context is on its way. */
  ghost predicate NonePending(w: World, context: nat) {
    forall f :: f in w.pending ==> f.callback != context
  }

  /** A trigger whose watch has been started, and for which nothing is pending yet. */
  ghost predicate AboutToAdd(s: System, t: Trigger) {
    Inv(s) && t in s.started && s.arming.None? && t.dispatcher < |s.world.ends| && NonePending(s.world, t.context)
  }

  lemma NotAnswered(w: World, e: nat, context: nat)
    requires NonePending(w, context) && e < |w.ends|
    ensures !Answered(w, e, context)
  {
  }

  /** Putting the trigger into the trap keeps the invariant exactly when it is fit to be added. */
  lemma AddExact(s: System, t: Trigger)
    requires AboutToAdd(s, t)
    ensures Inv(Finished(s, t)) <==> FitToAdd(s, t)
  {
    if FitToAdd(s, t) {
      KeepFinishAdd(s, t);
    } else if Inv(Finished(s, t)) {
      InvFits(s, t);
    }
  }

  lemma InvFits(s: System, t: Trigger)
    requires AboutToAdd(s, t) && Inv(Finished(s, t))
    ensures FitToAdd(s, t)
  {
    hide ScanReady, AllSilent, DueForever, SignalsState.Due, Watched.State;
    var ts, end := Finished(s, t).inner.triggers, s.world.ends[t.dispatcher];
    assert ts[|ts| - 1] == t && t in ts && !t.removed;
    NotAnswered(s.world, t.dispatcher, t.context);
    forall i | 0 <= i < |s.inner.triggers| ensures !Live(s.inner.triggers[i], t.context) {
      assert ts[i] == s.inner.triggers[i] && ts[|ts| - 1] == t;
    }
    assert TriggerCovered(s.world, t);
    if end.closed { StaysDue(end, end, t.signals); }
    if s.inner.armed { assert Ready(s.world, t); }
  }

  /** Whatever happens from here on, while the trap is armed no live trigger is due without a
      callback for it pending. */
  ghost predicate Guaranteed(s: System) {
    forall steps :: CanRun(s, steps) ==> AllReady(Run(s, steps))
  }

  /** With a context of its own, a trigger is covered by the wakeup guarantee, in every
      continuation, exactly when it is fit to be added. */
  lemma AddGuarantee(s: System, t: Trigger)
    requires AboutToAdd(s, t) && FindLive(s.inner.triggers, t.context).None?
    ensures Guaranteed(Finished(s, t)) <==> FitToAdd(s, t)
  {
    hide Inv, CanRun, Run, AllReady;
    if FitToAdd(s, t) {
      AddExact(s, t);
      forall steps | CanRun(Finished(s, t), steps) ensures AllReady(Run(Finished(s, t), steps)) {
        RunKeeps(Finished(s, t), steps);
        InvReady(Run(Finished(s, t), steps));
      }
    } else {
      var steps := UnfitLoses(s, t);
      assert CanRun(Finished(s, t), steps);
    }
  }

  lemma InvReady(s: System)
    requires Inv(s)
    ensures AllReady(s)
  {
  }

  /** A run in which the wakeup of an unfit trigger is lost. */
  lemma UnfitLoses(s: System, t: Trigger) returns (steps: seq<Step>)
    requires AboutToAdd(s, t) && FindLive(s.inner.triggers, t.context).None? && !FitToAdd(s, t)
    ensures CanRun(Finished(s, t), steps) && !AllReady(Run(Finished(s, t), steps))
  {
    var end := s.world.ends[t.dispatcher];
    if s.inner.armed && end.State().Due(t.signals) {
      steps := [];
      NotReady(Finished(s, t), t);
    } else {
      if end.closed && DueForever(end.facts, t.signals) { StaysDue(end, end, t.signals); }
      steps := ClosedEndLoses(s, t);
    }
  }

  /** Armed, with a live trigger due and nothing pending for it. */
  lemma NotReady(s: System, t: Trigger)
    requires s.inner.armed && t in s.inner.triggers && !t.removed && t.dispatcher < |s.world.ends|
    requires s.world.ends[t.dispatcher].State().Due(t.signals) && NonePending(s.world, t.context)
    ensures !AllReady(s)
  {
    NotAnswered(s.world, t.dispatcher, t.context);
    assert !Ready(s.world, t);
  }

  /** The facts of end `e` change; nothing is collected. */
  function Shifted(w: World, e: nat, facts: Facts): seq<Watched>
    requires e < |w.ends|
  {
    w.ends[e := w.ends[e].(facts := facts)]
  }

  lemma ShiftOperates(w: World, e: nat, facts: Facts)
    requires AllSilent(w) && e < |w.ends| && w.ends[e].closed && Later(w.ends[e].facts, facts)
    ensures CanOperate(w, Shifted(w, e, facts), [])
  {
    hide Watched.State;
    assert w.ends[e].Silent();
    forall k | 0 <= k < |w.ends| ensures Lawful(w.ends[k], Shifted(w, e, facts)[k], []) {
      if k != e { SameIsLawful(w.ends[k], []); }
    }
  }

  /** On a data pipe's closed end arming is refused exactly when the watch is due already; and
      whether it was or not, the peer's closing makes it due while nothing is collected for it. */
  lemma ClosedDataEndLosesWakeup(w: World, t: Trigger)
    requires AllSilent(w) && t.dispatcher < |w.ends| && !t.removed
    requires w.ends[t.dispatcher].closed && !w.ends[t.dispatcher].facts.MessageFacts?
    ensures Blocking(t, w.ends[t.dispatcher].State()) != [] <==> w.ends[t.dispatcher].State().Due(t.signals)
    ensures var after := Shifted(w, t.dispatcher, PeerGone(w.ends[t.dispatcher].facts));
      CanOperate(w, after, []) && after[t.dispatcher].State().Due(t.signals)
  {
    var end := w.ends[t.dispatcher];
    ShiftOperates(w, t.dispatcher, PeerGone(end.facts));
    SettledAlways(PeerGone(end.facts), t.signals, end.watchers);
    hide Watched.State;
    if t.signals == {} { assert end.State().Due({}); }
  }

  // ---------------------------------------------------------------- the run that loses a wakeup

  /** The trap is disarmed, the triggers before `i` are gone, and the last one, `t`, stands on a
      closed end where it is not due. */
  ghost predicate Alone(s: System, t: Trigger, i: nat) {
    var ts := s.inner.triggers;
    && !s.inner.armed && i < |ts| && ts[|ts| - 1] == t && !t.removed && t.dispatcher < |s.world.ends|
    && (forall u :: u in ts ==> u.dispatcher < |s.world.ends|)
    && (forall j, k :: 0 <= j < k < |ts| && !ts[j].removed && !ts[k].removed ==> ts[j].context != ts[k].context)
    && (forall j :: 0 <= j < i ==> ts[j].removed)
    && !s.world.ends[t.dispatcher].State().Due(t.signals)
  }

  /** The trap has been armed, and the world has not changed. */
  ghost predicate ArmedIn(s: System, w: World, t: Trigger) {
    s.world == w && s.inner.armed && t in s.inner.triggers
  }

  /** The other triggers are removed and the trap is armed. */
  lemma {:induction false} ArmAlone(s: System, t: Trigger, i: nat) returns (steps: seq<Step>)
    requires Alone(s, t, i) && s.arming.None?
    ensures CanRun(s, steps) && ArmedIn(Run(s, steps), s.world, t)
    decreases |s.inner.triggers| - i
  {
    hide CanRun, Run, Watched.State;
    var ts := s.inner.triggers;
    if i == |ts| - 1 {
      var s1 := Apply(s, ArmBegin);
      var rest := AskAlone(s1, t, 0);
      RunAfter(s, ArmBegin, rest);
      steps := [ArmBegin] + rest;
    } else if ts[i].removed {
      steps := ArmAlone(s, t, i + 1);
    } else {
      var step := Remove(ts[i].context);
      FoundAt(ts, i);
      var s1 := Apply(s, step);
      RemovedAlone(s, t, i);
      var rest := ArmAlone(s1, t, i + 1);
      RunAfter(s, step, rest);
      steps := [step] + rest;
    }
  }

  lemma {:induction false} FoundAt(ts: seq<Trigger>, i: nat)
    requires i < |ts| && !ts[i].removed
    requires forall j :: 0 <= j < i ==> ts[j].removed
    ensures FindLive(ts, ts[i].context) == Some(i)
    decreases i
  {
    if i > 0 { FoundAt(ts[1..], i - 1); }
  }

  lemma RemovedAlone(s: System, t: Trigger, i: nat)
    requires Alone(s, t, i) && i + 1 < |s.inner.triggers|
    requires FindLive(s.inner.triggers, s.inner.triggers[i].context) == Some(i)
    ensures Alone(AfterRemove(s, s.inner.triggers[i].context), t, i + 1)
  {
    hide Watched.State;
    var ts, s1 := s.inner.triggers, AfterRemove(s, s.inner.triggers[i].context);
    var ts1 := s1.inner.triggers;
    assert ts1 == ts[i := ts[i].(removed := true)] && s1.world == s.world;
    forall u | u in ts1 ensures u.dispatcher < |s.world.ends| {
      var k :| 0 <= k < |ts1| && ts1[k] == u;
      assert ts[k] in ts;
    }
  }

  /** Asking trigger `n` finds nothing in the way. */
  lemma AskStep(s: System, t: Trigger, n: nat)
    requires |s.inner.triggers| > 0 && Alone(s, t, |s.inner.triggers| - 1) && s.arming == Some(Arming(n, []))
    requires n < |s.inner.triggers|
    ensures Enabled(s, ArmAsk) && Apply(s, ArmAsk) == s.(arming := Some(Arming(n + 1, [])))
  {
    hide Watched.State, SignalsState.Due;
    var ts := s.inner.triggers;
    assert ts[n] in ts;
    if n == |ts| - 1 { NotDueNonempty(s.world.ends[t.dispatcher].State(), t.signals); }
    assert [] + Blocking(ts[n], s.world.ends[ts[n].dispatcher].State()) == [];
  }

  lemma {:induction false} AskAlone(s: System, t: Trigger, n: nat) returns (steps: seq<Step>)
    requires |s.inner.triggers| > 0 && Alone(s, t, |s.inner.triggers| - 1) && s.arming == Some(Arming(n, []))
    requires n <= |s.inner.triggers|
    ensures CanRun(s, steps) && ArmedIn(Run(s, steps), s.world, t)
    decreases |s.inner.triggers| - n
  {
    hide CanRun, Run, Watched.State, SignalsState.Due, Blocking;
    var ts := s.inner.triggers;
    if n == |ts| {
      assert ts[|ts| - 1] in ts;
      RunNothing(Apply(s, ArmEnd));
      RunAfter(s, ArmEnd, []);
      steps := [ArmEnd];
      assert [ArmEnd] + [] == [ArmEnd];
    } else {
      AskStep(s, t, n);
      hide Apply;
      var rest := AskAlone(Apply(s, ArmAsk), t, n + 1);
      RunAfter(s, ArmAsk, rest);
      steps := [ArmAsk] + rest;
    }
  }

  lemma NotDueNonempty(state: SignalsState, signals: set<Signal>)
    requires !state.Due(signals)
    ensures signals != {}
  {
  }

  lemma RunNothing(s: System)
    ensures CanRun(s, []) && Run(s, []) == s
  {
  }

  lemma RunAfter(s: System, step: Step, rest: seq<Step>)
    requires Enabled(s, step) && CanRun(Apply(s, step), rest)
    ensures CanRun(s, [step] + rest) && Run(s, [step] + rest) == Run(Apply(s, step), rest)
  {
    hide Enabled, Apply;
    assert ([step] + rest)[1..] == rest;
  }

  lemma {:induction false} RunThen(s: System, steps: seq<Step>, step: Step)
    requires CanRun(s, steps) && Enabled(Run(s, steps), step)
    ensures CanRun(s, steps + [step]) && Run(s, steps + [step]) == Apply(Run(s, steps), step)
    decreases |steps|
  {
    hide Enabled, Apply;
    if |steps| == 0 {
      assert steps + [step] == [step] + [];
      RunNothing(Apply(s, step));
      RunAfter(s, step, []);
    } else {
      assert (steps + [step])[1..] == steps[1..] + [step];
      RunThen(Apply(s, steps[0]), steps[1..], step);
    }
  }

  /** Once its end has fallen idle, the added trigger can be left alone. */
  lemma AloneStart(s: System, t: Trigger, s1: System)
    requires AboutToAdd(s, t) && FindLive(s.inner.triggers, t.context).None? && !s.inner.armed
    requires s1 == Finished(s, t).(world := s1.world) && |s1.world.ends| == |s.world.ends|
    requires !s1.world.ends[t.dispatcher].State().Due(t.signals)
    ensures Alone(s1, t, 0) && s1.arming.None?
  {
    hide AllCovered, AllReady, ScanReady, AllSilent, Watched.State;
    NoneLive(s.inner.triggers, t.context);
    var ts := s1.inner.triggers;
    assert ts == s.inner.triggers + [t];
    forall j, k | 0 <= j < k < |ts| && !ts[j].removed && !ts[k].removed ensures ts[j].context != ts[k].context {
      if k == |ts| - 1 { assert ts[j] in s.inner.triggers; }
    }
  }

  lemma InvParts(s: System)
    requires Inv(s)
    ensures AllSilent(s.world) && Distinct(s) && (forall t :: t in s.started ==> !t.removed)
  {
  }

  /** The run: the end falls idle, every other trigger is removed, the trap is armed, the peer
      closes. */
  lemma ClosedEndLoses(s: System, t: Trigger) returns (steps: seq<Step>)
    requires AboutToAdd(s, t) && FindLive(s.inner.triggers, t.context).None?
    requires var end := s.world.ends[t.dispatcher]; end.closed && !DueForever(end.facts, t.signals)
    ensures CanRun(Finished(s, t), steps) && !AllReady(Run(Finished(s, t), steps))
  {
    hide Inv, CanRun, Run, AllReady, Distinct;
    InvParts(s);
    var e, s0 := t.dispatcher, Finished(s, t);
    var s1, before := s0, [];
    if !s.inner.armed {
      var idle := Shifted(s0.world, e, Idle(s.world.ends[e].facts));
      DueForeverExact(s.world.ends[e].facts, t.signals);
      ShiftOperates(s0.world, e, Idle(s.world.ends[e].facts));
      s1 := Apply(s0, PipeOperation(idle, []));
      assert s1.world.pending == s0.world.pending;
      OperateSilent(s0.world, idle, []);
      AloneStart(s, t, s1);
      var rest := ArmAlone(s1, t, 0);
      before := [PipeOperation(idle, [])] + rest;
      RunAfter(s0, PipeOperation(idle, []), rest);
      s1 := Run(s0, before);
    } else {
      RunNothing(s0);
    }
    var step := PeerCloses(s1, t);
    steps := before + [step];
    RunThen(s0, before, step);
  }

  /** The peer of a data pipe's closed end closes, while the trap is armed. */
  lemma PeerCloses(s: System, t: Trigger) returns (step: Step)
    requires AllSilent(s.world) && s.inner.armed && t in s.inner.triggers && !t.removed
    requires t.dispatcher < |s.world.ends| && NonePending(s.world, t.context)
    requires s.world.ends[t.dispatcher].closed && !s.world.ends[t.dispatcher].facts.MessageFacts?
    ensures Enabled(s, step) && !AllReady(Apply(s, step))
  {
    hide AllReady, Watched.State;
    var e := t.dispatcher;
    var gone := Shifted(s.world, e, PeerGone(s.world.ends[e].facts));
    ClosedDataEndLosesWakeup(s.world, t);
    step := PipeOperation(gone, []);
    var s1 := Apply(s, step);
    assert s1.world.pending == s.world.pending;
    NotReady(s1, t);
  }

  // ---------------------------------------------------------------- unfit triggers can be reached

  /** Each way of being unfit is met with in some run: on a closed data end, and, while armed, on
      an open end where the trigger is due. */
  lemma UnfitReachable(closed: bool, armed: bool) returns (world: World, steps: seq<Step>, t: Trigger)
    requires closed || armed
    ensures AllSilent(world) && CanRun(Start(world), steps)
    ensures var s := Run(Start(world), steps);
      && AboutToAdd(s, t) && FindLive(s.inner.triggers, t.context).None? && !FitToAdd(s, t)
      && s.inner.armed == armed && s.world.ends[t.dispatcher].closed == closed
        && !s.world.ends[t.dispatcher].facts.MessageFacts?
  {
    world := World([Watched(ConsumerFacts(!closed, false, false), closed, [])], multiset{}, 0);
    t := Trigger(0, 0, {PeerClosed}, 7, false);
    var s0, add := Start(world), BeginAdd(0, {PeerClosed}, 7);
    var before := if armed then [ArmBegin, ArmEnd] else [];
    if armed {
      var s1 := Apply(s0, ArmBegin);
      RunNothing(Apply(s1, ArmEnd));
      RunAfter(s1, ArmEnd, []);
      RunAfter(s0, ArmBegin, [ArmEnd]);
      assert [ArmEnd] + [] == [ArmEnd] && [ArmBegin] + [ArmEnd] == before;
    } else {
      RunNothing(s0);
    }
    steps := before + [add];
    StartInv(world);
    RunThen(s0, before, add);
    RunKeeps(s0, steps);
    assert PeerClosed in {PeerClosed};
  }

  // ---------------------------------------------------------------- shared contexts

  /** How many live watches have this callback. */
  function LiveCount(watchers: seq<Watcher>, callback: nat): nat {
    if |watchers| == 0 then 0
    else
      var w := watchers[|watchers| - 1];
      LiveCount(watchers[..|watchers| - 1], callback) + if !w.cancelled && w.callback == callback then 1 else 0
  }

  /** Closing the end collects as many cancellations for a callback as it has live watches. */
  lemma {:induction false} CancellationCount(watchers: seq<Watcher>, callback: nat)
    ensures multiset(Cancellations(watchers))[Firing(callback, NO_SIGNALS, Cancelled)] == LiveCount(watchers, callback)
  {
    if |watchers| > 0 { CancellationCount(watchers[..|watchers| - 1], callback); }
  }

  lemma AllCancelled(watchers: seq<Watcher>, f: Firing)
    requires f in Cancellations(watchers)
    ensures f == Firing(f.callback, NO_SIGNALS, Cancelled)
  {
    CancellationsExact(watchers, f);
  }

  /** What loses a wakeup although, or because, another live trigger has the context: the trigger is
      unfit whatever its context; or its end can be closed while its watch is the only one of that
      context there, and it can be due afterwards while the trap is armed. */
  predicate LosesShared(s: System, t: Trigger)
    requires t.dispatcher < |s.world.ends|
  {
    var end := s.world.ends[t.dispatcher];
    || (s.inner.armed && (end.closed || end.State().Due(t.signals)))
    || (end.closed && !DueForever(end.facts, t.signals))
    || (!end.closed && LiveCount(end.watchers, t.context) == 1
        && (s.inner.armed || (!end.facts.MessageFacts? && !DueForever(end.facts, t.signals))))
  }

  /** In every such state there is a run that loses the wakeup of the trigger just added. */
  lemma SharedContextLoses(s: System, t: Trigger) returns (steps: seq<Step>)
    requires AboutToAdd(s, t) && FindLive(s.inner.triggers, t.context).Some? && LosesShared(s, t)
    ensures CanRun(Finished(s, t), steps) && !AllReady(Run(Finished(s, t), steps))
  {
    hide Inv, CanRun, Run, AllReady, DueForever, SignalsState.Due, Watched.State;
    var end := s.world.ends[t.dispatcher];
    if end.closed || (s.inner.armed && end.State().Due(t.signals)) {
      steps := UnfitSharedLoses(s, t);
    } else {
      steps := WrongOneRemoved(s, t);
    }
  }

  /** With the other trigger removed first, the unfit one is as unfit as with a context of its own. */
  lemma UnfitSharedLoses(s: System, t: Trigger) returns (steps: seq<Step>)
    requires AboutToAdd(s, t) && FindLive(s.inner.triggers, t.context).Some?
    requires var end := s.world.ends[t.dispatcher];
      || (s.inner.armed && (end.closed || end.State().Due(t.signals)))
      || (end.closed && !DueForever(end.facts, t.signals))
    ensures CanRun(Finished(s, t), steps) && !AllReady(Run(Finished(s, t), steps))
  {
    hide Inv, CanRun, Run, AllReady, DueForever, SignalsState.Due, Watched.State;
    var s', step := Apply(s, Remove(t.context)), Remove(t.context);
    StepKeeps(s, step);
    InvParts(s);
    SharedGone(s, t);
    var rest := UnfitLoses(s', t);
    FoundFirst(s.inner.triggers, t);
    assert Apply(Finished(s, t), step) == Finished(s', t) by { RemoveThenAdd(s, t); }
    RunAfter(Finished(s, t), step, rest);
    steps := [step] + rest;
  }

  lemma {:induction false} FoundFirst(ts: seq<Trigger>, t: Trigger)
    requires FindLive(ts, t.context).Some?
    ensures FindLive(ts + [t], t.context) == FindLive(ts, t.context)
  {
    if !Live(ts[0], t.context) {
      assert (ts + [t])[1..] == ts[1..] + [t];
      FoundFirst(ts[1..], t);
    }
  }

  lemma RemoveThenAdd(s: System, t: Trigger)
    requires FindLive(s.inner.triggers, t.context).Some?
    ensures AfterRemove(Finished(s, t), t.context) == Finished(AfterRemove(s, t.context), t)
  {
    FoundFirst(s.inner.triggers, t);
    var i := FindLive(s.inner.triggers, t.context).value;
    assert Removed(Finished(s, t).inner, i).triggers == Removed(s.inner, i).triggers + [t];
  }

  /** The one live trigger of the context is gone. */
  lemma SharedGone(s: System, t: Trigger)
    requires Distinct(s) && FindLive(s.inner.triggers, t.context).Some?
    ensures FindLive(AfterRemove(s, t.context).inner.triggers, t.context).None?
  {
    var ts, i := s.inner.triggers, FindLive(s.inner.triggers, t.context).value;
    var after := AfterRemove(s, t.context).inner.triggers;
    forall k | 0 <= k < |after| ensures !Live(after[k], t.context) {
      if k < i { assert after[k] == ts[k]; } else if k > i { assert after[k] == ts[k]; }
    }
  }

  /** The end as it is once its owner has closed it; a data pipe's falls idle. */
  function Shut(end: Watched): Watched {
    Watched(if end.facts.MessageFacts? then end.facts else Idle(end.facts), true, CancelAll(end.watchers))
  }

  lemma ShutOperates(w: World, e: nat)
    requires e < |w.ends| && !w.ends[e].closed && (w.ends[e].facts.MessageFacts? || !w.ends[e].facts.peerClosed)
    ensures CanOperate(w, w.ends[e := Shut(w.ends[e])], Cancellations(w.ends[e].watchers))
  {
    hide Watched.State, CancelAll, Cancellations;
    var after, fired := w.ends[e := Shut(w.ends[e])], Cancellations(w.ends[e].watchers);
    forall f | f in fired ensures exists k :: 0 <= k < |after| && Collected(w.ends[k], after[k], f) {
      assert Collected(w.ends[e], after[e], f);
    }
    forall k | 0 <= k < |w.ends| ensures Lawful(w.ends[k], after[k], fired) {
      if k != e { SameIsLawful(w.ends[k], fired); }
    }
  }

  /** The trigger's end has been closed, and its cancellation has removed the other trigger of its
      context. */
  ghost predicate Mistaken(s: System, t: Trigger, s2: System) {
    var ts := s.inner.triggers;
    var at := FindLive(ts, t.context);
    && at.Some? && t.dispatcher < |s.world.ends| && AllSilent(s2.world) && s2.arming == s.arming
    && s2.inner == Inner(ts[at.value := ts[at.value].(removed := true)] + [t], s.inner.armed)
    && s2.world.ends == s.world.ends[t.dispatcher := Shut(s.world.ends[t.dispatcher])]
    && NonePending(s2.world, t.context)
  }

  lemma CloseMistaken(s: System, t: Trigger) returns (steps: seq<Step>)
    requires AboutToAdd(s, t) && FindLive(s.inner.triggers, t.context).Some?
    requires var end := s.world.ends[t.dispatcher];
      !end.closed && LiveCount(end.watchers, t.context) == 1 && (end.facts.MessageFacts? || !end.facts.peerClosed)
    ensures CanRun(Finished(s, t), steps) && Mistaken(s, t, Run(Finished(s, t), steps))
  {
    hide CanRun, Run, Inv, Watched.State, CancelAll, Cancellations, Shut, AllSilent, CanOperate, LiveCount, Mistaken;
    var s0, f := Finished(s, t), Firing(t.context, NO_SIGNALS, Cancelled);
    var end := s.world.ends[t.dispatcher];
    var after, fired := s.world.ends[t.dispatcher := Shut(end)], Cancellations(end.watchers);
    InvParts(s);
    ShutOperates(s.world, t.dispatcher);
    OperateSilent(s.world, after, fired);
    var s1 := Apply(s0, PipeOperation(after, fired));
    CancellationCount(end.watchers, t.context);
    OneLeft(s.world.pending, fired, f, end.watchers);
    var s2 := Apply(s1, Call(f));
    CallMistaken(s, t, s1, f);
    TwoSteps(s0, PipeOperation(after, fired), Call(f));
    steps := [PipeOperation(after, fired), Call(f)];
  }

  lemma TwoSteps(s: System, a: Step, b: Step)
    requires Enabled(s, a) && Enabled(Apply(s, a), b)
    ensures CanRun(s, [a, b]) && Run(s, [a, b]) == Apply(Apply(s, a), b)
  {
    hide Enabled, Apply;
    var s1 := Apply(s, a);
    RunNothing(Apply(s1, b));
    RunAfter(s1, b, []);
    assert [b] + [] == [b] && [a] + [b] == [a, b];
    RunAfter(s, a, [b]);
  }

  /** The cancellation is taken for the other trigger's. */
  lemma CallMistaken(s: System, t: Trigger, s1: System, f: Firing)
    requires FindLive(s.inner.triggers, t.context).Some? && t.dispatcher < |s.world.ends|
    requires s1 == Finished(s, t).(world := s1.world) && f == Firing(t.context, NO_SIGNALS, Cancelled)
    requires s1.world.ends == s.world.ends[t.dispatcher := Shut(s.world.ends[t.dispatcher])] && AllSilent(s1.world)
    requires forall g :: g in s1.world.pending - multiset{f} ==> g.callback != t.context
    ensures Mistaken(s, t, AfterCall(s1, f))
  {
    hide Shut, AllSilent;
    FoundFirst(s.inner.triggers, t);
    var i := FindLive(s.inner.triggers, t.context).value;
    assert Removed(s1.inner, i).triggers == Removed(s.inner, i).triggers + [t];
    SameEnds(s1.world, Called(s1.world, f));
  }

  lemma SameEnds(w: World, w': World)
    requires AllSilent(w) && w'.ends == w.ends
    ensures AllSilent(w')
  {
  }

  /** Once the one cancellation for the context has been called, nothing is pending for it. */
  lemma OneLeft(pending: multiset<Firing>, fired: seq<Firing>, f: Firing, watchers: seq<Watcher>)
    requires fired == Cancellations(watchers) && multiset(fired)[f] == 1 && f.kind.Cancelled?
    requires f == Firing(f.callback, NO_SIGNALS, Cancelled)
    requires forall g :: g in pending ==> g.callback != f.callback
    ensures f in pending + multiset(fired)
    ensures forall g :: g in pending + multiset(fired) - multiset{f} ==> g.callback != f.callback
  {
    hide Cancellations;
    forall g | g in pending + multiset(fired) - multiset{f} ensures g.callback != f.callback {
      if g in multiset(fired) {
        assert g in fired;
        AllCancelled(watchers, g);
      }
    }
  }

  lemma WrongOneRemoved(s: System, t: Trigger) returns (steps: seq<Step>)
    requires AboutToAdd(s, t) && FindLive(s.inner.triggers, t.context).Some? && LosesShared(s, t)
    requires var end := s.world.ends[t.dispatcher]; !end.closed && !(s.inner.armed && end.State().Due(t.signals))
    ensures CanRun(Finished(s, t), steps) && !AllReady(Run(Finished(s, t), steps))
  {
    hide Inv, CanRun, Run, AllReady, DueForever, SignalsState.Due, Watched.State, Mistaken;
    var end, s0 := s.world.ends[t.dispatcher], Finished(s, t);
    InvParts(s);
    if !end.facts.MessageFacts? { NotForever(end, t.signals); }
    var first := CloseMistaken(s, t);
    var s2 := Run(s0, first);
    MistakenParts(s, t, s2);
    if end.facts.MessageFacts? {
      ShutMessageDue(end, t.signals);
      steps := first;
      NotReady(s2, t);
    } else {
      var rest := [];
      if !s.inner.armed {
        DueForeverExact(end.facts, t.signals);
        MistakenAlone(s, t, s2);
        rest := ArmAlone(s2, t, 0);
      } else {
        RunNothing(s2);
      }
      RunBoth(s0, first, rest);
      var step := PeerCloses(Run(s2, rest), t);
      RunThen(s0, first + rest, step);
      steps := first + rest + [step];
    }
  }

  lemma NotForever(end: Watched, signals: set<Signal>)
    requires !end.facts.MessageFacts? && (!end.State().Due(signals) || !DueForever(end.facts, signals))
    ensures !DueForever(end.facts, signals) && !end.facts.peerClosed
  {
    if DueForever(end.facts, signals) { DueLater(end.facts, end.facts, signals); }
  }

  lemma ShutMessageDue(end: Watched, signals: set<Signal>)
    requires end.facts.MessageFacts?
    ensures Shut(end).State().Due(signals)
  {
    NoSignalsDue(signals);
  }

  lemma MistakenParts(s: System, t: Trigger, s2: System)
    requires Mistaken(s, t, s2)
    ensures t in s2.inner.triggers && t.dispatcher < |s2.world.ends| && AllSilent(s2.world)
    ensures s2.inner.armed == s.inner.armed && s2.arming == s.arming && NonePending(s2.world, t.context)
    ensures s2.world.ends[t.dispatcher] == Shut(s.world.ends[t.dispatcher]) && Shut(s.world.ends[t.dispatcher]).closed
  {
    assert s2.inner.triggers[|s2.inner.triggers| - 1] == t;
  }

  lemma MistakenAlone(s: System, t: Trigger, s2: System)
    requires Mistaken(s, t, s2) && AboutToAdd(s, t) && !s.inner.armed
    requires !Watched(Idle(s.world.ends[t.dispatcher].facts), true, []).State().Due(t.signals)
    requires !s.world.ends[t.dispatcher].facts.MessageFacts?
    ensures Alone(s2, t, 0) && s2.arming.None?
  {
    hide AllCovered, AllReady, ScanReady, AllSilent, SignalsState.Due;
    var ts, at := s.inner.triggers, FindLive(s.inner.triggers, t.context).value;
    var ts2 := s2.inner.triggers;
    forall j, k | 0 <= j < k < |ts2| && !ts2[j].removed && !ts2[k].removed ensures ts2[j].context != ts2[k].context {
      assert ts2[j] == ts[j] && j != at;
      assert if j < at then ts[j].context != ts[at].context else ts[at].context != ts[j].context;
      if k < |ts| { assert ts2[k] == ts[k]; }
    }
    forall u | u in ts2 ensures u.dispatcher < |s2.world.ends| {
      var k :| 0 <= k < |ts2| && ts2[k] == u;
      if k < |ts| { assert ts[k] in ts; }
    }
  }

  /** Such states are met with: two triggers of one context on two data pipes' ends. */
  lemma SharedReachable() returns (world: World, before: seq<Step>, t: Trigger)
    ensures AllSilent(world) && CanRun(Start(world), before)
    ensures var s := Run(Start(world), before);
      && AboutToAdd(s, t) && FindLive(s.inner.triggers, t.context).Some? && LosesShared(s, t)
      && !s.inner.armed && !s.world.ends[t.dispatcher].closed
  {
    var open := Watched(ConsumerFacts(false, false, false), false, []);
    world := World([open, open], multiset{}, 0);
    var t0 := Trigger(0, 0, {PeerClosed}, 7, false);
    t := Trigger(1, 1, {PeerClosed}, 7, false);
    before := [BeginAdd(0, {PeerClosed}, 7), FinishAdd(t0), BeginAdd(1, {PeerClosed}, 7)];
    hide Inv, CanRun, Run, LosesShared;
    var s0 := Start(world);
    StartInv(world);
    var s1 := Apply(s0, before[0]);
    assert Enabled(s1, before[1]);
    var s2 := Apply(s1, before[1]);
    var s3 := Apply(s2, before[2]);
    assert before == [before[0]] + ([before[1]] + ([before[2]] + []));
    RunNothing(s3);
    RunAfter(s2, before[2], []);
    RunAfter(s1, before[1], [before[2]] + []);
    RunAfter(s0, before[0], [before[1]] + ([before[2]] + []));
    RunKeeps(s0, before);
    OpenLoses(s3, t);
  }

  lemma OpenLoses(s: System, t: Trigger)
    requires t.dispatcher < |s.world.ends| && t.signals == {PeerClosed}
    requires s.world.ends[t.dispatcher] ==
      Watched(ConsumerFacts(false, false, false), false, [Watcher(t.watch, {PeerClosed}, t.context, false)])
    ensures LosesShared(s, t)
  {
    var ws := s.world.ends[t.dispatcher].watchers;
    assert ws[..0] == [] && LiveCount(ws[..0], t.context) == 0;
  }

  lemma {:induction false} RunBoth(s: System, first: seq<Step>, rest: seq<Step>)
    requires CanRun(s, first) && CanRun(Run(s, first), rest)
    ensures CanRun(s, first + rest) && Run(s, first + rest) == Run(Run(s, first), rest)
    decreases |first|
  {
    hide Enabled, Apply;
    if |first| == 0 {
      assert first + rest == rest;
    } else {
      assert (first + rest)[1..] == first[1..] + rest;
      RunBoth(Apply(s, first[0]), first[1..], rest);
    }
  }
}
