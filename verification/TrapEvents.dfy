/** What a trap tells its client, in the order the trap's lock decides it: each change disarms
    it once, and each trigger is cancelled once and then silent. */
module TrapEvents {
  import opened Results
  import opened Signals
  import opened Watching
  import opened Trap
  import opened TrapRuns

  /** A cancellation is the last event of its trigger. */
  ghost predicate LastWords(log: seq<Delivery>) {
    forall i, j :: 0 <= i < j < |log| && log[i].event.result.EventCancelled? ==> log[j].watch != log[i].watch
  }

  ghost predicate CancelledIn(log: seq<Delivery>, watch: nat) {
    exists d :: d in log && d.watch == watch && d.event.result.EventCancelled?
  }

  ghost predicate LiveWatch(ts: seq<Trigger>, watch: nat) {
    exists t :: t in ts && !t.removed && t.watch == watch
  }

  function One(b: bool): nat {
    if b then 1 else 0
  }

  /** Every trigger there has been is either live or has been sent its cancellation. */
  ghost predicate Told(s: System) {
    && LastWords(s.log)
    && (forall d :: d in s.log ==> d.watch in s.known)
    && (forall t :: t in s.inner.triggers ==> t.watch in s.known)
    && (forall t :: t in s.started ==> t.watch !in s.known)
    && (forall id :: id in s.known ==> id < s.world.nextWatch)
    && (forall id :: id in s.known ==> (LiveWatch(s.inner.triggers, id) <==> !CancelledIn(s.log, id)))
    && (s.arming.Some? ==> !s.inner.armed && forall d :: d in s.arming.value.blocking ==>
          !d.event.result.EventCancelled? && LiveWatch(s.inner.triggers, d.watch))
  }

  /** Armed is what successful arms have put in and changes have taken out. */
  ghost predicate Balanced(s: System) {
    s.changes + One(s.inner.armed) == s.arms
  }

  // ---------------------------------------------------------------- appending to the log

  lemma AppendWords(log: seq<Delivery>, more: seq<Delivery>)
    requires LastWords(log) && LastWords(more)
    requires forall d :: d in more ==> !CancelledIn(log, d.watch)
    ensures LastWords(log + more)
    ensures forall id :: CancelledIn(log + more, id) <==> CancelledIn(log, id) || CancelledIn(more, id)
  {
    var all := log + more;
    forall i, j | 0 <= i < j < |all| && all[i].event.result.EventCancelled?
      ensures all[j].watch != all[i].watch
    {
      if i < |log| <= j {
        assert log[i] in log && all[j] in more;
        assert CancelledIn(log, log[i].watch);
      } else if |log| <= i {
        assert all[i] == more[i - |log|] && all[j] == more[j - |log|];
      }
    }
  }

  /** Events that are no cancellations, for live triggers. */
  lemma AppendLive(s: System, more: seq<Delivery>)
    requires Told(s) && s.arming.None?
    requires forall d :: d in more ==> !d.event.result.EventCancelled? && LiveWatch(s.inner.triggers, d.watch)
    ensures Told(s.(log := s.log + more))
  {
    forall d | d in more ensures !CancelledIn(s.log, d.watch) && d.watch in s.known {
      var t :| t in s.inner.triggers && !t.removed && t.watch == d.watch;
    }
    hide LastWords, LiveWatch;
    assert LastWords(more) by { NoWords(more); }
    AppendWords(s.log, more);
  }

  lemma NoWords(more: seq<Delivery>)
    requires forall d :: d in more ==> !d.event.result.EventCancelled?
    ensures LastWords(more)
  {
  }

  /** Trigger `i` goes and its cancellation is sent. */
  lemma AppendCancel(s: System, i: nat, toCancel: set<(nat, nat)>)
    requires Told(s) && Distinct(s) && s.arming.None? && i < |s.inner.triggers| && !s.inner.triggers[i].removed
    ensures Told(s.(inner := Removed(s.inner, i), toCancel := toCancel,
      log := s.log + [CancelEvent(s.inner.triggers[i])]))
  {
    var t, inner := s.inner.triggers[i], Removed(s.inner, i);
    var more := [CancelEvent(t)];
    assert t in s.inner.triggers;
    assert LiveWatch(s.inner.triggers, t.watch);
    AppendWords(s.log, more);
    forall id ensures CancelledIn(more, id) <==> id == t.watch {
      assert CancelEvent(t) in more;
    }
    forall id ensures LiveWatch(inner.triggers, id) <==> LiveWatch(s.inner.triggers, id) && id != t.watch {
      OthersLive(s, i, id);
    }
    forall u | u in inner.triggers ensures u.watch in s.known {
      var k :| 0 <= k < |inner.triggers| && inner.triggers[k] == u;
      assert s.inner.triggers[k] in s.inner.triggers;
    }
  }

  lemma OthersLive(s: System, i: nat, id: nat)
    requires Distinct(s) && i < |s.inner.triggers| && !s.inner.triggers[i].removed
    ensures LiveWatch(Removed(s.inner, i).triggers, id) <==>
      LiveWatch(s.inner.triggers, id) && id != s.inner.triggers[i].watch
  {
    var ts, ts' := s.inner.triggers, Removed(s.inner, i).triggers;
    if LiveWatch(ts', id) {
      var t :| t in ts' && !t.removed && t.watch == id;
      RemovedLive(s, i, t);
    }
    if LiveWatch(ts, id) && id != ts[i].watch {
      var t :| t in ts && !t.removed && t.watch == id;
      var k :| 0 <= k < |ts| && ts[k] == t;
      assert ts'[k] == t;
    }
  }

  ghost predicate DistinctWatches(ts: seq<Trigger>) {
    forall i, j :: 0 <= i < j < |ts| ==> ts[i].watch != ts[j].watch
  }

  lemma {:induction false} LiveOnesDistinct(ts: seq<Trigger>)
    requires DistinctWatches(ts)
    ensures DistinctWatches(LiveOnes(ts))
  {
    if |ts| > 0 {
      var init, last := ts[..|ts| - 1], ts[|ts| - 1];
      LiveOnesDistinct(init);
      var r, before := LiveOnes(ts), LiveOnes(init);
      assert r == before + if last.removed then [] else [last];
      forall i, j | 0 <= i < j < |r| ensures r[i].watch != r[j].watch {
        if j == |before| {
          assert before[i] in init;
          var k :| 0 <= k < |init| && init[k] == before[i];
          assert ts[k] == r[i] && ts[|ts| - 1] == r[j];
        } else {
          assert r[i] == before[i] && r[j] == before[j];
        }
      }
    }
  }

  /** Closing sends each live trigger its one cancellation. */
  lemma LiveOnesTold(ts: seq<Trigger>)
    requires DistinctWatches(ts)
    ensures LastWords(CancelEvents(LiveOnes(ts)))
    ensures forall id :: CancelledIn(CancelEvents(LiveOnes(ts)), id) <==> LiveWatch(ts, id)
    ensures forall d :: d in CancelEvents(LiveOnes(ts)) ==> LiveWatch(ts, d.watch)
  {
    LiveOnesDistinct(ts);
    var live := LiveOnes(ts);
    var more := CancelEvents(live);
    forall d | d in more ensures d.event.result.EventCancelled? && LiveWatch(ts, d.watch) {
      var k :| 0 <= k < |more| && more[k] == d;
      assert live[k] in live;
    }
    forall id | LiveWatch(ts, id) ensures CancelledIn(more, id) {
      var t :| t in ts && !t.removed && t.watch == id;
      assert t in live;
      var k :| 0 <= k < |live| && live[k] == t;
      assert more[k] in more;
    }
  }

  // ---------------------------------------------------------------- each step

  lemma CloseTold(s: System)
    requires Told(s) && Distinct(s) && s.arming.None?
    ensures Told(AfterClose(s))
  {
    var more := CancelEvents(LiveOnes(s.inner.triggers));
    LiveOnesTold(s.inner.triggers);
    hide LastWords, CancelledIn, CancelEvents, LiveOnes, Distinct;
    forall d | d in more ensures d.watch in s.known && !CancelledIn(s.log, d.watch) {
      var t :| t in s.inner.triggers && !t.removed && t.watch == d.watch;
    }
    forall id | LiveWatch(s.inner.triggers, id) ensures id in s.known {
      var t :| t in s.inner.triggers && !t.removed && t.watch == id;
    }
    AppendWords(s.log, more);
    forall id ensures !LiveWatch([], id) { NoneLiveIn(id); }
  }

  lemma NoneLiveIn(id: nat)
    ensures !LiveWatch([], id)
  {
  }

  lemma FinishTold(s: System, t: Trigger)
    requires Told(s) && Distinct(s) && t in s.started && s.arming.None?
    ensures Told(Finished(s, t))
  {
    var ts, ts' := s.inner.triggers, s.inner.triggers + [t];
    forall id ensures LiveWatch(ts', id) <==> LiveWatch(ts, id) || id == t.watch {
      if LiveWatch(ts, id) {
        var u :| u in ts && !u.removed && u.watch == id;
        assert u in ts';
      }
      assert t in ts';
    }
  }

  lemma AskTold(s: System)
    requires Told(s) && Enabled(s, ArmAsk)
    ensures Told(AfterAsk(s))
  {
    hide LastWords, CancelledIn, Blocking, SignalsState.Due;
    var t := s.inner.triggers[s.arming.value.next];
    assert t in s.inner.triggers;
  }

  lemma CallTold(s: System, f: Firing)
    requires Told(s) && Distinct(s) && Balanced(s) && s.arming.None?
    ensures Told(AfterCall(s, f)) && Balanced(AfterCall(s, f))
  {
    hide LastWords, CancelledIn, Told, Distinct, LiveWatch;
    var at := FindLive(s.inner.triggers, f.callback);
    var (inner, events) := OnWatch(s.inner, f);
    WorldTold(s, Called(s.world, f));
    var s1 := s.(world := Called(s.world, f));
    if at.Some? && f.kind.Cancelled? {
      AppendCancel(s, at.value, s.toCancel);
      WorldTold(s.(inner := inner, log := s.log + events), Called(s.world, f));
    } else if at.Some? && s.inner.armed {
      var t := s.inner.triggers[at.value];
      LiveIs(s.inner.triggers, at.value);
      AppendLive(s1, events);
      DisarmTold(s1.(log := s.log + events));
    } else {
      assert s.log + events == s.log;
    }
  }

  lemma LiveIs(ts: seq<Trigger>, i: nat)
    requires i < |ts| && !ts[i].removed
    ensures LiveWatch(ts, ts[i].watch)
  {
    assert ts[i] in ts;
  }

  lemma WorldTold(s: System, w: World)
    requires Told(s) && w.nextWatch >= s.world.nextWatch
    ensures Told(s.(world := w))
  {
    hide LastWords, CancelledIn, LiveWatch;
  }

  lemma DisarmTold(s: System)
    requires Told(s)
    ensures forall n: nat :: Told(s.(inner := s.inner.(armed := false), changes := n))
  {
    hide LastWords, CancelledIn, LiveWatch;
  }

  lemma QuietTold(s: System, step: Step)
    requires Told(s) && Enabled(s, step)
    requires step.PipeOperation? || step.BeginAdd? || step.Unwatch? || step.ArmBegin?
    ensures Told(Apply(s, step))
  {
    hide LastWords, CancelledIn, LiveWatch, CanOperate, CancelOne;
  }

  lemma ArmEndTold(s: System)
    requires Told(s) && Balanced(s) && Enabled(s, ArmEnd)
    ensures Told(AfterArm(s)) && Balanced(AfterArm(s))
  {
    hide LastWords, CancelledIn, LiveWatch;
    AppendLive(s.(arming := None), s.arming.value.blocking);
  }

  lemma StepTold(s: System, step: Step)
    requires Inv(s) && Told(s) && Balanced(s) && Enabled(s, step)
    ensures Told(Apply(s, step)) && Balanced(Apply(s, step))
  {
    DistinctOf(s);
    hide Inv, Told, Distinct, CanOperate, Removed;
    match step
    case FinishAdd(t) => FinishTold(s, t);
    case Remove(context) =>
      var at := FindLive(s.inner.triggers, context);
      if at.Some? {
        var t := s.inner.triggers[at.value];
        AppendCancel(s, at.value, s.toCancel + {(t.dispatcher, t.watch)});
        RemovedArmed(s.inner, at.value);
      }
    case ArmAsk => AskTold(s);
    case ArmEnd => ArmEndTold(s);
    case Call(f) => CallTold(s, f);
    case CloseTrap => CloseTold(s);
    case _ => QuietTold(s, step);
  }

  lemma RemovedArmed(inner: Inner, i: nat)
    requires i < |inner.triggers|
    ensures Removed(inner, i).armed == inner.armed
  {
  }

  lemma {:induction false} RunTold(s: System, steps: seq<Step>)
    requires Inv(s) && Told(s) && Balanced(s) && CanRun(s, steps)
    ensures Inv(Run(s, steps)) && Told(Run(s, steps)) && Balanced(Run(s, steps))
    decreases |steps|
  {
    hide Inv, Told, Balanced, Enabled, Apply;
    if |steps| > 0 {
      StepKeeps(s, steps[0]);
      StepTold(s, steps[0]);
      RunTold(Apply(s, steps[0]), steps[1..]);
    }
  }

  /** Event accounting over every run: armed is successful arms less changes delivered, and each
      trigger is live or has been sent exactly one cancellation, after which it hears nothing. */
  lemma EventAccounting(world: World, steps: seq<Step>)
    requires AllSilent(world) && CanRun(Start(world), steps)
    ensures var s := Run(Start(world), steps);
      && One(s.inner.armed) == s.arms - s.changes
      && LastWords(s.log)
      && (forall id :: id in s.known ==> (LiveWatch(s.inner.triggers, id) <==> !CancelledIn(s.log, id)))
      && (forall d :: d in s.log ==> d.watch in s.known)
  {
    StartInv(world);
    RunTold(Start(world), steps);
  }
}
