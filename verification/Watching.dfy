/** Endpoints, the watches on them and the callbacks collected but not yet called: the part of
    the world that traps and waiters share. A callback is collected under a pipe's lock and
    called at some later time, in any order. */
module Watching {
  import opened Signals

  datatype World = World(ends: seq<Watched>, pending: multiset<Firing>, nextWatch: nat)

  /** No live watch stands on a closed end. */
  ghost predicate AllSilent(w: World) {
    forall e :: 0 <= e < |w.ends| ==> w.ends[e].Silent()
  }

  // ---------------------------------------------------------------- steps

  /** One pipe operation: any of the endpoints may change, each lawfully. */
  ghost predicate CanOperate(w: World, after: seq<Watched>, fired: seq<Firing>) {
    AllLawful(w.ends, after, fired)
  }

  /** What a pipe's operations promise of its two ends is a step of any world that has them. */
  lemma PipeOperates(w: World, i: nat, j: nat, after: seq<Watched>, fired: seq<Firing>)
    requires i < |w.ends| && j < |w.ends| && i != j && AllLawful([w.ends[i], w.ends[j]], after, fired)
    ensures CanOperate(w, w.ends[i := after[0]][j := after[1]], fired)
  {
    var ends, two := w.ends[i := after[0]][j := after[1]], [w.ends[i], w.ends[j]];
    forall f | f in fired ensures exists e :: 0 <= e < |ends| && Collected(w.ends[e], ends[e], f) {
      var k :| 0 <= k < 2 && Collected(two[k], after[k], f);
      var e := if k == 0 then i else j;
      assert Collected(w.ends[e], ends[e], f);
    }
    assert Lawful([w.ends[i], w.ends[j]][0], after[0], fired) && Lawful([w.ends[i], w.ends[j]][1], after[1], fired);
    forall e | 0 <= e < |w.ends| ensures Lawful(w.ends[e], ends[e], fired) {
      if e != i && e != j { SameIsLawful(w.ends[e], fired); }
    }
  }

  function Operate(w: World, after: seq<Watched>, fired: seq<Firing>): World {
    w.(ends := after, pending := w.pending + multiset(fired))
  }

  /** Register a watch under the next id; on a closed end the watch is dropped. */
  function StartWatch(w: World, e: nat, signals: set<Signal>, callback: nat): World
    requires e < |w.ends|
  {
    var end := w.ends[e];
    var watchers := if end.closed then end.watchers
      else end.watchers + [Watcher(w.nextWatch, signals, callback, false)];
    w.(ends := w.ends[e := end.(watchers := watchers)], nextWatch := w.nextWatch + 1)
  }

  function CancelWatch(w: World, e: nat, id: nat): World
    requires e < |w.ends|
  {
    w.(ends := w.ends[e := w.ends[e].(watchers := CancelOne(w.ends[e].watchers, id))])
  }

  /** One pending callback is called. */
  function Called(w: World, f: Firing): World {
    w.(pending := w.pending - multiset{f})
  }

  // ---------------------------------------------------------------- what a watch is owed

  /** The watch stands, or its end has been closed: then its cancellation is still pending, or
      it is due already and will stay due. */
  ghost predicate Covered(w: World, e: nat, id: nat, signals: set<Signal>, callback: nat) {
    && e < |w.ends|
    && if !w.ends[e].closed then Watcher(id, signals, callback, false) in w.ends[e].watchers
       else DueForever(w.ends[e].facts, signals) || Firing(callback, NO_SIGNALS, Cancelled) in w.pending
  }

  ghost predicate Answered(w: World, e: nat, callback: nat)
    requires e < |w.ends|
  {
    || (exists state :: Firing(callback, state, Changed) in w.pending)
    || (w.ends[e].closed && Firing(callback, NO_SIGNALS, Cancelled) in w.pending)
  }

  /** If the watch is due, a callback for it is on its way. */
  ghost predicate Owed(w: World, e: nat, signals: set<Signal>, callback: nat)
    requires e < |w.ends|
  {
    w.ends[e].State().Due(signals) ==> Answered(w, e, callback)
  }

  /** No pipe operation loses a callback that is owed. */
  lemma OperateKeeps(w: World, after: seq<Watched>, fired: seq<Firing>, e: nat, id: nat, signals: set<Signal>,
      callback: nat)
    requires CanOperate(w, after, fired) && Covered(w, e, id, signals, callback)
    ensures Covered(Operate(w, after, fired), e, id, signals, callback)
    ensures Owed(w, e, signals, callback) ==> Owed(Operate(w, after, fired), e, signals, callback)
  {
    hide SignalsState.Due, Watched.State, CancelAll, Cancellations, DueForever;
    var a, b := w.ends[e], after[e];
    assert Lawful(a, b, fired);
    if !a.closed && b.closed {
      CancellationsExact(a.watchers, Firing(callback, NO_SIGNALS, Cancelled));
      assert Firing(callback, NO_SIGNALS, Cancelled) in fired;
      assert Firing(callback, NO_SIGNALS, Cancelled) in multiset(fired);
    } else if !a.closed && !a.State().Due(signals) && b.State().Due(signals) {
      assert Firing(callback, b.State(), Changed) in fired;
      assert Firing(callback, b.State(), Changed) in multiset(fired);
    } else if a.closed && DueForever(a.facts, signals) {
      StaysDue(a, b, signals);
    }
  }

  lemma StaysDue(a: Watched, b: Watched, signals: set<Signal>)
    requires a.closed && b.closed && DueForever(a.facts, signals) && Later(a.facts, b.facts)
    ensures DueForever(b.facts, signals) && a.State().Due(signals)
  {
    DueLater(a.facts, a.facts, signals);
    assert Watched(a.facts, true, []).State() == a.State();
  }

  lemma OperateSilent(w: World, after: seq<Watched>, fired: seq<Firing>)
    requires AllSilent(w) && CanOperate(w, after, fired)
    ensures AllSilent(Operate(w, after, fired))
  {
    hide Notified, Cancellations, Watched.State;
    forall e | 0 <= e < |after| ensures after[e].Silent() {
      assert Lawful(w.ends[e], after[e], fired) && w.ends[e].Silent();
    }
  }

  lemma StartSilent(w: World, e: nat, signals: set<Signal>, callback: nat)
    requires AllSilent(w) && e < |w.ends|
    ensures AllSilent(StartWatch(w, e, signals, callback))
  {
  }

  lemma StartKeeps(w: World, e1: nat, s1: set<Signal>, c1: nat, e: nat, id: nat, signals: set<Signal>, callback: nat)
    requires e1 < |w.ends| && Covered(w, e, id, signals, callback)
    ensures Covered(StartWatch(w, e1, s1, c1), e, id, signals, callback)
    ensures Owed(w, e, signals, callback) ==> Owed(StartWatch(w, e1, s1, c1), e, signals, callback)
  {
    hide SignalsState.Due, MessageState, ConsumerState, ProducerState, DueForever;
  }

  lemma CancelSilent(w: World, e: nat, id: nat)
    requires AllSilent(w) && e < |w.ends|
    ensures AllSilent(CancelWatch(w, e, id))
    ensures |CancelWatch(w, e, id).ends| == |w.ends| && CancelWatch(w, e, id).nextWatch == w.nextWatch
  {
    var a, b := w.ends[e], CancelWatch(w, e, id).ends[e];
    assert a.Silent();
    if b.closed {
      forall v | v in b.watchers ensures v.cancelled {
        var k :| 0 <= k < |b.watchers| && b.watchers[k] == v;
        assert a.watchers[k] in a.watchers;
      }
    }
  }

  lemma CancelKeeps(w: World, e1: nat, id1: nat, e: nat, id: nat, signals: set<Signal>, callback: nat)
    requires e1 < |w.ends| && id1 != id && Covered(w, e, id, signals, callback)
    ensures Covered(CancelWatch(w, e1, id1), e, id, signals, callback)
    ensures Owed(w, e, signals, callback) ==> Owed(CancelWatch(w, e1, id1), e, signals, callback)
  {
    hide SignalsState.Due, MessageState, ConsumerState, ProducerState, DueForever;
    if e1 == e && !w.ends[e].closed {
      var k :| 0 <= k < |w.ends[e].watchers| && w.ends[e].watchers[k] == Watcher(id, signals, callback, false);
      assert CancelOne(w.ends[e].watchers, id1)[k] == w.ends[e].watchers[k];
    }
  }

  /** Calling one client's callback takes nothing from another. */
  lemma CalledKeeps(w: World, f: Firing, e: nat, id: nat, signals: set<Signal>, callback: nat)
    requires f.callback != callback && Covered(w, e, id, signals, callback)
    ensures Covered(Called(w, f), e, id, signals, callback)
    ensures Owed(w, e, signals, callback) ==> Owed(Called(w, f), e, signals, callback)
  {
    hide SignalsState.Due, MessageState, ConsumerState, ProducerState, DueForever;
    forall g: Firing | g in w.pending && g.callback == callback ensures g in Called(w, f).pending {
    }
  }

  /** Calling a Changed callback leaves every watch covered. */
  lemma ChangedKeeps(w: World, f: Firing, e: nat, id: nat, signals: set<Signal>, callback: nat)
    requires f.kind.Changed? && Covered(w, e, id, signals, callback)
    ensures Covered(Called(w, f), e, id, signals, callback)
  {
  }
}
