/** A trap: triggers that watch endpoints, and one armed flag. What the trap does under its own
    lock is here, as functions of its state and as the object that carries them out. */
module Trap {
  import opened Results
  import opened CoreErrors
  import opened Signals

  datatype Trigger = Trigger(watch: nat, dispatcher: nat, signals: set<Signal>, context: nat, removed: bool)

  datatype EventResult = EventOk | EventFailed | EventCancelled

  datatype TrapEvent = TrapEvent(context: nat, state: SignalsState, result: EventResult)

  /** An event handed to the client, with the trigger it is for. */
  datatype Delivery = Delivery(watch: nat, event: TrapEvent)

  datatype Inner = Inner(triggers: seq<Trigger>, armed: bool)

  predicate Live(t: Trigger, context: nat) {
    !t.removed && t.context == context
  }

  /** The first live trigger with this context. */
  function FindLive(triggers: seq<Trigger>, context: nat): (r: Option<nat>)
    ensures r.Some? ==> r.value < |triggers| && Live(triggers[r.value], context)
    ensures r.None? ==> forall i :: 0 <= i < |triggers| ==> !Live(triggers[i], context)
  {
    if |triggers| == 0 then None
    else if Live(triggers[0], context) then Some(0)
    else
      match FindLive(triggers[1..], context)
      case Some(i) => Some(i + 1)
      case None => None
  }

  function Removed(inner: Inner, i: nat): Inner
    requires i < |inner.triggers|
  {
    inner.(triggers := inner.triggers[i := inner.triggers[i].(removed := true)])
  }

  function CancelEvent(t: Trigger): Delivery {
    Delivery(t.watch, TrapEvent(t.context, NO_SIGNALS, EventCancelled))
  }

  /** The event is the trigger's and says how its state stands to what is watched: that it satisfies
      it; that it does not, or that nothing is watched; or that the trigger is gone. */
  ghost predicate Tells(t: Trigger, d: Delivery) {
    && d.watch == t.watch && d.event.context == t.context
    && match d.event.result
       case EventOk => t.signals != {} && t.signals <= d.event.state.satisfied
       case EventFailed =>
         if t.signals == {} then d.event.state == NO_SIGNALS else !(t.signals <= d.event.state.satisfied)
       case EventCancelled => d.event.state == NO_SIGNALS
  }

  /** And it fails only what can no longer be satisfied. */
  ghost predicate TellsTruly(t: Trigger, d: Delivery) {
    && Tells(t, d)
    && (d.event.result.EventFailed? && t.signals != {} ==> !(t.signals <= d.event.state.satisfiable))
  }

  /** What arming reports for one trigger when its endpoint answers `state`: nothing only if it
      watches something that is neither satisfied nor unsatisfiable. */
  function Blocking(t: Trigger, state: SignalsState): (r: seq<Delivery>)
    ensures r == [] <==> t.removed || (t.signals != {} && !state.Due(t.signals))
    ensures |r| <= 1 && forall d :: d in r ==> !t.removed && d.watch == t.watch && !d.event.result.EventCancelled?
    ensures forall d :: d in r ==> TellsTruly(t, d) && (t.signals != {} ==> d.event.state == state)
  {
    if t.removed then []
    else if t.signals == {} then [Delivery(t.watch, TrapEvent(t.context, NO_SIGNALS, EventFailed))]
    else if state.IsSatisfied(t.signals) then [Delivery(t.watch, TrapEvent(t.context, state, EventOk))]
    else if state.IsUnsatisfiable(t.signals) then [Delivery(t.watch, TrapEvent(t.context, state, EventFailed))]
    else []
  }

  /** What arming reports for the first `n` triggers, each endpoint answering `states`. */
  function Scan(triggers: seq<Trigger>, states: seq<SignalsState>, n: nat): seq<Delivery>
    requires n <= |triggers| && |states| == |triggers|
  {
    if n == 0 then [] else Scan(triggers, states, n - 1) + Blocking(triggers[n - 1], states[n - 1])
  }

  /** Arming succeeds exactly when every live trigger watches something and none is due. */
  lemma {:induction false} ScanExact(triggers: seq<Trigger>, states: seq<SignalsState>, n: nat)
    requires n <= |triggers| && |states| == |triggers|
    ensures Scan(triggers, states, n) == [] <==>
      forall i :: 0 <= i < n && !triggers[i].removed ==>
        triggers[i].signals != {} && !states[i].Due(triggers[i].signals)
  {
    hide SignalsState.Due, Blocking;
    if n > 0 {
      ScanExact(triggers, states, n - 1);
      var rest, last := Scan(triggers, states, n - 1), Blocking(triggers[n - 1], states[n - 1]);
      assert rest + last == [] <==> rest == [] && last == [];
    }
  }

  /** A true event for a live trigger, about the state its endpoint answered. */
  ghost predicate Reports(t: Trigger, state: SignalsState, d: Delivery) {
    !t.removed && TellsTruly(t, d) && (t.signals != {} ==> d.event.state == state)
  }

  predicate InTheWay(t: Trigger, state: SignalsState) {
    !t.removed && (t.signals == {} || state.Due(t.signals))
  }

  lemma BlockingReports(t: Trigger, state: SignalsState)
    ensures Blocking(t, state) != [] <==> InTheWay(t, state)
    ensures forall d :: d in Blocking(t, state) ==> Reports(t, state, d)
  {
  }

  /** What an arm that fails reports: true events for the live triggers in the way, and one for each
      of them. */
  lemma {:induction false} ScanTells(triggers: seq<Trigger>, states: seq<SignalsState>, n: nat)
    requires n <= |triggers| && |states| == |triggers|
    ensures forall d :: d in Scan(triggers, states, n) ==>
      exists i :: 0 <= i < n && Reports(triggers[i], states[i], d)
    ensures forall i :: 0 <= i < n && InTheWay(triggers[i], states[i]) ==>
      exists d :: d in Scan(triggers, states, n) && Reports(triggers[i], states[i], d)
  {
    hide Blocking, Reports, InTheWay;
    if n > 0 {
      ScanTells(triggers, states, n - 1);
      BlockingReports(triggers[n - 1], states[n - 1]);
      var rest, last := Scan(triggers, states, n - 1), Blocking(triggers[n - 1], states[n - 1]);
      forall d | d in rest + last ensures exists i :: 0 <= i < n && Reports(triggers[i], states[i], d) {
        if d in last { assert Reports(triggers[n - 1], states[n - 1], d); }
      }
      forall i | 0 <= i < n && InTheWay(triggers[i], states[i])
        ensures exists d :: d in rest + last && Reports(triggers[i], states[i], d)
      {
        if i == n - 1 {
          assert last[0] in rest + last && Reports(triggers[i], states[i], last[0]);
        } else {
          var d :| d in rest && Reports(triggers[i], states[i], d);
          assert d in rest + last;
        }
      }
    }
  }

  /** A callback for `f.callback` reaches the trap. A change disarms an armed trap and tells the
      trigger; a cancellation removes the trigger and tells it, armed or not. */
  function OnWatch(inner: Inner, f: Firing): (Inner, seq<Delivery>) {
    match FindLive(inner.triggers, f.callback)
    case None => (inner, [])
    case Some(i) =>
      var t := inner.triggers[i];
      match f.kind
      case Cancelled => (Removed(inner, i), [CancelEvent(t)])
      case Changed =>
        if !inner.armed then (inner, [])
        else
          (inner.(armed := false),
           [Delivery(t.watch,
             TrapEvent(t.context, f.state, if f.state.IsSatisfied(t.signals) then EventOk else EventFailed))])
  }

  function LiveOnes(triggers: seq<Trigger>): (r: seq<Trigger>)
    ensures forall t :: t in r <==> t in triggers && !t.removed
  {
    if |triggers| == 0 then []
    else
      var last := triggers[|triggers| - 1];
      assert triggers == triggers[..|triggers| - 1] + [last];
      LiveOnes(triggers[..|triggers| - 1]) + if last.removed then [] else [last]
  }

  function CancelEvents(triggers: seq<Trigger>): (r: seq<Delivery>)
    ensures |r| == |triggers| && forall i :: 0 <= i < |r| ==> r[i] == CancelEvent(triggers[i])
  {
    seq(|triggers|, i requires 0 <= i < |triggers| => CancelEvent(triggers[i]))
  }

  /** The trap object. `log` is every event it has decided on, in the order its lock was held. */
  class Trap {
    var triggers: seq<Trigger>
    var armed: bool
    ghost var log: seq<Delivery>

    function State(): Inner
      reads this
    {
      Inner(triggers, armed)
    }

    constructor ()
      ensures State() == Inner([], false) && log == []
    {
      triggers, armed, log := [], false, [];
    }

    /** The second half of adding a trigger, its watch already registered. */
    method AddTrigger(t: Trigger)
      modifies this`triggers
      ensures triggers == old(triggers) + [t]
    {
      triggers := triggers + [t];
    }

    method Position(context: nat) returns (at: Option<nat>)
      ensures at == FindLive(triggers, context)
    {
      at := None;
      for i := |triggers| downto 0
        invariant at == match FindLive(triggers[i..], context) case Some(k) => Some(i + k) case None => None
      {
        assert triggers[i..][1..] == triggers[i + 1..];
        if Live(triggers[i], context) { at := Some(i); }
      }
      assert triggers[0..] == triggers;
    }

    /** Remove a trigger by context; the watch returned is then cancelled and the event sent. */
    method RemoveTrigger(context: nat) returns (r: Result<Trigger, CoreError>, events: seq<Delivery>)
      modifies this
      ensures var at := FindLive(old(triggers), context);
        && r == (if at.None? then Err(NotFound) else Ok(old(triggers)[at.value]))
        && State() == (if at.None? then old(State()) else Removed(old(State()), at.value))
        && events == (if at.None? then [] else [CancelEvent(old(triggers)[at.value])])
      ensures log == old(log) + events
    {
      var at := Position(context);
      match at {
        case None => return Err(NotFound), [];
        case Some(i) =>
          var t := triggers[i];
          triggers := triggers[i := t.(removed := true)];
          events := [CancelEvent(t)];
          log := log + events;
          return Ok(t), events;
      }
    }

    /** Arm the trap, `states` being what each endpoint answers when it is asked. */
    method Arm(states: seq<SignalsState>) returns (r: Result<(), CoreError>, events: seq<Delivery>)
      requires |states| == |triggers|
      modifies this
      ensures triggers == old(triggers) && log == old(log) + events
      ensures events == if old(armed) then [] else Scan(triggers, states, |triggers|)
      ensures armed == (old(armed) || events == [])
      ensures r == if armed then Ok(()) else Err(FailedPrecondition)
      ensures forall d :: d in events ==> exists i :: 0 <= i < |triggers| && Reports(triggers[i], states[i], d)
      ensures forall i :: 0 <= i < |triggers| && !old(armed) && InTheWay(triggers[i], states[i]) ==>
        exists d :: d in events && Reports(triggers[i], states[i], d)
    {
      hide Blocking, Reports, InTheWay;
      events := [];
      if armed { return Ok(()), []; }
      for i := 0 to |triggers|
        invariant triggers == old(triggers) && log == old(log) && !armed
        invariant events == Scan(triggers, states, i)
      {
        assert Scan(triggers, states, i + 1) == Scan(triggers, states, i) + Blocking(triggers[i], states[i]);
        events := events + Blocking(triggers[i], states[i]);
      }
      ScanTells(triggers, states, |triggers|);
      if events != [] {
        log := log + events;
        return Err(FailedPrecondition), events;
      }
      armed := true;
      return Ok(()), [];
    }

    /** A watch callback reaches the trap. */
    method HandleWatch(f: Firing) returns (events: seq<Delivery>)
      modifies this
      ensures (State(), events) == OnWatch(old(State()), f)
      ensures log == old(log) + events
      ensures var at := FindLive(old(triggers), f.callback);
        if at.Some? && (f.kind.Cancelled? || old(armed)) then
          var t := old(triggers)[at.value];
          && |events| == 1 && events[0].watch == t.watch && events[0].event.context == t.context
          && events[0].event.state == (if f.kind.Cancelled? then NO_SIGNALS else f.state)
          && (events[0].event.result.EventCancelled? <==> f.kind.Cancelled?)
          && (events[0].event.result.EventOk? <==> f.kind.Changed? && t.signals <= f.state.satisfied)
        else events == []
    {
      events := [];
      if f.kind.Changed? && !armed { return; }
      var at := Position(f.callback);
      if at.None? { return; }
      var t := triggers[at.value];
      match f.kind {
        case Cancelled =>
          triggers := triggers[at.value := t.(removed := true)];
          events := [CancelEvent(t)];
        case Changed =>
          armed := false;
          events := [Delivery(t.watch,
            TrapEvent(t.context, f.state, if f.state.IsSatisfied(t.signals) then EventOk else EventFailed))];
      }
      log := log + events;
    }

    /** Close the trap: its live triggers are drained, to be cancelled and told one by one. */
    method Close() returns (drained: seq<Trigger>, events: seq<Delivery>)
      modifies this
      ensures drained == LiveOnes(old(triggers)) && events == CancelEvents(drained)
      ensures State() == Inner([], old(armed)) && log == old(log) + events
    {
      drained, events := [], [];
      for i := 0 to |triggers|
        invariant triggers == old(triggers) && armed == old(armed) && log == old(log)
        invariant drained == LiveOnes(triggers[..i]) && events == CancelEvents(drained)
      {
        assert triggers[..i + 1][..i] == triggers[..i];
        if !triggers[i].removed {
          drained, events := drained + [triggers[i]], events + [CancelEvent(triggers[i])];
        }
      }
      assert triggers[..|triggers|] == triggers;
      triggers, log := [], log + events;
    }
  }
}
