/** Signals, what it means for a watch on them to be due, and the notification law every
    pipe operation keeps. */
module Signals {

  datatype Signal = Readable | Writable | PeerClosed | NewDataReadable | PeerRemote | QuotaExceeded

  // ---------------------------------------------------------------- masks

  /** The signals of a mask. Everything else speaks of sets; these two lemmas say that a mask
      operation is the set operation. */
  function SetOf(mask: bv6): set<Signal> {
    (if mask & 1 != 0 then {Readable} else {}) + (if mask & 2 != 0 then {Writable} else {})
    + (if mask & 4 != 0 then {PeerClosed} else {}) + (if mask & 8 != 0 then {NewDataReadable} else {})
    + (if mask & 16 != 0 then {PeerRemote} else {}) + (if mask & 32 != 0 then {QuotaExceeded} else {})
  }

  function Flag(s: Signal): bv6 {
    match s
    case Readable => 1
    case Writable => 2
    case PeerClosed => 4
    case NewDataReadable => 8
    case PeerRemote => 16
    case QuotaExceeded => 32
  }

  lemma FlagInSet(mask: bv6, s: Signal)
    ensures s in SetOf(mask) <==> mask & Flag(s) != 0
  {
  }

  lemma MaskParts(a: bv6, b: bv6)
    ensures a & b == b <==>
      (b & 1 != 0 ==> a & 1 != 0) && (b & 2 != 0 ==> a & 2 != 0) && (b & 4 != 0 ==> a & 4 != 0) &&
      (b & 8 != 0 ==> a & 8 != 0) && (b & 16 != 0 ==> a & 16 != 0) && (b & 32 != 0 ==> a & 32 != 0)
  {
  }

  /** One mask contains another exactly when its signals include the other's. */
  lemma MaskContains(a: bv6, b: bv6)
    ensures a & b == b <==> SetOf(b) <= SetOf(a)
  {
    hide SetOf;
    MaskParts(a, b);
    forall s: Signal ensures s in SetOf(a) <==> a & Flag(s) != 0 { FlagInSet(a, s); }
    forall s: Signal ensures s in SetOf(b) <==> b & Flag(s) != 0 { FlagInSet(b, s); }
    FlagParts(a, b);
  }

  lemma FlagParts(a: bv6, b: bv6)
    ensures (forall s: Signal :: b & Flag(s) != 0 ==> a & Flag(s) != 0) <==>
      (b & 1 != 0 ==> a & 1 != 0) && (b & 2 != 0 ==> a & 2 != 0) && (b & 4 != 0 ==> a & 4 != 0) &&
      (b & 8 != 0 ==> a & 8 != 0) && (b & 16 != 0 ==> a & 16 != 0) && (b & 32 != 0 ==> a & 32 != 0)
  {
    assert Flag(Readable) == 1 && Flag(Writable) == 2 && Flag(PeerClosed) == 4;
    assert Flag(NewDataReadable) == 8 && Flag(PeerRemote) == 16 && Flag(QuotaExceeded) == 32;
  }

  lemma MaskUnion(a: bv6, b: bv6)
    ensures SetOf(a | b) == SetOf(a) + SetOf(b)
  {
    hide SetOf;
    forall s: Signal ensures s in SetOf(a | b) <==> s in SetOf(a) + SetOf(b) {
      FlagInSet(a | b, s);
      FlagInSet(a, s);
      FlagInSet(b, s);
    }
  }

  // ---------------------------------------------------------------- due watches

  datatype SignalsState = SignalsState(satisfied: set<Signal>, satisfiable: set<Signal>) {
    predicate IsSatisfied(watch: set<Signal>) {
      watch <= satisfied
    }

    predicate IsUnsatisfiable(watch: set<Signal>) {
      !(watch <= satisfied) && !(watch <= satisfiable)
    }

    /** A watch is due when it is satisfied or can never be. */
    predicate Due(watch: set<Signal>) {
      IsSatisfied(watch) || IsUnsatisfiable(watch)
    }
  }

  const NO_SIGNALS: SignalsState := SignalsState({}, {})

  datatype WatchKind = Changed | Cancelled

  /** A registered watch; `callback` names the closure to call. */
  datatype Watcher = Watcher(id: nat, signals: set<Signal>, callback: nat, cancelled: bool)

  /** A callback collected under a pipe lock, to be invoked once the lock is released. */
  datatype Firing = Firing(callback: nat, state: SignalsState, kind: WatchKind)

  /** The callbacks of the live watchers whose watch is due, in registration order. */
  function Collect(watchers: seq<Watcher>, state: SignalsState): seq<Firing> {
    if |watchers| == 0 then []
    else
      var w := watchers[|watchers| - 1];
      Collect(watchers[..|watchers| - 1], state) +
      if !w.cancelled && state.Due(w.signals) then [Firing(w.callback, state, Changed)] else []
  }

  lemma {:induction false} CollectExact(watchers: seq<Watcher>, state: SignalsState, f: Firing)
    ensures f in Collect(watchers, state) <==>
      exists w :: w in watchers && !w.cancelled && state.Due(w.signals) && f == Firing(w.callback, state, Changed)
  {
    if |watchers| > 0 {
      CollectExact(watchers[..|watchers| - 1], state, f);
      assert watchers == watchers[..|watchers| - 1] + [watchers[|watchers| - 1]];
    }
  }

  /** The walk over the watchers that both kinds of pipe do. */
  method CollectWatchers(watchers: seq<Watcher>, state: SignalsState) returns (out: seq<Firing>)
    ensures out == Collect(watchers, state)
  {
    out := [];
    for i := 0 to |watchers|
      invariant out == Collect(watchers[..i], state)
    {
      assert watchers[..i + 1][..i] == watchers[..i];
      if !watchers[i].cancelled && state.Due(watchers[i].signals) {
        out := out + [Firing(watchers[i].callback, state, Changed)];
      }
    }
    assert watchers[..|watchers|] == watchers;
  }

  function CancelAll(watchers: seq<Watcher>): (r: seq<Watcher>)
    ensures |r| == |watchers|
    ensures forall i :: 0 <= i < |r| ==> r[i] == watchers[i].(cancelled := true)
  {
    if |watchers| == 0 then []
      else CancelAll(watchers[..|watchers| - 1]) + [watchers[|watchers| - 1].(cancelled := true)]
  }

  /** One Cancelled callback for every watcher that was still live. */
  function Cancellations(watchers: seq<Watcher>): seq<Firing> {
    if |watchers| == 0 then []
    else
      var w := watchers[|watchers| - 1];
      Cancellations(watchers[..|watchers| - 1]) +
      if w.cancelled then [] else [Firing(w.callback, NO_SIGNALS, Cancelled)]
  }

  lemma {:induction false} CancellationsExact(watchers: seq<Watcher>, f: Firing)
    ensures f in Cancellations(watchers) <==>
      exists w :: w in watchers && !w.cancelled && f == Firing(w.callback, NO_SIGNALS, Cancelled)
  {
    if |watchers| > 0 {
      CancellationsExact(watchers[..|watchers| - 1], f);
      assert watchers == watchers[..|watchers| - 1] + [watchers[|watchers| - 1]];
    }
  }

  method CancelWatchers(watchers: seq<Watcher>) returns (after: seq<Watcher>, out: seq<Firing>)
    ensures after == CancelAll(watchers) && out == Cancellations(watchers)
  {
    after, out := [], [];
    for i := 0 to |watchers|
      invariant after == CancelAll(watchers[..i]) && out == Cancellations(watchers[..i])
    {
      assert watchers[..i + 1][..i] == watchers[..i];
      after := after + [watchers[i].(cancelled := true)];
      if !watchers[i].cancelled {
        out := out + [Firing(watchers[i].callback, NO_SIGNALS, Cancelled)];
      }
    }
    assert watchers[..|watchers|] == watchers;
  }

  /** Mark the first watch with this id cancelled. */
  function CancelOne(watchers: seq<Watcher>, id: nat): (r: seq<Watcher>)
    ensures |r| == |watchers|
    ensures forall i :: 0 <= i < |r| && watchers[i].id != id ==> r[i] == watchers[i]
    ensures forall i :: 0 <= i < |r| ==> r[i] == watchers[i] || r[i] == watchers[i].(cancelled := true)
    ensures (forall i, j :: 0 <= i < j < |watchers| ==> watchers[i].id != watchers[j].id) ==>
      forall i :: 0 <= i < |r| && watchers[i].id == id ==> r[i].cancelled
  {
    if |watchers| == 0 then []
    else if watchers[0].id == id then [watchers[0].(cancelled := true)] + watchers[1..]
    else [watchers[0]] + CancelOne(watchers[1..], id)
  }

  /** The notification law: a live watch that was not due and now is has had its callback
      collected with the new state. */
  ghost predicate Notified(watchers: seq<Watcher>, before: SignalsState, after: SignalsState, fired: seq<Firing>) {
    forall w :: w in watchers && !w.cancelled && !before.Due(w.signals) && after.Due(w.signals) ==>
      Firing(w.callback, after, Changed) in fired
  }

  lemma CollectNotifies(watchers: seq<Watcher>, before: SignalsState, after: SignalsState, fired: seq<Firing>)
    requires forall f :: f in Collect(watchers, after) ==> f in fired
    ensures Notified(watchers, before, after, fired)
  {
    forall w | w in watchers && !w.cancelled && !before.Due(w.signals) && after.Due(w.signals)
      ensures Firing(w.callback, after, Changed) in fired
    {
      CollectExact(watchers, after, Firing(w.callback, after, Changed));
    }
  }

  /** No notice is needed when nothing new became satisfied and nothing stopped being satisfiable. */
  lemma QuietChange(watchers: seq<Watcher>, before: SignalsState, after: SignalsState, fired: seq<Firing>)
    requires after.satisfied <= before.satisfied && before.satisfiable <= after.satisfiable
    ensures Notified(watchers, before, after, fired)
  {
  }

  /** Where everything satisfiable is satisfied, every watch is due already. */
  lemma SettledIsDue(s: SignalsState, watch: set<Signal>)
    requires s.satisfied == s.satisfiable
    ensures s.Due(watch)
  {
  }

  // ---------------------------------------------------------------- the signals of the pipes' ends

  /** A message pipe's open end: is its peer closed, is a message queued. */
  function MessageState(peerClosed: bool, queued: bool): SignalsState {
    SignalsState(
      (if peerClosed then {PeerClosed} else {Writable}) + (if queued then {Readable} else {}),
      {PeerClosed, QuotaExceeded} + (if peerClosed then {} else {Writable, PeerRemote})
        + (if peerClosed && !queued then {} else {Readable}))
  }

  /** A data pipe's consumer: is its peer closed, has new data arrived, is there any data. */
  function ConsumerState(peerClosed: bool, newData: bool, data: bool): SignalsState {
    SignalsState(
      (if peerClosed then {PeerClosed} else {})
        + (if newData then {NewDataReadable} else {}) + (if newData || data then {Readable} else {}),
      {PeerClosed} + (if peerClosed then {} else {PeerRemote, Readable, NewDataReadable})
        + (if newData then {NewDataReadable} else {}) + (if newData || data then {Readable} else {}))
  }

  /** A data pipe's producer: is its peer closed, is there room. */
  function ProducerState(peerClosed: bool, room: bool): SignalsState {
    SignalsState(
      (if peerClosed then {PeerClosed} else {}) + (if !peerClosed && room then {Writable} else {}),
      {PeerClosed} + (if peerClosed then {} else {PeerRemote, Writable}))
  }

  /** Once a data pipe's peer is closed, what is satisfied and what is satisfiable are the same,
      so every watch is due and stays due: reads need not notify the reader's own watchers. */
  lemma ClosedPeerSettles(newData: bool, data: bool, room: bool)
    ensures ConsumerState(true, newData, data).satisfied == ConsumerState(true, newData, data).satisfiable
    ensures ProducerState(true, room).satisfied == ProducerState(true, room).satisfiable
  {
  }

  // ---------------------------------------------------------------- endpoints as watchers see them

  /** What decides an end's signals. */
  datatype Facts =
    | MessageFacts(peerClosed: bool, queued: bool)
    | ConsumerFacts(peerClosed: bool, newData: bool, data: bool)
    | ProducerFacts(peerClosed: bool, room: bool)
  {
    predicate SameKind(other: Facts) {
      (MessageFacts? <==> other.MessageFacts?) && (ConsumerFacts? <==> other.ConsumerFacts?)
    }
  }

  /** What watching an end depends on. */
  datatype Watched = Watched(facts: Facts, closed: bool, watchers: seq<Watcher>) {
    /** A message pipe's closed end has no signals at all; a data pipe's keeps those it has. */
    function State(): SignalsState {
      match facts
      case MessageFacts(peerClosed, queued) => if closed then NO_SIGNALS else MessageState(peerClosed, queued)
      case ConsumerFacts(peerClosed, newData, data) => ConsumerState(peerClosed, newData, data)
      case ProducerFacts(peerClosed, room) => ProducerState(peerClosed, room)
    }

    /** No live watch stands on a closed end. */
    predicate Silent() {
      closed ==> forall w :: w in watchers ==> w.cancelled
    }
  }

  /** What every operation on a pipe does to an end: it leaves the watchers alone and notifies
      those that have become due, or it closes the end and cancels them all. Closing, of the
      end or of its peer, is for good. */
  ghost predicate Lawful(a: Watched, b: Watched, fired: seq<Firing>) {
    && a.facts.SameKind(b.facts) && (a.facts.peerClosed ==> b.facts.peerClosed) && (a.closed ==> b.closed)
    && if b.closed == a.closed then b.watchers == a.watchers && Notified(a.watchers, a.State(), b.State(), fired)
       else b.watchers == CancelAll(a.watchers) && forall f :: f in Cancellations(a.watchers) ==> f in fired
  }

  /** The callback is that of a live watch on the end: one that is due now, or one cancelled because
      the end has just been closed. */
  ghost predicate Collected(a: Watched, b: Watched, f: Firing) {
    f in Collect(a.watchers, b.State()) || (!a.closed && b.closed && f in Cancellations(a.watchers))
  }

  /** Every callback is for a reason. */
  ghost predicate Honest(before: seq<Watched>, after: seq<Watched>, fired: seq<Firing>) {
    |after| == |before| && forall f :: f in fired ==> exists e :: 0 <= e < |after| && Collected(before[e], after[e], f)
  }

  /** The same of every end there is: all that must be called are, and no others. */
  ghost predicate AllLawful(before: seq<Watched>, after: seq<Watched>, fired: seq<Firing>) {
    |after| == |before| && (forall e :: 0 <= e < |after| ==> Lawful(before[e], after[e], fired))
      && Honest(before, after, fired)
  }

  /** What is collected for one end is for a reason, whichever of the two ends it is. */
  lemma CollectedAt(before: seq<Watched>, after: seq<Watched>, i: nat, fired: seq<Firing>)
    requires |before| == |after| && i < |after| && fired == Collect(before[i].watchers, after[i].State())
    ensures Honest(before, after, fired)
  {
    hide Collect;
    forall f | f in fired ensures exists e :: 0 <= e < |after| && Collected(before[e], after[e], f) {
      assert Collected(before[i], after[i], f);
    }
  }

  lemma CloseHonest(before: seq<Watched>, after: seq<Watched>, i: nat, j: nat, cancelled: seq<Firing>,
      told: seq<Firing>)
    requires |before| == |after| == 2 && i < 2 && j < 2 && !before[i].closed && after[i].closed
    requires cancelled == Cancellations(before[i].watchers) && told == Collect(before[j].watchers, after[j].State())
    ensures Honest(before, after, cancelled + told)
  {
    hide Collect, Cancellations;
    forall f | f in cancelled + told ensures exists e :: 0 <= e < |after| && Collected(before[e], after[e], f) {
      if f in cancelled { assert Collected(before[i], after[i], f); } else { assert Collected(before[j], after[j], f); }
    }
  }

  lemma SameIsLawful(a: Watched, fired: seq<Firing>)
    ensures Lawful(a, a, fired)
  {
  }

  // ---------------------------------------------------------------- due for good

  /** The watch is due on this closed end and will stay due: always on a message pipe's, and on a
      data pipe's once the peer is closed, for the empty watch, and for signals it never has. */
  predicate DueForever(facts: Facts, signals: set<Signal>) {
    || facts.MessageFacts? || facts.peerClosed || signals == {}
    || (facts.ConsumerFacts? && !(signals <= ConsumerState(false, false, false).satisfiable))
    || (facts.ProducerFacts? && !(signals <= ProducerState(false, false).satisfiable))
  }

  /** A later state of the same closed end. */
  ghost predicate Later(a: Facts, b: Facts) {
    a.SameKind(b) && (a.peerClosed ==> b.peerClosed)
  }

  /** The end's facts with the peer still open and nothing to read or no room to write. */
  function Idle(facts: Facts): Facts {
    match facts
    case MessageFacts(_, _) => MessageFacts(false, false)
    case ConsumerFacts(_, _, _) => ConsumerFacts(false, false, false)
    case ProducerFacts(_, _) => ProducerFacts(false, false)
  }

  /** The end's facts once its peer has closed. */
  function PeerGone(facts: Facts): Facts {
    facts.(peerClosed := true)
  }

  lemma SettledAlways(facts: Facts, signals: set<Signal>, ws: seq<Watcher>)
    requires !facts.MessageFacts? && facts.peerClosed
    ensures Watched(facts, true, ws).State().Due(signals)
  {
    match facts
    case ConsumerFacts(_, newData, data) => ClosedPeerSettles(newData, data, true);
    case ProducerFacts(_, room) => ClosedPeerSettles(true, true, room);
    SettledIsDue(Watched(facts, true, ws).State(), signals);
  }

  /** Due for good is being due in every later state of the closed end; and where it is not, the
      watch is not due while the end is idle, and is due as soon as the peer closes. */
  lemma DueForeverExact(facts: Facts, signals: set<Signal>)
    ensures DueForever(facts, signals) <==>
      forall b: Facts | Later(facts, b) :: Watched(b, true, []).State().Due(signals)
    ensures !DueForever(facts, signals) ==>
      Later(facts, Idle(facts)) && !Watched(Idle(facts), true, []).State().Due(signals)
    ensures Later(facts, PeerGone(facts)) && Watched(PeerGone(facts), true, []).State().Due(signals)
  {
    if facts.MessageFacts? { NoSignalsDue(signals); } else { SettledAlways(PeerGone(facts), signals, []); }
    if DueForever(facts, signals) {
      forall b: Facts | Later(facts, b) ensures Watched(b, true, []).State().Due(signals) {
        DueLater(facts, b, signals);
      }
    } else {
      IdleNotDue(facts, signals);
    }
  }

  lemma NoSignalsDue(signals: set<Signal>)
    ensures NO_SIGNALS.Due(signals)
  {
    if signals != {} {
      var s :| s in signals;
      assert s !in NO_SIGNALS.satisfied;
    }
  }

  lemma DueLater(a: Facts, b: Facts, signals: set<Signal>)
    requires DueForever(a, signals) && Later(a, b)
    ensures Watched(b, true, []).State().Due(signals)
  {
    if b.MessageFacts? {
      NoSignalsDue(signals);
    } else if b.peerClosed {
      SettledAlways(b, signals, []);
    } else if signals != {} {
      var open := if b.ConsumerFacts? then ConsumerState(false, false, false).satisfiable
        else ProducerState(false, false).satisfiable;
      var s :| s in signals && s !in open;
      assert s !in Watched(b, true, []).State().satisfied && s !in Watched(b, true, []).State().satisfiable;
    }
  }

  lemma IdleNotDue(facts: Facts, signals: set<Signal>)
    requires !DueForever(facts, signals)
    ensures !Watched(Idle(facts), true, []).State().Due(signals)
  {
    var s :| s in signals;
    assert s !in Watched(Idle(facts), true, []).State().satisfied;
  }
}
