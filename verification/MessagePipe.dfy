/** Message pipes: two endpoints, each with a queue of whole messages. Every operation is one
    step under the pipe's lock; the callbacks it collects are called after. */
module MessagePipe {
  import opened Results
  import opened Bytes
  import opened CoreErrors
  import opened Signals

  datatype Message = Message(data: seq<byte>, handles: seq<nat>)

  datatype End = A | B {
    function Peer(): End {
      match this
      case A => B
      case B => A
    }

    function Index(): nat {
      match this
      case A => 0
      case B => 1
    }
  }

  datatype Endpoint = Endpoint(
    localClosed: bool,
    peerClosed: bool,
    queue: seq<Message>,
    queuedBytes: nat,
    watchers: seq<Watcher>)

  const NEW_ENDPOINT: Endpoint := Endpoint(false, false, [], 0, [])

  datatype ReadOutcome = Received(message: Message) | TooLarge(size: nat)

  function TotalBytes(queue: seq<Message>): nat {
    if |queue| == 0 then 0 else |queue[0].data| + TotalBytes(queue[1..])
  }

  lemma {:induction false} TotalAppend(queue: seq<Message>, m: Message)
    ensures TotalBytes(queue + [m]) == TotalBytes(queue) + |m.data|
  {
    if |queue| > 0 {
      assert (queue + [m])[1..] == queue[1..] + [m];
      TotalAppend(queue[1..], m);
    }
  }

  /** `a.saturating_sub(b)`. */
  function SaturatingSub(a: nat, b: nat): nat {
    if a < b then 0 else a - b
  }

  // ---------------------------------------------------------------- signals

  function SignalsOf(ep: Endpoint): SignalsState {
    if ep.localClosed then NO_SIGNALS else MessageState(ep.peerClosed, |ep.queue| > 0)
  }

  /** The signals say what the operations will do: a read finds a message, a write is taken,
      the peer is gone. Exceeding a quota can be watched for and never happens. */
  lemma SignalsTellTheTruth(ep: Endpoint)
    ensures SignalsOf(ep).satisfied <= SignalsOf(ep).satisfiable
    ensures Readable in SignalsOf(ep).satisfiable <==> !ep.localClosed && (|ep.queue| > 0 || !ep.peerClosed)
    ensures forall s :: s in {Writable, PeerRemote} ==>
      (s in SignalsOf(ep).satisfiable <==> !ep.localClosed && !ep.peerClosed)
    ensures forall s :: s in {PeerClosed, QuotaExceeded} ==> (s in SignalsOf(ep).satisfiable <==> !ep.localClosed)
    ensures NewDataReadable !in SignalsOf(ep).satisfiable
    ensures forall s :: s in {PeerRemote, QuotaExceeded} ==> s !in SignalsOf(ep).satisfied
    ensures Readable in SignalsOf(ep).satisfied <==> !ep.localClosed && |ep.queue| > 0
    ensures Writable in SignalsOf(ep).satisfied <==> !ep.localClosed && !ep.peerClosed
    ensures PeerClosed in SignalsOf(ep).satisfied <==> !ep.localClosed && ep.peerClosed
    ensures !ep.localClosed ==> !SignalsOf(ep).Due({QuotaExceeded})
    ensures ep.localClosed ==> forall watch: set<Signal> :: watch != {} ==> SignalsOf(ep).IsUnsatisfiable(watch)
  {
    if ep.localClosed {
      forall watch: set<Signal> | watch != {} ensures SignalsOf(ep).IsUnsatisfiable(watch) {
        assert exists s :: s in watch;
      }
    } else {
      assert QuotaExceeded in {QuotaExceeded} && QuotaExceeded !in SignalsOf(ep).satisfied;
    }
  }

  /** What a watch on the endpoint depends on. */
  function ViewOf(ep: Endpoint): Watched {
    Watched(MessageFacts(ep.peerClosed, |ep.queue| > 0), ep.localClosed, ep.watchers)
  }

  /** Nothing is lost, repeated or reordered on the way to an end, and its bytes are counted. */
  ghost predicate Conserved(ep: Endpoint, sent: seq<Message>, received: seq<Message>) {
    sent == received + ep.queue && ep.queuedBytes == TotalBytes(ep.queue)
  }

  lemma WriteConserves(ep: Endpoint, sent: seq<Message>, received: seq<Message>, m: Message)
    requires Conserved(ep, sent, received)
    ensures Conserved(ep.(queue := ep.queue + [m], queuedBytes := ep.queuedBytes + |m.data|), sent + [m], received)
  {
    TotalAppend(ep.queue, m);
    assert sent + [m] == received + (ep.queue + [m]);
  }

  /** Taking the first message never saturates the byte count, and putting it back undoes it. */
  lemma ReadConserves(ep: Endpoint, sent: seq<Message>, received: seq<Message>)
    requires Conserved(ep, sent, received) && |ep.queue| > 0
    ensures ep.queuedBytes >= |ep.queue[0].data|
    ensures Conserved(Popped(ep), sent, received + [ep.queue[0]])
    ensures Popped(ep).(queue := [ep.queue[0]] + Popped(ep).queue,
      queuedBytes := Popped(ep).queuedBytes + |ep.queue[0].data|) == ep
  {
    assert [ep.queue[0]] + ep.queue[1..] == ep.queue;
    assert received + ep.queue == received + [ep.queue[0]] + ep.queue[1..];
  }

  function Popped(ep: Endpoint): Endpoint
    requires |ep.queue| > 0
  {
    ep.(queue := ep.queue[1..], queuedBytes := SaturatingSub(ep.queuedBytes, |ep.queue[0].data|))
  }

  lemma CloseConserves(ep: Endpoint, sent: seq<Message>, received: seq<Message>, watchers: seq<Watcher>)
    requires Conserved(ep, sent, received)
    ensures Conserved(ep.(localClosed := true, watchers := watchers), sent, received)
    ensures Conserved(ep.(peerClosed := true), sent, received)
  {
  }

  lemma WatchConserves(ep: Endpoint, sent: seq<Message>, received: seq<Message>, watchers: seq<Watcher>)
    requires Conserved(ep, sent, received)
    ensures Conserved(ep.(watchers := watchers), sent, received)
  {
  }

  /** An end that stays open and whose due watchers are all called has changed lawfully. */
  lemma ToldLawful(a: Endpoint, b: Endpoint, fired: seq<Firing>)
    requires b.localClosed == a.localClosed && b.watchers == a.watchers && (a.peerClosed ==> b.peerClosed)
    requires forall f :: f in Collect(b.watchers, SignalsOf(b)) ==> f in fired
    ensures Lawful(ViewOf(a), ViewOf(b), fired) && ViewOf(b).State() == SignalsOf(b)
  {
    CollectNotifies(a.watchers, SignalsOf(a), SignalsOf(b), fired);
  }

  lemma CloseLawful(a: Endpoint, fired: seq<Firing>)
    requires !a.localClosed && forall f :: f in Cancellations(a.watchers) ==> f in fired
    ensures Lawful(ViewOf(a), ViewOf(a.(localClosed := true, watchers := CancelAll(a.watchers))), fired)
  {
  }

  // ---------------------------------------------------------------- the pipe

  class Pipe {
    var ends: seq<Endpoint>
    /** For each end, the messages ever written towards it and ever read from it. */
    ghost var sent: seq<seq<Message>>
    ghost var received: seq<seq<Message>>

    ghost predicate Valid()
      reads this
    {
      && |ends| == |sent| == |received| == 2
      && Conserved(ends[0], sent[0], received[0]) && Conserved(ends[1], sent[1], received[1])
      && ends[0].peerClosed == ends[1].localClosed && ends[1].peerClosed == ends[0].localClosed
      && ViewOf(ends[0]).Silent() && ViewOf(ends[1]).Silent()
    }

    /** The two ends as watchers see them. */
    ghost function Views(): seq<Watched>
      requires |ends| == 2
      reads this
    {
      [ViewOf(ends[0]), ViewOf(ends[1])]
    }

    function At(e: End): Endpoint
      requires Valid()
      reads this
    {
      ends[e.Index()]
    }

    ghost function SentTo(e: End): seq<Message>
      requires Valid()
      reads this
    {
      sent[e.Index()]
    }

    ghost function ReadFrom(e: End): seq<Message>
      requires Valid()
      reads this
    {
      received[e.Index()]
    }

    /** Both ends have changed only as a pipe operation may. */
    twostate predicate Told(fired: seq<Firing>)
      requires old(Valid()) && Valid()
      reads this
    {
      AllLawful(old(Views()), Views(), fired)
    }

    constructor ()
      ensures Valid() && forall e: End :: At(e) == NEW_ENDPOINT && SentTo(e) == ReadFrom(e) == []
    {
      ends := [NEW_ENDPOINT, NEW_ENDPOINT];
      sent, received := [[], []], [[], []];
    }

    /** Write a message towards the other end. */
    method Write(e: End, m: Message) returns (r: Result<(), CoreError>, fired: seq<Firing>)
      requires Valid()
      modifies this
      ensures Valid() && Told(fired)
      ensures r == if old(At(e)).localClosed then Err(InvalidArgument)
        else if old(At(e)).peerClosed then Err(FailedPrecondition) else Ok(())
      ensures At(e) == old(At(e)) && received == old(received) && SentTo(e) == old(SentTo(e))
      ensures r.Ok? ==> SentTo(e.Peer()) == old(SentTo(e.Peer())) + [m]
      ensures r.Ok? ==> At(e.Peer()) == old(At(e.Peer())).(queue := old(At(e.Peer())).queue + [m],
        queuedBytes := old(At(e.Peer())).queuedBytes + |m.data|)
      ensures r.Err? ==> ends == old(ends) && sent == old(sent) && fired == []
    {
      hide SignalsOf, Collect, Conserved, Lawful, Watched.State;
      var i, j := e.Index(), e.Peer().Index();
      SameIsLawful(ViewOf(ends[0]), []);
      SameIsLawful(ViewOf(ends[1]), []);
      if ends[i].localClosed { return Err(InvalidArgument), []; }
      if ends[i].peerClosed { return Err(FailedPrecondition), []; }
      WriteConserves(ends[j], sent[j], received[j], m);
      ends := ends[j := ends[j].(queue := ends[j].queue + [m], queuedBytes := ends[j].queuedBytes + |m.data|)];
      sent := sent[j := sent[j] + [m]];
      fired := CollectNotifications(e.Peer());
      ToldLawful(old(ends)[j], ends[j], fired);
      SameIsLawful(ViewOf(ends[i]), fired);
      CollectedAt(old(Views()), Views(), j, fired);
      return Ok(()), fired;
    }

    /** What a read returns. A message too large for the caller stays where it is. */
    static function ReadResult(ep: Endpoint, maxNumBytes: Option<nat>, mayDiscard: bool)
      : Result<ReadOutcome, CoreError>
    {
      if ep.localClosed then Err(InvalidArgument)
      else if |ep.queue| == 0 then Err(if ep.peerClosed then FailedPrecondition else ShouldWait)
      else if maxNumBytes.Some? && |ep.queue[0].data| > maxNumBytes.value && !mayDiscard
        then Ok(TooLarge(|ep.queue[0].data|))
      else Ok(Received(ep.queue[0]))
    }

    method Read(e: End, maxNumBytes: Option<nat>, mayDiscard: bool)
      returns (r: Result<ReadOutcome, CoreError>, fired: seq<Firing>)
      requires Valid()
      modifies this
      ensures Valid() && Told(fired)
      ensures r == ReadResult(old(At(e)), maxNumBytes, mayDiscard)
      ensures var q, open := old(At(e)).queue, !old(At(e)).localClosed;
        && (r == Err(InvalidArgument) <==> !open)
        && (r == Err(FailedPrecondition) <==> open && q == [] && old(At(e)).peerClosed)
        && (r == Err(ShouldWait) <==> open && q == [] && !old(At(e)).peerClosed)
        && ((r.Ok? && r.value.TooLarge?) <==>
              open && q != [] && maxNumBytes.Some? && maxNumBytes.value < |q[0].data| && !mayDiscard)
        && (r.Ok? && r.value.TooLarge? ==> r.value.size == |q[0].data|)
        && (open && q != [] ==> r.Ok? && (r.value.Received? ==> r.value.message == q[0]))
      ensures At(e.Peer()) == old(At(e.Peer())) && sent == old(sent) && ReadFrom(e.Peer()) == old(ReadFrom(e.Peer()))
      ensures r.Ok? && r.value.Received? ==>
        && ReadFrom(e) == old(ReadFrom(e)) + [r.value.message] && old(At(e)).queue == [r.value.message] + At(e).queue
        && At(e) == old(At(e)).(queue := At(e).queue, queuedBytes := At(e).queuedBytes)
      ensures !(r.Ok? && r.value.Received?) ==> ends == old(ends) && received == old(received) && fired == []
    {
      hide SignalsOf, Collect, Conserved, Lawful, Watched.State;
      var i, ep := e.Index(), ends[e.Index()];
      SameIsLawful(ViewOf(ends[0]), []);
      SameIsLawful(ViewOf(ends[1]), []);
      if ep.localClosed { return Err(InvalidArgument), []; }
      if |ep.queue| == 0 { return Err(if ep.peerClosed then FailedPrecondition else ShouldWait), []; }
      ReadConserves(ep, sent[i], received[i]);
      var message := ep.queue[0];
      var n := |message.data|;
      ends := ends[i := Popped(ep)];
      if maxNumBytes.Some? && n > maxNumBytes.value && !mayDiscard {
        ends := ends[i := ends[i].(queue := [message] + ends[i].queue, queuedBytes := ends[i].queuedBytes + n)];
        return Ok(TooLarge(n)), [];
      }
      received := received[i := received[i] + [message]];
      fired := CollectNotifications(e);
      ToldLawful(ep, ends[i], fired);
      SameIsLawful(ViewOf(ends[e.Peer().Index()]), fired);
      CollectedAt(old(Views()), Views(), i, fired);
      return Ok(Received(message)), fired;
    }

    /** Close an end: its watchers are cancelled, the other end's are told. What was queued on
        either end stays. */
    method Close(e: End) returns (fired: seq<Firing>)
      requires Valid()
      modifies this`ends
      ensures Valid() && Told(fired)
      ensures old(At(e)).localClosed ==> ends == old(ends) && fired == []
      ensures !old(At(e)).localClosed ==>
        At(e) == old(At(e)).(localClosed := true, watchers := CancelAll(old(At(e)).watchers))
      ensures !old(At(e)).localClosed ==> At(e.Peer()) == old(At(e.Peer())).(peerClosed := true)
    {
      hide SignalsOf, Collect, Cancellations, CancelAll, Conserved, Lawful, Watched.State;
      var i, j := e.Index(), e.Peer().Index();
      SameIsLawful(ViewOf(ends[0]), []);
      SameIsLawful(ViewOf(ends[1]), []);
      if ends[i].localClosed { return []; }
      var after, cancelled := CancelWatchers(ends[i].watchers);
      ends := ends[i := ends[i].(localClosed := true, watchers := after)];
      ends := ends[j := ends[j].(peerClosed := true)];
      CloseConserves(old(ends)[i], sent[i], received[i], after);
      CloseConserves(old(ends)[j], sent[j], received[j], after);
      var told := CollectNotifications(e.Peer());
      fired := cancelled + told;
      CloseLawful(old(ends)[i], fired);
      ToldLawful(old(ends)[j], ends[j], fired);
      CloseHonest(old(Views()), Views(), i, j, cancelled, told);
    }

    /** The callbacks of an end's due watchers. */
    method CollectNotifications(e: End) returns (fired: seq<Firing>)
      requires |ends| == 2
      ensures fired == Collect(ends[e.Index()].watchers, SignalsOf(ends[e.Index()]))
    {
      fired := CollectWatchers(ends[e.Index()].watchers, SignalsOf(ends[e.Index()]));
    }

    /** Watch an end; on a closed end the watch is dropped. */
    method RegisterWatch(e: End, w: Watcher)
      requires Valid()
      modifies this`ends
      ensures Valid() && At(e.Peer()) == old(At(e.Peer()))
      ensures At(e) == if old(At(e)).localClosed then old(At(e)) else old(At(e)).(watchers := old(At(e)).watchers + [w])
    {
      hide Conserved;
      var i := e.Index();
      if ends[i].localClosed { return; }
      WatchConserves(ends[i], sent[i], received[i], ends[i].watchers + [w]);
      ends := ends[i := ends[i].(watchers := ends[i].watchers + [w])];
    }

    method CancelWatch(e: End, id: nat)
      requires Valid()
      modifies this`ends
      ensures Valid() && At(e.Peer()) == old(At(e.Peer()))
      ensures At(e) == old(At(e)).(watchers := CancelOne(old(At(e)).watchers, id))
    {
      hide CancelOne, Conserved;
      var i := e.Index();
      WatchConserves(ends[i], sent[i], received[i], CancelOne(ends[i].watchers, id));
      ends := ends[i := ends[i].(watchers := CancelOne(ends[i].watchers, id))];
    }
  }

  // ---------------------------------------------------------------- a message too large

  /** A read that finds the message too large for its buffer says how large the buffer must be: the
      same read with that many bytes gets the message. */
  method ReadAgain(pipe: Pipe, e: End, maxNumBytes: Option<nat>)
    returns (first: Result<ReadOutcome, CoreError>, second: Result<ReadOutcome, CoreError>)
    requires pipe.Valid()
    modifies pipe
    ensures pipe.Valid()
    ensures first.Ok? && first.value.TooLarge? ==>
      && second.Ok? && second.value.Received? && |second.value.message.data| == first.value.size
      && old(pipe.At(e)).queue == [second.value.message] + pipe.At(e).queue
    ensures !(first.Ok? && first.value.TooLarge?) ==> second == first
  {
    hide Conserved, SignalsOf, AllLawful;
    var fired;
    first, fired := pipe.Read(e, maxNumBytes, false);
    second := first;
    if first.Ok? && first.value.TooLarge? {
      second, fired := pipe.Read(e, Some(first.value.size), false);
    }
  }

  // ---------------------------------------------------------------- runs

  datatype Step =
    | Write(e: End, m: Message)
    | Read(e: End, maxNumBytes: Option<nat>, mayDiscard: bool)
    | Close(e: End)
    | Watch(e: End, w: Watcher)
    | Unwatch(e: End, id: nat)

  /** What a step returns to its caller. */
  datatype Outcome = Wrote(w: Result<(), CoreError>) | Had(r: Result<ReadOutcome, CoreError>) | Nothing

  /** The message a step has put on its way to end `e`, going by what it returned. */
  function Put(step: Step, outcome: Outcome, e: End): seq<Message> {
    if step.Write? && step.e.Peer() == e && outcome.Wrote? && outcome.w.Ok? then [step.m] else []
  }

  /** The message a step has given to the caller at end `e`. */
  function Got(step: Step, outcome: Outcome, e: End): seq<Message> {
    if step.Read? && step.e == e && outcome.Had? && outcome.r.Ok? && outcome.r.value.Received?
      then [outcome.r.value.message]
    else []
  }

  function AllPut(steps: seq<Step>, outcomes: seq<Outcome>, e: End): seq<Message>
    requires |outcomes| == |steps|
  {
    if |steps| == 0 then []
    else
      var n := |steps| - 1;
      AllPut(steps[..n], outcomes[..n], e) + Put(steps[n], outcomes[n], e)
  }

  function AllGot(steps: seq<Step>, outcomes: seq<Outcome>, e: End): seq<Message>
    requires |outcomes| == |steps|
  {
    if |steps| == 0 then []
    else
      var n := |steps| - 1;
      AllGot(steps[..n], outcomes[..n], e) + Got(steps[n], outcomes[n], e)
  }

  /** What a step does to the ends as watchers see them: watching and unwatching change the list
      of watches, everything else is one lawful operation on both ends. */
  ghost predicate Seen(step: Step, before: seq<Watched>, after: seq<Watched>, fired: seq<Firing>) {
    |before| == 2 &&
    match step
    case Watch(e, w) =>
      var end := before[e.Index()];
      fired == []
        && after == before[e.Index() := end.(watchers := if end.closed then end.watchers else end.watchers + [w])]
    case Unwatch(e, id) =>
      var end := before[e.Index()];
      fired == [] && after == before[e.Index() := end.(watchers := CancelOne(end.watchers, id))]
    case _ => AllLawful(before, after, fired)
  }

  method Do(pipe: Pipe, step: Step) returns (outcome: Outcome, fired: seq<Firing>)
    requires pipe.Valid()
    modifies pipe
    ensures pipe.Valid() && Seen(step, old(pipe.Views()), pipe.Views(), fired)
    ensures forall e: End :: pipe.SentTo(e) == old(pipe.SentTo(e)) + Put(step, outcome, e)
    ensures forall e: End :: pipe.ReadFrom(e) == old(pipe.ReadFrom(e)) + Got(step, outcome, e)
    ensures forall e: End :: SignalsOf(pipe.At(e)).satisfiable <= old(SignalsOf(pipe.At(e)).satisfiable)
  {
    hide Lawful, CancelOne, SignalsOf, Conserved;
    ghost var before := pipe.ends;
    outcome, fired := Nothing, [];
    match step {
      case Write(e, m) =>
        var r;
        r, fired := pipe.Write(e, m);
        outcome := Wrote(r);
      case Read(e, maxNumBytes, mayDiscard) =>
        var r;
        r, fired := pipe.Read(e, maxNumBytes, mayDiscard);
        outcome := Had(r);
      case _ => fired := DoWatch(pipe, step);
    }
    NeverAgain(before[0], pipe.ends[0]);
    NeverAgain(before[1], pipe.ends[1]);
  }

  /** A signal that can no longer be satisfied never can be again, as long as nothing is written
      towards an end whose peer has closed and nothing is reopened. */
  lemma NeverAgain(a: Endpoint, b: Endpoint)
    ensures (a.localClosed ==> b.localClosed) && (a.peerClosed ==> b.peerClosed && |b.queue| <= |a.queue|) ==>
      SignalsOf(b).satisfiable <= SignalsOf(a).satisfiable
  {
  }

  ghost predicate SameQueue(a: Endpoint, b: Endpoint) {
    b.queue == a.queue && (a.localClosed ==> b.localClosed) && (a.peerClosed ==> b.peerClosed)
  }

  /** Closing, watching and unwatching send and deliver nothing. */
  method DoWatch(pipe: Pipe, step: Step) returns (fired: seq<Firing>)
    requires pipe.Valid() && (step.Close? || step.Watch? || step.Unwatch?)
    modifies pipe
    ensures pipe.Valid() && Seen(step, old(pipe.Views()), pipe.Views(), fired)
    ensures forall e: End :: pipe.SentTo(e) == old(pipe.SentTo(e)) && pipe.ReadFrom(e) == old(pipe.ReadFrom(e))
    ensures SameQueue(old(pipe.ends[0]), pipe.ends[0]) && SameQueue(old(pipe.ends[1]), pipe.ends[1])
  {
    hide Lawful, CancelOne, SignalsOf, Conserved;
    fired := [];
    match step {
      case Close(e) => fired := pipe.Close(e);
      case Watch(e, w) => pipe.RegisterWatch(e, w);
      case Unwatch(e, id) => pipe.CancelWatch(e, id);
    }
  }

  /** Every run from a new pipe: in each direction the messages whose writing was accepted are, in
      order, those that reads have returned followed by those queued; and the byte count is
      exact. */
  method Run(steps: seq<Step>) returns (pipe: Pipe, outcomes: seq<Outcome>)
    ensures fresh(pipe) && pipe.Valid() && |outcomes| == |steps|
    ensures forall e: End :: AllPut(steps, outcomes, e) == AllGot(steps, outcomes, e) + pipe.At(e).queue
    ensures forall e: End :: pipe.At(e).queuedBytes == TotalBytes(pipe.At(e).queue)
    ensures forall e: End :: pipe.At(e).peerClosed == pipe.At(e.Peer()).localClosed
  {
    pipe := new Pipe();
    outcomes := [];
    for i := 0 to |steps|
      invariant fresh(pipe) && pipe.Valid() && |outcomes| == i
      invariant forall e: End :: pipe.SentTo(e) == AllPut(steps[..i], outcomes, e)
      invariant forall e: End :: pipe.ReadFrom(e) == AllGot(steps[..i], outcomes, e)
    {
      var outcome, _ := Do(pipe, steps[i]);
      assert steps[..i + 1][..i] == steps[..i] && (outcomes + [outcome])[..i] == outcomes;
      outcomes := outcomes + [outcome];
    }
    assert steps[..|steps|] == steps;
  }
}
