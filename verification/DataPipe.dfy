/** Data pipes: a producer and a consumer, each with its own view of one ring of shared bytes.
    The views are brought together lazily by queues of byte counts. Every operation is one
    step under the pair's lock. */
module DataPipe {
  import opened Results
  import opened Bytes
  import opened CoreErrors
  import opened Signals
  import opened Ring
  import opened Fifo

  function Sum(parcels: seq<nat>): nat {
    if |parcels| == 0 then 0 else parcels[0] + Sum(parcels[1..])
  }

  lemma {:induction false} SumAppend(parcels: seq<nat>, n: nat)
    ensures Sum(parcels + [n]) == Sum(parcels) + n
  {
    if |parcels| > 0 {
      assert (parcels + [n])[1..] == parcels[1..] + [n];
      SumAppend(parcels[1..], n);
    }
  }

  ghost predicate Positive(parcels: seq<nat>) {
    forall i :: 0 <= i < |parcels| ==> parcels[i] > 0
  }

  /** One endpoint: `control` holds the byte counts its peer has announced and it has not yet
      taken in; `twoPhase` is the span of a two-phase operation under way. */
  datatype Endpoint = Endpoint(
    localClosed: bool,
    peerClosed: bool,
    control: seq<nat>,
    twoPhase: Option<Span>,
    hasNewData: bool,
    watchers: seq<Watcher>)

  const NEW_ENDPOINT: Endpoint := Endpoint(false, false, [], None, false, [])

  // ---------------------------------------------------------------- signals

  /** Taking data away never makes a consumer watch due that was not. */
  lemma ReadIsQuiet(watchers: seq<Watcher>, peerClosed: bool, new0: bool, data0: bool, new1: bool, data1: bool,
      fired: seq<Firing>)
    requires (new1 ==> new0) && (new1 || data1 ==> new0 || data0)
    ensures Notified(watchers, ConsumerState(peerClosed, new0, data0), ConsumerState(peerClosed, new1, data1), fired)
  {
    if peerClosed {
      ClosedPeerSettles(new0, data0, true);
      forall w | w in watchers ensures ConsumerState(true, new0, data0).Due(w.signals) {
        SettledIsDue(ConsumerState(true, new0, data0), w.signals);
      }
    } else {
      QuietChange(watchers, ConsumerState(false, new0, data0), ConsumerState(false, new1, data1), fired);
    }
  }

  /** Using up room never makes a producer watch due that was not. */
  lemma WriteIsQuiet(watchers: seq<Watcher>, peerClosed: bool, room0: bool, room1: bool, fired: seq<Firing>)
    requires room1 ==> room0
    ensures Notified(watchers, ProducerState(peerClosed, room0), ProducerState(peerClosed, room1), fired)
  {
    QuietChange(watchers, ProducerState(peerClosed, room0), ProducerState(peerClosed, room1), fired);
  }

  datatype End = Producer | Consumer

  lemma PositiveSum(parcels: seq<nat>)
    requires Positive(parcels)
    ensures Sum(parcels) > 0 <==> |parcels| > 0
    ensures Sum([]) == 0 && Positive([])
  {
  }

  /** Pop every parcel off a control queue, adding them up. */
  method Drain(control: seq<nat>) returns (changed: nat, rest: seq<nat>)
    ensures changed == Sum(control) && rest == []
  {
    changed, rest := 0, control;
    while |rest| > 0
      invariant changed + Sum(rest) == Sum(control)
    {
      changed, rest := changed + rest[0], rest[1..];
    }
  }

  /** With new data the consumer's signals do not depend on how much has been taken in. */
  lemma NewDataSettles(peerClosed: bool, data0: bool, data1: bool)
    ensures ConsumerState(peerClosed, true, data0) == ConsumerState(peerClosed, true, data1)
  {
  }

  // ---------------------------------------------------------------- whole elements

  lemma ModAdd(a: nat, b: nat, m: nat)
    requires m > 0 && a % m == 0 && b % m == 0
    ensures (a + b) % m == 0 && (a >= b ==> (a - b) % m == 0)
  {
    var x, y := a / m, b / m;
    assert a == x * m && b == y * m;
    assert a + b == (x + y) * m && a - b == (x - y) * m;
    ModUnique(a + b, m, x + y, 0);
    if a >= b {
      if x < y { MulGap(x, y, m); }
      ModUnique(a - b, m, x - y, 0);
    }
  }

  ghost predicate Multiples(parcels: seq<nat>, es: nat) {
    es > 0 && forall i :: 0 <= i < |parcels| ==> parcels[i] % es == 0
  }

  lemma {:induction false} SumMultiple(parcels: seq<nat>, es: nat)
    requires Multiples(parcels, es)
    ensures Sum(parcels) % es == 0
  {
    if |parcels| > 0 {
      SumMultiple(parcels[1..], es);
      ModAdd(parcels[0], Sum(parcels[1..]), es);
    }
  }

  lemma WrapMultiple(x: nat, n: nat, cap: nat, es: nat)
    requires x < cap && n <= cap && es > 0 && x % es == 0 && n % es == 0 && cap % es == 0
    ensures Wrap(x + n, cap) % es == 0
  {
    ModAdd(x, n, es);
    ModAdd(x + n, cap, es);
  }

  /** Two views of a ring of `cap` bytes, and what each has yet to be told, as numbers. */
  datatype Shape = Shape(cap: nat, po: nat, ps: nat, co: nat, cs: nat, pc: seq<nat>, cc: seq<nat>) {
    /** Everything in it is a whole number of elements. */
    ghost predicate Whole(es: nat) {
      && es > 0 && cap % es == 0 && po % es == 0 && ps % es == 0 && co % es == 0 && cs % es == 0
      && Multiples(pc, es) && Multiples(cc, es)
    }
  }

  lemma WholeAfterProducerFlush(v: Shape, es: nat)
    requires v.Whole(es) && Sum(v.pc) <= v.ps <= v.cap && v.po < v.cap
    ensures v.(po := Wrap(v.po + Sum(v.pc), v.cap), ps := v.ps - Sum(v.pc), pc := []).Whole(es)
  {
    SumMultiple(v.pc, es);
    WrapMultiple(v.po, Sum(v.pc), v.cap, es);
    ModAdd(v.ps, Sum(v.pc), es);
  }

  lemma WholeAfterConsumerFlush(v: Shape, es: nat)
    requires v.Whole(es)
    ensures v.(cs := v.cs + Sum(v.cc), cc := []).Whole(es)
  {
    SumMultiple(v.cc, es);
    ModAdd(v.cs, Sum(v.cc), es);
  }

  lemma WholeAfterWrite(v: Shape, es: nat, n: nat)
    requires v.Whole(es) && n % es == 0
    ensures v.(ps := v.ps + n, cc := v.cc + [n]).Whole(es)
  {
    ModAdd(v.ps, n, es);
  }

  lemma WholeAfterTake(v: Shape, es: nat, n: nat)
    requires v.Whole(es) && n % es == 0 && n <= v.cs <= v.cap && v.co < v.cap
    ensures v.(co := Wrap(v.co + n, v.cap), cs := v.cs - n, pc := v.pc + [n]).Whole(es)
  {
    WrapMultiple(v.co, n, v.cap, es);
    ModAdd(v.cs, n, es);
  }

  /** A partial transfer of whole elements, cut to the room or the data, is still whole. */
  lemma WholeCut(v: Shape, es: nat, n: nat)
    requires v.Whole(es) && n % es == 0 && v.ps <= v.cap
    ensures Min(n, v.cap - v.ps) % es == 0 && Min(n, v.cs) % es == 0
  {
    ModAdd(v.cap, v.ps, es);
  }

  // ---------------------------------------------------------------- the pair

  /** Writing further behind a range leaves it alone. */
  lemma SliceBefore(mem: seq<byte>, o: nat, n: nat, at: nat, from: nat, data: seq<byte>)
    requires o < |mem| && n + at + |data| <= |mem| && from < |mem| && from == Wrap(o + n, |mem|) + at
    ensures Slice(PutAt(mem, from, data), o, n) == Slice(mem, o, n)
  {
    hide Slice, PutAt;
    WrapTwice(o, n, at, |mem|);
    SliceBesidePut(mem, o, n + at, data);
    SliceDrop(mem, o, n + at, n);
    SliceDrop(PutAt(mem, from, data), o, n + at, n);
  }

  /** Where a pipe stands between steps, for its clients: the ring's memory and the spans of it that
      they were lent, the unread bytes, and who has closed. */
  datatype Moment = Moment(
    elementSize: nat,
    mem: seq<byte>,
    queue: seq<byte>,
    writing: Option<Span>,
    reading: Option<Span>,
    noReader: bool,
    noWriter: bool)
  {
    ghost predicate Possible() {
      elementSize > 0 && |queue| <= |mem|
    }
  }

  function Length(span: Option<Span>): Option<nat> {
    if span.Some? then Some(span.value.len) else None
  }

  /** The first `n` bytes of a span. */
  function Front(mem: seq<byte>, span: Option<Span>, n: nat): seq<byte> {
    if span.Some? && span.value.start + n <= |mem| then mem[span.value.start..span.value.start + n] else []
  }

  /** Notifying what became due, and calling only what is due, is lawful. */
  lemma StandingLawful(before: seq<Watched>, after: seq<Watched>, fired: seq<Firing>)
    requires |before| == |after| == 2
    requires forall e :: 0 <= e < 2 ==>
      && after[e].watchers == before[e].watchers && after[e].closed == before[e].closed
      && before[e].facts.SameKind(after[e].facts) && after[e].facts.peerClosed == before[e].facts.peerClosed
      && Notified(before[e].watchers, before[e].State(), after[e].State(), fired)
    requires forall f :: f in fired ==>
      f in Collect(after[1].watchers, after[1].State()) || f in Collect(after[0].watchers, after[0].State())
    ensures AllLawful(before, after, fired)
  {
    hide Collect, Watched.State, Notified;
    forall f | f in fired ensures exists e :: 0 <= e < 2 && Collected(before[e], after[e], f) {
      assert Collected(before[0], after[0], f) || Collected(before[1], after[1], f);
    }
  }

  /** Closing end `i` cancels its watches and collects the peer's that are due. */
  lemma ClosingIsLawful(before: seq<Watched>, after: seq<Watched>, i: nat, j: nat, cancelled: seq<Firing>,
      fired: seq<Firing>)
    requires |before| == |after| == 2 && i < 2 && j == 1 - i
    requires !before[i].closed && after[i] == Watched(before[i].facts, true, CancelAll(before[i].watchers))
    requires after[j] == before[j].(facts := PeerGone(before[j].facts))
    requires cancelled == Cancellations(before[i].watchers) && fired == Collect(before[j].watchers, after[j].State())
    ensures AllLawful(before, after, cancelled + fired)
  {
    hide Collect, Cancellations, CancelAll, Watched.State;
    CollectNotifies(before[j].watchers, before[j].State(), after[j].State(), cancelled + fired);
    CloseHonest(before, after, i, j, cancelled, fired);
    forall e | 0 <= e < 2 ensures Lawful(before[e], after[e], cancelled + fired) {
      assert e == i || e == j;
    }
  }

  /** The spans lie within the memory, and a read span shows the front of the unread bytes. */
  ghost predicate Shows(m: Moment) {
    && (m.writing.Some? ==> m.writing.value.start + m.writing.value.len <= |m.mem|)
    && (m.reading.Some? ==>
          var span := m.reading.value;
          && span.start + span.len <= |m.mem| && span.len <= |m.queue|
          && Front(m.mem, m.reading, span.len) == m.queue[..span.len])
  }

  class Pair {
    const elementSize: nat
    const producer: RingBuffer
    const consumer: RingBuffer
    var prod: Endpoint
    var cons: Endpoint
    /** Everything ever accepted from the producer, and ever taken by the consumer. */
    ghost var accepted: seq<byte>
    ghost var consumed: seq<byte>

    /** The two views are one ring seen at different times: the producer's still counts what
        the consumer has taken but it has not been told of, the consumer's does not yet count
        what has been announced to it. */
    ghost predicate Views()
      reads this, producer, consumer
    {
      && producer != consumer && producer.mapping == consumer.mapping
      && producer.Valid() && consumer.Valid()
      && Positive(prod.control) && Positive(cons.control)
      && producer.size == consumer.size + Sum(cons.control) + Sum(prod.control)
      && consumer.offset == Wrap(producer.offset + Sum(prod.control), consumer.mapping.Length)
    }

    /** The unread bytes: what the consumer can see and what has been announced to it. */
    ghost function Queue(): (q: seq<byte>)
      requires Views()
      reads this, producer, consumer, consumer.mapping
      ensures |q| == Unread()
    {
      Slice(consumer.mapping[..], consumer.offset, Unread())
    }

    ghost function Unread(): nat
      reads this, consumer
    {
      consumer.size + Sum(cons.control)
    }

    ghost function Capacity(): nat {
      consumer.mapping.Length
    }

    /** A write span is the front of the free space behind all unread data; a read span is
        the front of the readable data. */
    ghost predicate Spans()
      requires Views()
      reads this, producer, consumer
    {
      && (prod.twoPhase.Some? ==>
            var s := prod.twoPhase.value;
            0 < s.len && s.start == producer.End() && s.start + s.len <= producer.mapping.Length
            && s.len <= producer.mapping.Length - producer.size)
      && (cons.twoPhase.Some? ==>
            var s := cons.twoPhase.value;
            0 < s.len && s.start == consumer.offset && s.start + s.len <= consumer.mapping.Length
            && s.len <= consumer.size)
    }

    ghost function ReadSpan(): nat
      reads this
    {
      if cons.twoPhase.Some? then cons.twoPhase.value.len else 0
    }

    /** Data has arrived that the consumer has not tried to read since. */
    ghost predicate NewData()
      reads this
    {
      cons.hasNewData || |cons.control| > 0
    }

    ghost predicate Valid()
      reads this, producer, consumer, consumer.mapping
    {
      && elementSize > 0 && Views() && Spans()
      && accepted == consumed + Queue()
      && (cons.hasNewData ==> Unread() > ReadSpan())
      && prod.peerClosed == cons.localClosed && cons.peerClosed == prod.localClosed
      && Hushed(prod) && Hushed(cons)
    }

    /** No live watch stands on an end that has been closed. */
    ghost predicate Hushed(ep: Endpoint) {
      ep.localClosed ==> forall w :: w in ep.watchers ==> w.cancelled
    }

    ghost function Now(): (m: Moment)
      requires Valid()
      reads this, producer, consumer, consumer.mapping
      ensures m.Possible()
    {
      Moment(elementSize, consumer.mapping[..], Queue(), prod.twoPhase, cons.twoPhase, prod.peerClosed, cons.peerClosed)
    }

    lemma NowShows()
      requires Valid()
      ensures Shows(Now())
    {
      if cons.twoPhase.Some? {
        var span := cons.twoPhase.value;
        SliceStraight(consumer.mapping[..], span.start, span.len);
        SliceDrop(consumer.mapping[..], consumer.offset, Unread(), span.len);
      }
    }

    /** Where the views stand. */
    ghost function Standing(): Shape
      reads this, producer, consumer
    {
      Shape(consumer.mapping.Length, producer.offset, producer.size, consumer.offset, consumer.size, prod.control,
        cons.control)
    }

    /** Sizes, offsets and parcels are all whole numbers of elements. */
    ghost predicate Whole()
      reads this, producer, consumer
    {
      Standing().Whole(elementSize)
    }

    ghost function SignalsOf(end: End): SignalsState
      reads this, producer, consumer
    {
      match end
      case Consumer => ConsumerState(cons.peerClosed, NewData(), consumer.size > 0)
      case Producer => ProducerState(prod.peerClosed, producer.size < producer.mapping.Length || |prod.control| > 0)
    }

    /** The signals tell the truth about the queue: readable when it is not empty, writable
        when it is not full and the consumer is there, new data only beyond any read span. */
    lemma SignalsTellTheTruth()
      requires Valid()
      ensures Readable in SignalsOf(Consumer).satisfied <==> |Queue()| > 0
      ensures Writable in SignalsOf(Producer).satisfied <==> !prod.peerClosed && |Queue()| < Capacity()
      ensures NewDataReadable in SignalsOf(Consumer).satisfied ==> |Queue()| > ReadSpan()
      ensures NewDataReadable in SignalsOf(Consumer).satisfied <==> NewData()
      ensures PeerClosed in SignalsOf(Consumer).satisfied <==> cons.peerClosed
      ensures PeerClosed in SignalsOf(Producer).satisfied <==> prod.peerClosed
      ensures SignalsOf(Consumer).satisfied <= SignalsOf(Consumer).satisfiable
      ensures SignalsOf(Producer).satisfied <= SignalsOf(Producer).satisfiable
      ensures SignalsOf(Consumer).satisfied <= {Readable, NewDataReadable, PeerClosed}
      ensures SignalsOf(Producer).satisfied <= {Writable, PeerClosed}
      ensures !cons.peerClosed ==>
        SignalsOf(Consumer).satisfiable == {Readable, NewDataReadable, PeerClosed, PeerRemote}
      ensures !prod.peerClosed ==> SignalsOf(Producer).satisfiable == {Writable, PeerClosed, PeerRemote}
      ensures cons.peerClosed ==> SignalsOf(Consumer).satisfiable == SignalsOf(Consumer).satisfied
      ensures prod.peerClosed ==> SignalsOf(Producer).satisfiable == {PeerClosed}
    {
      PositiveSum(prod.control);
      PositiveSum(cons.control);
    }

    /** With no two-phase operation under way, a partial transfer of whole elements moves bytes
        exactly when the signal says it will. */
    lemma TransfersIffSignalled(n: nat, flags: ReadFlags)
      requires Valid() && n > 0 && n % elementSize == 0
      requires !flags.query && !flags.allOrNone && !(flags.peek && flags.discard)
      ensures WriteResult(Capacity() - Unread(), elementSize, false, prod.peerClosed, n, false).GetOr(0) > 0 <==>
        Writable in SignalsOf(Producer).satisfied
      ensures ReadResult(Queue(), elementSize, false, cons.peerClosed, n, true, flags).Ok? <==>
        Readable in SignalsOf(Consumer).satisfied
      ensures var r := ReadResult(Queue(), elementSize, false, cons.peerClosed, n, true, flags);
        r.Ok? ==> r.value.numBytes > 0
    {
      hide Slice, ConsumerState, ProducerState;
      SignalsTellTheTruth();
    }

    /** Every live watch that has become due since the old state is among `fired`, and every callback
        there is of a live watch that is due. */
    twostate predicate Told(fired: seq<Firing>)
      reads this, producer, consumer
    {
      && DueNow(fired)
      && Notified(old(cons.watchers), old(SignalsOf(Consumer)), SignalsOf(Consumer), fired)
      && Notified(old(prod.watchers), old(SignalsOf(Producer)), SignalsOf(Producer), fired)
    }

    ghost predicate DueNow(fired: seq<Firing>)
      reads this, producer, consumer
    {
      forall f :: f in fired ==>
        f in Collect(cons.watchers, SignalsOf(Consumer)) || f in Collect(prod.watchers, SignalsOf(Producer))
    }

    /** What a watch on an end depends on. */
    ghost function ViewOf(end: End): Watched
      reads this, producer, consumer
    {
      match end
      case Producer =>
        Watched(ProducerFacts(prod.peerClosed, producer.size < producer.mapping.Length || |prod.control| > 0),
                prod.localClosed, prod.watchers)
      case Consumer =>
        Watched(ConsumerFacts(cons.peerClosed, NewData(), consumer.size > 0), cons.localClosed, cons.watchers)
    }

    lemma ViewState(end: End)
      ensures ViewOf(end).State() == SignalsOf(end)
    {
    }

    /** The two ends as watchers see them. */
    ghost function Ends(): seq<Watched>
      reads this, producer, consumer
    {
      [ViewOf(Producer), ViewOf(Consumer)]
    }

    /** What every operation but closing and watching does to its ends is lawful. */
    twostate lemma ToldIsLawful(fired: seq<Firing>)
      requires Told(fired)
      requires prod.watchers == old(prod.watchers) && prod.localClosed == old(prod.localClosed)
      requires cons.watchers == old(cons.watchers) && cons.localClosed == old(cons.localClosed)
      requires prod.peerClosed == old(prod.peerClosed) && cons.peerClosed == old(cons.peerClosed)
      ensures AllLawful(old(Ends()), Ends(), fired)
    {
      hide Collect, ConsumerState, ProducerState, Notified;
      StandingLawful(old(Ends()), Ends(), fired);
    }

    lemma SameLawful()
      ensures AllLawful(Ends(), Ends(), [])
    {
      SameIsLawful(ViewOf(Producer), []);
      SameIsLawful(ViewOf(Consumer), []);
    }

    /** Nothing that watchers see has changed. */
    twostate lemma Quiet(fired: seq<Firing>)
      requires SignalsOf(Consumer) == old(SignalsOf(Consumer)) && SignalsOf(Producer) == old(SignalsOf(Producer))
      requires cons.watchers == old(cons.watchers) && prod.watchers == old(prod.watchers) && fired == []
      ensures Told(fired)
    {
    }

    constructor (elementSize: nat, mapping: array<byte>)
      requires elementSize > 0 && mapping.Length > 0
      ensures Valid() && accepted == [] && consumed == []
      ensures this.elementSize == elementSize && consumer.mapping == mapping && prod == cons == NEW_ENDPOINT
      ensures fresh(producer) && fresh(consumer) && (mapping.Length % elementSize == 0 ==> Whole())
    {
      this.elementSize := elementSize;
      producer := new RingBuffer(mapping);
      consumer := new RingBuffer(mapping);
      prod, cons := NEW_ENDPOINT, NEW_ENDPOINT;
      accepted, consumed := [], [];
      new;
      EmptyViews();
    }

    lemma EmptyViews()
      requires producer != consumer && producer.mapping == consumer.mapping && producer.Valid() && consumer.Valid()
      requires producer.offset == consumer.offset == producer.size == consumer.size == 0
      requires prod == cons == NEW_ENDPOINT
      ensures Views() && Spans() && Unread() == 0 && Queue() == []
      ensures elementSize > 0 && consumer.mapping.Length % elementSize == 0 ==> Whole()
    {
      hide Slice;
      WrapWithin(0, consumer.mapping.Length);
    }

    // -------------------------------------------------------------- whole elements, kept

    lemma FlushProducerWhole()
      requires Views()
      ensures var v := Standing();
        Whole() ==> v.(po := Wrap(v.po + Sum(v.pc), v.cap), ps := v.ps - Sum(v.pc), pc := []).Whole(elementSize)
    {
      if Whole() { WholeAfterProducerFlush(Standing(), elementSize); }
    }

    lemma FlushConsumerWhole()
      requires Views()
      ensures var v := Standing(); Whole() ==> v.(cs := v.cs + Sum(v.cc), cc := []).Whole(elementSize)
    {
      if Whole() { WholeAfterConsumerFlush(Standing(), elementSize); }
    }

    lemma TakeWhole(n: nat)
      requires Views() && n <= consumer.size && elementSize > 0
      ensures var v := Standing();
        Whole() && n % elementSize == 0 ==>
          v.(co := Wrap(v.co + n, v.cap), cs := v.cs - n, pc := v.pc + [n]).Whole(elementSize)
    {
      if Whole() && n % elementSize == 0 { WholeAfterTake(Standing(), elementSize, n); }
    }

    // -------------------------------------------------------------- taking in the peer's updates

    /** Take in what the consumer has announced: those bytes are free again. */
    method FlushProducer()
      requires Valid()
      modifies this`prod, producer
      ensures Valid() && prod == old(prod).(control := [])
      ensures producer.offset == consumer.offset && producer.size == Unread()
      ensures Queue() == old(Queue()) && SignalsOf(Producer) == old(SignalsOf(Producer))
      ensures old(Whole()) ==> Whole()
    {
      hide ConsumerState, ProducerState, Slice, Shape.Whole, Sum, Positive, Wrap;
      FlushProducerWhole();
      PositiveSum(prod.control);
      WrapWithin(producer.offset, Capacity());
      WrapWithin(consumer.offset, Capacity());
      var changed, rest := Drain(prod.control);
      prod := prod.(control := rest);
      if changed == 0 { return; }
      WrapTwice(old(producer.offset), changed, old(producer.size) - changed, producer.mapping.Length);
      var ok := producer.DiscardAll(changed);
      assert ok;
    }

    /** Take in what the producer has announced: those bytes can be read now. */
    method FlushConsumer()
      requires Valid()
      modifies this`cons, consumer
      ensures Valid() && cons == old(cons).(control := [], hasNewData := old(NewData()))
      ensures consumer.size == Unread() && consumer.offset == old(consumer.offset)
      ensures Queue() == old(Queue()) && SignalsOf(Consumer) == old(SignalsOf(Consumer))
      ensures old(Whole()) ==> Whole()
    {
      hide ConsumerState, ProducerState, Slice, Shape.Whole, Sum, Positive, Wrap;
      FlushConsumerWhole();
      PositiveSum(cons.control);
      var changed, rest := Drain(cons.control);
      cons := cons.(control := rest);
      if changed == 0 { return; }
      NewDataSettles(cons.peerClosed, consumer.size > 0, consumer.size + changed > 0);
      var ok := consumer.ExtendDataRange(changed);
      assert ok;
      cons := cons.(hasNewData := true);
    }

    /** The consumer's signals; seeing announced data latches it as new. */
    method LatchConsumer() returns (state: SignalsState)
      requires Valid()
      modifies this`cons
      ensures Valid() && cons == old(cons).(hasNewData := old(NewData()))
      ensures state == SignalsOf(Consumer) == old(SignalsOf(Consumer)) && Queue() == old(Queue())
    {
      hide ConsumerState, Slice;
      PositiveSum(cons.control);
      var newData := cons.hasNewData || |cons.control| > 0;
      if newData { cons := cons.(hasNewData := true); }
      state := ConsumerState(cons.peerClosed, newData, consumer.size > 0);
    }

    /** Collect the consumer's due watchers. */
    method CollectConsumer() returns (fired: seq<Firing>)
      requires Valid()
      modifies this`cons
      ensures Valid() && cons == old(cons).(hasNewData := old(NewData()))
      ensures Queue() == old(Queue()) && SignalsOf(Consumer) == old(SignalsOf(Consumer))
      ensures fired == Collect(cons.watchers, SignalsOf(Consumer))
    {
      var state := LatchConsumer();
      fired := CollectWatchers(cons.watchers, state);
    }

    /** Collect the producer's due watchers. */
    method CollectProducer() returns (fired: seq<Firing>)
      requires Valid()
      ensures fired == Collect(prod.watchers, SignalsOf(Producer))
    {
      var room := producer.AvailableCapacity() > 0 || |prod.control| > 0;
      fired := CollectWatchers(prod.watchers, ProducerState(prod.peerClosed, room));
    }

    // -------------------------------------------------------------- the producer's operations

    /** The producer's view has just grown by `data`, which now stands behind the unread bytes
        and has not been announced. */
    ghost predicate Grown(data: seq<byte>)
      reads this, producer, consumer, consumer.mapping
    {
      && elementSize > 0 && producer != consumer && producer.mapping == consumer.mapping
      && producer.Valid() && consumer.Valid() && Positive(prod.control) && Positive(cons.control)
      && producer.size == Unread() + Sum(prod.control) + |data| && |data| > 0
      && consumer.offset == Wrap(producer.offset + Sum(prod.control), consumer.mapping.Length)
      && accepted == consumed + Slice(consumer.mapping[..], consumer.offset, Unread())
      && Slice(consumer.mapping[..], consumer.offset, Unread() + |data|) ==
        Slice(consumer.mapping[..], consumer.offset, Unread()) + data
      && prod.twoPhase.None?
      && (cons.twoPhase.Some? ==>
            var s := cons.twoPhase.value;
            0 < s.len && s.start == consumer.offset && s.start + s.len <= consumer.mapping.Length
              && s.len <= consumer.size)
      && (cons.hasNewData ==> Unread() > ReadSpan())
      && prod.peerClosed == cons.localClosed && cons.peerClosed == prod.localClosed
      && Hushed(prod) && Hushed(cons)
    }

    /** Announce the bytes just written and collect the consumer's watchers. */
    method Announce(ghost data: seq<byte>, n: nat) returns (fired: seq<Firing>)
      requires Grown(data) && n == |data|
      modifies this`cons, this`accepted
      ensures Valid() && cons == old(cons).(control := old(cons.control) + [n], hasNewData := true)
      ensures Unread() == old(Unread()) + n && accepted == old(accepted) + data
      ensures Queue() == old(Slice(consumer.mapping[..], consumer.offset, Unread())) + data
      ensures fired == Collect(cons.watchers, SignalsOf(Consumer))
    {
      hide ConsumerState, Slice, Collect;
      SumAppend(cons.control, n);
      cons := cons.(control := cons.control + [n]);
      accepted := accepted + data;
      PositiveSum(cons.control);
      fired := CollectConsumer();
    }

    /** Put bytes in the ring behind the unread ones, without announcing them. */
    method PutInRing(elements: seq<byte>, allOrNone: bool) returns (r: Result<nat, CoreError>)
      requires Valid() && producer.offset == consumer.offset && producer.size == Unread() && prod.control == []
      requires prod.twoPhase.None?
      modifies producer`size, producer.mapping
      ensures r == WriteResult(Capacity() - old(Unread()), 1, false, false, |elements|, allOrNone)
      ensures producer.size == old(producer.size) + r.GetOr(0)
      ensures if r.GetOr(0) > 0 then Grown(elements[..r.value]) else Valid()
      ensures Slice(consumer.mapping[..], consumer.offset, Unread()) == old(Queue())
    {
      hide ConsumerState, ProducerState, Slice, PutAt;
      ghost var mem := consumer.mapping[..];
      var written := 0;
      if allOrNone {
        var ok := producer.WriteAll(elements);
        if !ok { return Err(if |elements| == 0 then ShouldWait else OutOfRange); }
        written := |elements|;
        assert elements == elements[..written];
      } else {
        written := producer.Write(elements);
        if written == 0 { PutNothing(mem, old(producer.End())); }
        if written == 0 && |elements| > 0 { return Err(ShouldWait); }
      }
      SliceBesidePut(mem, consumer.offset, old(Unread()), elements[..written]);
      SliceExtends(mem, consumer.offset, old(Unread()), elements[..written]);
      if written == 0 { PutNothing(mem, old(producer.End())); }
      return Ok(written);
    }

    /** The step of a one-phase write that moves bytes, once the producer is up to date. */
    method WriteFlushed(elements: seq<byte>, allOrNone: bool) returns (r: Result<nat, CoreError>, fired: seq<Firing>)
      requires Valid() && producer.offset == consumer.offset && producer.size == Unread() && prod.control == []
      requires prod.twoPhase.None? && !prod.peerClosed
      modifies this`cons, this`accepted, producer, producer.mapping
      ensures Valid()
      ensures r == WriteResult(Capacity() - old(Unread()), 1, false, false, |elements|, allOrNone)
      ensures Queue() == old(Queue()) + elements[..r.GetOr(0)] && accepted == old(accepted) + elements[..r.GetOr(0)]
      ensures fired == if r.GetOr(0) > 0 then Collect(cons.watchers, SignalsOf(Consumer)) else []
      ensures if r.GetOr(0) > 0 then cons == old(cons).(control := old(cons.control) + [r.value], hasNewData := true)
        else cons == old(cons)
      ensures producer.offset == old(producer.offset) && producer.size == old(producer.size) + r.GetOr(0)
      ensures old(Whole()) && |elements| % elementSize == 0 ==> Whole()
    {
      hide ConsumerState, ProducerState, Slice, Collect, WriteResult, Grown, Shape.Whole;
      ghost var v, n := Standing(), WriteResult(Capacity() - Unread(), 1, false, false, |elements|, allOrNone).GetOr(0);
      if v.Whole(elementSize) && |elements| % elementSize == 0 {
        WholeAfterRing(v, elementSize, |elements|, allOrNone);
      }
      r := PutInRing(elements, allOrNone);
      fired := [];
      if r.GetOr(0) == 0 { return; }
      fired := Announce(elements[..r.value], r.value);
    }

    lemma NothingWhole(v: Shape, es: nat)
      requires v.Whole(es)
      ensures es > 0 && 0 % es == 0
    {
    }

    /** Whatever a write of whole elements takes is whole. */
    lemma WholeAfterRing(v: Shape, es: nat, len: nat, allOrNone: bool)
      requires v.Whole(es) && len % es == 0 && v.ps <= v.cap
      ensures var n := WriteResult(v.cap - v.ps, 1, false, false, len, allOrNone).GetOr(0);
        n % es == 0 && v.(ps := v.ps + n, cc := v.cc + [n]).Whole(es)
    {
      hide Shape.Whole;
      WholeCut(v, es, len);
      assert 0 % es == 0 by { NothingWhole(v, es); }
      WholeAfterWrite(v, es, WriteResult(v.cap - v.ps, 1, false, false, len, allOrNone).GetOr(0));
    }

    /** One-phase write: a bounded queue's write, whatever the views lag. */
    method Write(elements: seq<byte>, allOrNone: bool) returns (r: Result<nat, CoreError>, fired: seq<Firing>)
      requires Valid()
      modifies this`prod, this`cons, this`accepted, producer, producer.mapping
      ensures Valid() && Told(fired)
      ensures r == WriteResult(Capacity() - old(Unread()), elementSize, prod.twoPhase.Some?, prod.peerClosed,
        |elements|, allOrNone)
      ensures WriteAnswers(Capacity() - old(Unread()), elementSize, prod.twoPhase.Some?, prod.peerClosed, |elements|,
        allOrNone, r)
      ensures Queue() == old(Queue()) + elements[..r.GetOr(0)] && accepted == old(accepted) + elements[..r.GetOr(0)]
      ensures prod.twoPhase.Some? ==> consumer.mapping[..] == old(consumer.mapping[..])
      ensures prod.(control := []) == old(prod).(control := [])
      ensures cons.(control := [], hasNewData := false) == old(cons).(control := [], hasNewData := false)
      ensures NewData() == (old(NewData()) || r.GetOr(0) > 0)
      ensures old(Whole()) ==> Whole()
    {
      hide ConsumerState, ProducerState, Slice, Shape.Whole, Collect, Notified, Positive, Sum, Wrap, WriteAnswers;
      WriteKept(Capacity() - Unread(), elementSize, prod.twoPhase.Some?, prod.peerClosed, |elements|, allOrNone);
      if |elements| % elementSize != 0 {
        Quiet([]);
        return Err(InvalidArgument), [];
      }
      FlushProducer();
      if prod.twoPhase.Some? {
        Quiet([]);
        return Err(Busy), [];
      }
      if prod.peerClosed {
        Quiet([]);
        return Err(FailedPrecondition), [];
      }
      ghost var room := producer.size < producer.mapping.Length || |prod.control| > 0;
      r, fired := WriteFlushed(elements, allOrNone);
      WriteIsQuiet(prod.watchers, prod.peerClosed, room, producer.size < producer.mapping.Length, fired);
      CollectNotifies(cons.watchers, old(SignalsOf(Consumer)), SignalsOf(Consumer),
        Collect(cons.watchers, SignalsOf(Consumer)));
      if r.GetOr(0) == 0 { Quiet([]); }
    }

    /** The unread bytes end where the producer's view ends. */
    lemma QueueEnd()
      requires Views()
      ensures producer.End() == Wrap(consumer.offset + Unread(), consumer.mapping.Length)
    {
      WrapTwice(producer.offset, Sum(prod.control), Unread(), producer.mapping.Length);
    }

    /** Begin a two-phase write: the span is the first free stretch behind the unread bytes. */
    method BeginWrite() returns (r: Result<Span, CoreError>)
      requires Valid()
      modifies this`prod, producer
      ensures Valid() && Told([]) && Queue() == old(Queue())
      ensures var room, start := Capacity() - Unread(), Wrap(consumer.offset + Unread(), Capacity());
        r == if old(prod.twoPhase.Some?) then Err(Busy) else if prod.peerClosed then Err(FailedPrecondition)
             else if room == 0 then Err(ShouldWait) else Ok(Span(start, Min(room, Capacity() - start)))
      ensures prod == old(prod).(control := [], twoPhase := if r.Ok? then Some(r.value) else old(prod.twoPhase))
      ensures old(Whole()) ==> Whole()
    {
      hide ConsumerState, ProducerState, Slice, Shape.Whole, Notified;
      FlushProducer();
      QueueEnd();
      Quiet([]);
      if prod.twoPhase.Some? { return Err(Busy); }
      if prod.peerClosed { return Err(FailedPrecondition); }
      var span := producer.AvailableCapacityView();
      if span.len == 0 { return Err(ShouldWait); }
      prod := prod.(twoPhase := Some(span));
      return Ok(span);
    }

    /** The producer's client writes into its span; nothing unread is touched. */
    method FillSpan(at: nat, data: seq<byte>)
      requires Valid() && prod.twoPhase.Some? && at + |data| <= prod.twoPhase.value.len
      modifies consumer.mapping
      ensures Valid() && Queue() == old(Queue())
      ensures var from := prod.twoPhase.value.start + at;
        consumer.mapping[..] == old(consumer.mapping[..from]) + data + old(consumer.mapping[from + |data|..])
    {
      hide ConsumerState, ProducerState, Slice, Shape.Whole, PutAt, Sum, Positive, Wrap;
      if |data| == 0 { return; }
      var from := prod.twoPhase.value.start + at;
      ghost var mem := consumer.mapping[..];
      QueueEnd();
      WriteInPlace(consumer.mapping, from, data);
      SliceBefore(mem, consumer.offset, Unread(), at, from, data);
    }

    /** The checks that end a two-phase operation on either side. */
    method CheckEnd(span: Option<nat>, n: nat) returns (r: Result<nat, CoreError>)
      requires elementSize > 0
      ensures r == EndResult(span, elementSize, n) && EndAnswers(span, elementSize, n, r)
    {
      EndKept(span, elementSize, n);
      if span.None? { return Err(FailedPrecondition); }
      if n % elementSize != 0 { return Err(InvalidArgument); }
      if n == 0 { return Ok(0); }
      if n > span.value { return Err(InvalidArgument); }
      return Ok(n);
    }

    /** End a two-phase write: the first `n` bytes of the span join the queue. The operation
        is over even when this fails. */
    method EndWrite(n: nat) returns (r: Result<nat, CoreError>, fired: seq<Firing>)
      requires Valid()
      modifies this`prod, this`cons, this`accepted, producer
      ensures Valid() && Told(fired)
      ensures var span := old(prod.twoPhase);
        && r == EndResult(Length(span), elementSize, n) && EndAnswers(Length(span), elementSize, n, r)
        && var data := if r.Ok? then consumer.mapping[span.value.start..span.value.start + n] else [];
        Queue() == old(Queue()) + data && accepted == old(accepted) + data
      ensures prod == old(prod).(twoPhase := None)
      ensures cons.(control := [], hasNewData := false) == old(cons).(control := [], hasNewData := false)
      ensures NewData() == (old(NewData()) || r.GetOr(0) > 0)
      ensures old(Whole()) ==> Whole()
    {
      hide ConsumerState, ProducerState, Slice, Shape.Whole, Collect, Notified, Sum, Positive, Wrap;
      Quiet([]);
      var span := prod.twoPhase;
      r := CheckEnd(Length(span), n);
      prod := prod.(twoPhase := None);
      if r.GetOr(0) == 0 { return r, []; }
      fired := Commit(span.value, n);
    }

    /** The bytes the client has put at the front of its span join the queue. */
    method Commit(span: Span, n: nat) returns (fired: seq<Firing>)
      requires Valid() && prod.twoPhase.None? && 0 < n <= span.len && span.start == producer.End()
      requires span.start + span.len <= Capacity() && span.len <= Capacity() - producer.size
      modifies this`cons, this`accepted, producer
      ensures Valid() && Told(fired)
      ensures var data := consumer.mapping[span.start..span.start + n];
        Queue() == old(Queue()) + data && accepted == old(accepted) + data
      ensures cons == old(cons).(control := old(cons.control) + [n], hasNewData := true)
      ensures old(Whole()) && n % elementSize == 0 ==> Whole()
    {
      hide ConsumerState, ProducerState, Slice, Shape.Whole, Collect, Notified, Positive, Sum, Wrap;
      if Whole() && n % elementSize == 0 { WholeAfterWrite(Standing(), elementSize, n); }
      ghost var data := consumer.mapping[span.start..span.start + n];
      QueueEnd();
      SliceStraight(consumer.mapping[..], span.start, n);
      SliceJoin(consumer.mapping[..], consumer.offset, Unread(), n);
      ghost var room := producer.size < producer.mapping.Length || |prod.control| > 0;
      var ok := producer.ExtendDataRange(n);
      fired := Announce(data, n);
      WriteIsQuiet(prod.watchers, prod.peerClosed, room, producer.size < producer.mapping.Length || |prod.control| > 0,
        fired);
      CollectNotifies(cons.watchers, old(SignalsOf(Consumer)), SignalsOf(Consumer), fired);
    }

    // -------------------------------------------------------------- the consumer's operations

    /** The consumer's view has just given up its first bytes, `data`, unannounced. */
    ghost predicate Shrunk(data: seq<byte>)
      reads this, producer, consumer, consumer.mapping
    {
      && elementSize > 0 && producer != consumer && producer.mapping == consumer.mapping
      && producer.Valid() && consumer.Valid() && Positive(prod.control) && Positive(cons.control) && |data| > 0
      && producer.size == Unread() + Sum(prod.control) + |data|
      && consumer.offset == Wrap(producer.offset + Sum(prod.control) + |data|, consumer.mapping.Length)
      && accepted == consumed + data + Slice(consumer.mapping[..], consumer.offset, Unread())
      && cons.twoPhase.None? && (cons.hasNewData ==> Unread() > 0)
      && (prod.twoPhase.Some? ==>
            var s := prod.twoPhase.value;
            0 < s.len && s.start == producer.End() && s.start + s.len <= producer.mapping.Length
            && s.len <= producer.mapping.Length - producer.size)
      && prod.peerClosed == cons.localClosed && cons.peerClosed == prod.localClosed
      && Hushed(prod) && Hushed(cons)
    }

    /** Announce the bytes just taken and collect the producer's watchers. */
    method AnnounceTaken(ghost data: seq<byte>, n: nat) returns (fired: seq<Firing>)
      requires Shrunk(data) && n == |data|
      modifies this`prod, this`consumed
      ensures Valid() && prod == old(prod).(control := old(prod.control) + [n])
      ensures Unread() == old(Unread()) && consumed == old(consumed) + data
      ensures Queue() == old(Slice(consumer.mapping[..], consumer.offset, Unread()))
      ensures fired == Collect(prod.watchers, SignalsOf(Producer))
    {
      hide ConsumerState, ProducerState, Slice, Shape.Whole, Collect;
      SumAppend(prod.control, n);
      prod := prod.(control := prod.control + [n]);
      consumed := consumed + data;
      fired := CollectProducer();
    }

    /** Begin a two-phase read: the span is the first stretch of the unread bytes. */
    method BeginRead() returns (r: Result<Span, CoreError>)
      requires Valid()
      modifies this`cons, consumer
      ensures Valid() && Told([]) && Queue() == old(Queue())
      ensures r == if old(cons.twoPhase.Some?) then Err(Busy)
        else if Unread() == 0 then Err(if cons.peerClosed then FailedPrecondition else ShouldWait)
        else Ok(Span(consumer.offset, Min(Unread(), Capacity() - consumer.offset)))
      ensures r.Ok? ==> consumer.mapping[r.value.start..r.value.start + r.value.len] == Queue()[..r.value.len]
      ensures cons == old(cons).(control := [], twoPhase := if r.Ok? then Some(r.value) else old(cons.twoPhase),
                                 hasNewData := old(NewData()) && r.Err?)
      ensures old(Whole()) ==> Whole()
    {
      hide ConsumerState, ProducerState, Slice, Shape.Whole, Notified, Positive, Sum, Wrap;
      FlushConsumer();
      Quiet([]);
      if cons.twoPhase.Some? { return Err(Busy); }
      var span := consumer.ReadableDataView();
      if span.len == 0 { return Err(if cons.peerClosed then FailedPrecondition else ShouldWait); }
      ReadIsQuiet(cons.watchers, cons.peerClosed, NewData(), consumer.size > 0, false, consumer.size > 0, []);
      cons := cons.(twoPhase := Some(span), hasNewData := false);
      SliceStraight(consumer.mapping[..], span.start, span.len);
      SliceDrop(consumer.mapping[..], consumer.offset, Unread(), span.len);
      return Ok(span);
    }

    /** End a two-phase read: the first `n` bytes of the span leave the queue. The operation
        is over even when this fails. */
    method EndRead(n: nat) returns (r: Result<nat, CoreError>, fired: seq<Firing>)
      requires Valid()
      modifies this`prod, this`cons, this`consumed, consumer
      ensures Valid() && Told(fired)
      ensures r == EndResult(Length(old(cons.twoPhase)), elementSize, n)
      ensures EndAnswers(Length(old(cons.twoPhase)), elementSize, n, r)
      ensures r.GetOr(0) <= old(Unread())
      ensures Queue() == old(Queue())[r.GetOr(0)..] && consumed == old(consumed) + old(Queue())[..r.GetOr(0)]
      ensures cons == old(cons).(twoPhase := None)
      ensures prod.(control := []) == old(prod).(control := [])
      ensures old(Whole()) ==> Whole()
    {
      hide ConsumerState, ProducerState, Slice, Shape.Whole, Collect, Notified, Positive, Sum, Wrap;
      Quiet([]);
      var span := cons.twoPhase;
      r := CheckEnd(Length(span), n);
      cons := cons.(twoPhase := None);
      if r.GetOr(0) == 0 { return r, []; }
      fired := Take(n);
    }

    /** The first `n` bytes of the consumer's view leave the queue. */
    method Take(n: nat) returns (fired: seq<Firing>)
      requires Valid() && cons.twoPhase.None? && 0 < n <= consumer.size && (cons.hasNewData ==> n < Unread())
      modifies this`prod, this`consumed, consumer
      ensures Valid() && Told(fired)
      ensures Queue() == old(Queue())[n..] && consumed == old(consumed) + old(Queue())[..n]
      ensures prod == old(prod).(control := old(prod.control) + [n])
      ensures consumer.size == old(consumer.size) - n
      ensures old(Whole()) && n % elementSize == 0 ==> Whole()
    {
      hide ConsumerState, ProducerState, Slice, Shape.Whole, Collect, Notified, Positive, Sum, Wrap;
      TakeWhole(n);
      ghost var data := Queue()[..n];
      ghost var had, newData := consumer.size > 0, NewData();
      SliceDrop(consumer.mapping[..], consumer.offset, Unread(), n);
      WrapTwice(producer.offset, Sum(prod.control), n, producer.mapping.Length);
      var ok := consumer.DiscardAll(n);
      fired := AnnounceTaken(data, n);
      ReadIsQuiet(cons.watchers, cons.peerClosed, newData, had, newData, consumer.size > 0, fired);
      CollectNotifies(prod.watchers, old(SignalsOf(Producer)), SignalsOf(Producer), fired);
    }

    /** What a read of up to date data returns: a copy unless discarding. */
    method Deliver(n: nat, flags: ReadFlags) returns (r: Result<ReadOutcome, CoreError>)
      requires Valid() && cons.control == [] && !flags.query && !(flags.peek && flags.discard)
      ensures r == ReadResult(Queue(), 1, false, cons.peerClosed, n, true, flags)
    {
      hide Slice;
      var size := consumer.DataSize();
      if flags.allOrNone && n > size { return Err(if cons.peerClosed then FailedPrecondition else OutOfRange); }
      if !flags.allOrNone && size == 0 { return Err(if cons.peerClosed then FailedPrecondition else ShouldWait); }
      var k, data := Min(n, size), [];
      if !flags.discard { data := consumer.Peek(k); }
      return Ok(ReadOutcome(k, data));
    }

    /** A read of up to date data, which leaves the queue unless peeking. */
    method ReadFlushed(n: nat, flags: ReadFlags) returns (r: Result<ReadOutcome, CoreError>, fired: seq<Firing>)
      requires Valid() && cons.control == [] && cons.twoPhase.None? && !cons.hasNewData
      requires !flags.query && !(flags.peek && flags.discard)
      modifies this`prod, this`consumed, consumer
      ensures Valid() && Told(fired)
      ensures r == ReadResult(old(Queue()), 1, false, cons.peerClosed, n, true, flags)
      ensures Taken(r, flags) <= old(Unread()) && Queue() == old(Queue())[Taken(r, flags)..]
      ensures consumed == old(consumed) + old(Queue())[..Taken(r, flags)]
      ensures prod.(control := []) == old(prod).(control := [])
      ensures old(Whole()) && n % elementSize == 0 ==> Whole()
    {
      hide ConsumerState, ProducerState, Slice, Shape.Whole, Collect, Notified;
      if Whole() && n % elementSize == 0 { WholeCut(Standing(), elementSize, n); }
      Quiet([]);
      r := Deliver(n, flags);
      var k := Taken(r, flags);
      if k == 0 { return r, []; }
      fired := Take(k);
    }

    /** One-phase read, query, peek or discard: a bounded queue's, whatever the views lag. Any
        read that gets as far as the data clears the new-data latch, even if it then fails. */
    method Read(n: nat, hasBuffer: bool, flags: ReadFlags)
      returns (r: Result<ReadOutcome, CoreError>, fired: seq<Firing>)
      requires Valid()
      modifies this`prod, this`cons, this`consumed, consumer
      ensures Valid() && Told(fired)
      ensures r == ReadResult(old(Queue()), elementSize, cons.twoPhase.Some?, cons.peerClosed, n, hasBuffer, flags)
      ensures ReadAnswers(old(Queue()), elementSize, cons.twoPhase.Some?, cons.peerClosed, n, hasBuffer, flags, r)
      ensures var k := Taken(r, flags);
        && k <= old(Unread()) && Queue() == old(Queue())[k..] && consumed == old(consumed) + old(Queue())[..k]
        && ReadTakes(flags, r, old(Queue()), old(Queue())[..k], Queue())
      ensures prod.(control := []) == old(prod).(control := [])
      ensures cons.(control := [], hasNewData := false) == old(cons).(control := [], hasNewData := false)
      ensures NewData() == (old(NewData()) &&
        (r == Err(InvalidArgument) || cons.twoPhase.Some? || flags.query))
      ensures old(Whole()) ==> Whole()
    {
      hide ConsumerState, ProducerState, Slice, Shape.Whole, Collect, Notified, Positive, Sum, Wrap, ReadAnswers,
        ReadTakes, ReadResult;
      ghost var q := Queue();
      ReadKept(q, elementSize, cons.twoPhase.Some?, cons.peerClosed, n, hasBuffer, flags);
      r, fired := ReadQueue(n, hasBuffer, flags);
    }

    /** The read by its result alone. */
    method ReadQueue(n: nat, hasBuffer: bool, flags: ReadFlags)
      returns (r: Result<ReadOutcome, CoreError>, fired: seq<Firing>)
      requires Valid()
      modifies this`prod, this`cons, this`consumed, consumer
      ensures Valid() && Told(fired)
      ensures r == ReadResult(old(Queue()), elementSize, cons.twoPhase.Some?, cons.peerClosed, n, hasBuffer, flags)
      ensures Taken(r, flags) <= old(Unread()) && Queue() == old(Queue())[Taken(r, flags)..]
      ensures consumed == old(consumed) + old(Queue())[..Taken(r, flags)]
      ensures prod.(control := []) == old(prod).(control := [])
      ensures cons.(control := [], hasNewData := false) == old(cons).(control := [], hasNewData := false)
      ensures NewData() == (old(NewData()) &&
        (r == Err(InvalidArgument) || cons.twoPhase.Some? || flags.query))
      ensures old(Whole()) ==> Whole()
    {
      hide ConsumerState, ProducerState, Slice, Shape.Whole, Collect, Notified, Positive, Sum, Wrap, ReadResult;
      ReadInOrder(Queue(), elementSize, cons.twoPhase.Some?, cons.peerClosed, n, hasBuffer, flags);
      Quiet([]);
      if BadRead(n, hasBuffer, flags) { return Err(InvalidArgument), []; }
      FlushConsumer();
      if cons.twoPhase.Some? { return Err(Busy), []; }
      if flags.query { return Ok(ReadOutcome(consumer.DataSize(), [])), []; }
      if n % elementSize != 0 { return Err(InvalidArgument), []; }
      r, fired := ReadLatched(n, flags);
    }

    /** The latch is cleared before the data is looked at. */
    method ReadLatched(n: nat, flags: ReadFlags) returns (r: Result<ReadOutcome, CoreError>, fired: seq<Firing>)
      requires Valid() && cons.control == [] && cons.twoPhase.None?
      requires !flags.query && !(flags.peek && flags.discard)
      modifies this`prod, this`cons, this`consumed, consumer
      ensures Valid() && Told(fired)
      ensures r == ReadResult(old(Queue()), 1, false, cons.peerClosed, n, true, flags)
      ensures Taken(r, flags) <= old(Unread()) && Queue() == old(Queue())[Taken(r, flags)..]
      ensures consumed == old(consumed) + old(Queue())[..Taken(r, flags)]
      ensures prod.(control := []) == old(prod).(control := []) && cons == old(cons).(hasNewData := false)
      ensures old(Whole()) && n % elementSize == 0 ==> Whole()
    {
      hide ConsumerState, ProducerState, Slice, Shape.Whole, Collect, Notified;
      ghost var newData, had := NewData(), consumer.size > 0;
      cons := cons.(hasNewData := false);
      r, fired := ReadFlushed(n, flags);
      ReadIsQuiet(cons.watchers, cons.peerClosed, newData, had, NewData(), consumer.size > 0, fired);
    }

    // -------------------------------------------------------------- signals, watches and closing

    /** The signal query of either end: take in updates first, then look. */
    method QuerySignals(end: End) returns (state: SignalsState)
      requires Valid()
      modifies this`prod, this`cons, producer, consumer
      ensures Valid() && Told([]) && Queue() == old(Queue())
      ensures state == SignalsOf(end) == old(SignalsOf(end))
      ensures SignalsOf(Producer) == old(SignalsOf(Producer)) && SignalsOf(Consumer) == old(SignalsOf(Consumer))
      ensures prod.(control := []) == old(prod).(control := [])
      ensures cons.(control := [], hasNewData := false) == old(cons).(control := [], hasNewData := false)
      ensures old(Whole()) ==> Whole()
    {
      hide Slice, Notified, Shape.Whole;
      match end {
        case Producer =>
          FlushProducer();
          state := ProducerState(prod.peerClosed, producer.AvailableCapacity() > 0 || |prod.control| > 0);
        case Consumer =>
          FlushConsumer();
          state := LatchConsumer();
      }
      Quiet([]);
    }

    /** Close the producer's end: its watchers are cancelled, the consumer's are told. */
    method CloseProducer() returns (cancelled: seq<Firing>, fired: seq<Firing>)
      requires Valid()
      modifies this`prod, this`cons
      ensures Valid() && Queue() == old(Queue()) && prod.localClosed && cons.peerClosed && Standing() == old(Standing())
      ensures cancelled == if old(prod.localClosed) then [] else Cancellations(old(prod.watchers))
      ensures fired == if old(prod.localClosed) then [] else Collect(cons.watchers, SignalsOf(Consumer))
      ensures prod == if old(prod.localClosed) then old(prod)
        else old(prod).(localClosed := true, watchers := CancelAll(old(prod.watchers)))
      ensures cons == if old(prod.localClosed) then old(cons)
        else old(cons).(peerClosed := true, hasNewData := old(NewData()))
      ensures NewData() == old(NewData()) && SignalsOf(Producer) == old(SignalsOf(Producer))
      ensures AllLawful(old(Ends()), Ends(), cancelled + fired)
    {
      hide ConsumerState, ProducerState, Slice, Shape.Whole, Collect, CancelAll, Cancellations, Positive, Sum, Wrap,
        AllLawful, Watched.State;
      SameLawful();
      if prod.localClosed {
        cancelled, fired := [], [];
        assert cancelled + fired == [];
        return;
      }
      var after;
      after, cancelled := CancelWatchers(prod.watchers);
      prod := prod.(localClosed := true, watchers := after);
      cons := cons.(peerClosed := true);
      fired := CollectConsumer();
      ViewState(Consumer);
      ClosingIsLawful(old(Ends()), Ends(), 0, 1, cancelled, fired);
    }

    /** Close the consumer's end: its watchers are cancelled, the producer's are told. */
    method CloseConsumer() returns (cancelled: seq<Firing>, fired: seq<Firing>)
      requires Valid()
      modifies this`prod, this`cons
      ensures Valid() && Queue() == old(Queue()) && cons.localClosed && prod.peerClosed && Standing() == old(Standing())
      ensures cancelled == if old(cons.localClosed) then [] else Cancellations(old(cons.watchers))
      ensures fired == if old(cons.localClosed) then [] else Collect(prod.watchers, SignalsOf(Producer))
      ensures cons == if old(cons.localClosed) then old(cons)
        else old(cons).(localClosed := true, watchers := CancelAll(old(cons.watchers)))
      ensures prod == (if old(cons.localClosed) then old(prod) else old(prod).(peerClosed := true))
      ensures SignalsOf(Consumer) == old(SignalsOf(Consumer))
      ensures AllLawful(old(Ends()), Ends(), cancelled + fired)
    {
      hide ConsumerState, ProducerState, Slice, Shape.Whole, Collect, CancelAll, Cancellations, Positive, Sum, Wrap,
        AllLawful, Watched.State;
      SameLawful();
      if cons.localClosed {
        cancelled, fired := [], [];
        assert cancelled + fired == [];
        return;
      }
      var after;
      after, cancelled := CancelWatchers(cons.watchers);
      cons := cons.(localClosed := true, watchers := after);
      prod := prod.(peerClosed := true);
      fired := CollectProducer();
      ViewState(Producer);
      ClosingIsLawful(old(Ends()), Ends(), 1, 0, cancelled, fired);
    }

    /** Watch an end; on an end already closed the watch is silently dropped. */
    method RegisterWatch(end: End, w: Watcher)
      requires Valid()
      modifies this`prod, this`cons
      ensures Valid() && Queue() == old(Queue())
      ensures SignalsOf(Producer) == old(SignalsOf(Producer)) && SignalsOf(Consumer) == old(SignalsOf(Consumer))
      ensures prod ==
        if end.Producer? && !old(prod.localClosed) then old(prod).(watchers := old(prod.watchers) + [w]) else old(prod)
      ensures cons ==
        if end.Consumer? && !old(cons.localClosed) then old(cons).(watchers := old(cons.watchers) + [w]) else old(cons)
    {
      hide ConsumerState, ProducerState, Slice, Shape.Whole;
      match end {
        case Producer => if !prod.localClosed { prod := prod.(watchers := prod.watchers + [w]); }
        case Consumer => if !cons.localClosed { cons := cons.(watchers := cons.watchers + [w]); }
      }
    }

    method CancelWatch(end: End, id: nat)
      requires Valid()
      modifies this`prod, this`cons
      ensures Valid() && Queue() == old(Queue())
      ensures SignalsOf(Producer) == old(SignalsOf(Producer)) && SignalsOf(Consumer) == old(SignalsOf(Consumer))
      ensures prod == if end.Producer? then old(prod).(watchers := CancelOne(old(prod.watchers), id)) else old(prod)
      ensures cons == if end.Consumer? then old(cons).(watchers := CancelOne(old(cons.watchers), id)) else old(cons)
    {
      hide ConsumerState, ProducerState, Slice, Shape.Whole, CancelOne;
      match end {
        case Producer => prod := prod.(watchers := CancelOne(prod.watchers, id));
        case Consumer => cons := cons.(watchers := CancelOne(cons.watchers, id));
      }
    }
  }

  // ---------------------------------------------------------------- runs

  /** One step of the two clients, in any order; every one is atomic under the pair's lock
      except filling the span, which happens outside it. */
  datatype Step =
    | Write(elements: seq<byte>, allOrNone: bool)
    | BeginWrite
    | Fill(at: nat, data: seq<byte>)
    | EndWrite(n: nat)
    | Read(n: nat, hasBuffer: bool, flags: ReadFlags)
    | BeginRead
    | EndRead(n: nat)
    | Query(end: End)
    | Close(end: End)
    | Watch(end: End, w: Watcher)
    | Unwatch(end: End, id: nat)

  /** What a step returns to its caller. */
  datatype Outcome =
    | Wrote(w: Result<nat, CoreError>)
    | Had(r: Result<ReadOutcome, CoreError>)
    | Freed(n: Result<nat, CoreError>)
    | Spanned(s: Result<Span, CoreError>)
    | Saw(state: SignalsState)
    | Nothing

  /** What a step answers, going by where the pipe stood; and that the bytes that join or leave the
      queue are those the caller was told of: the accepted prefix of a write, the front of the span
      a two-phase write or read ends with, the bytes a read returned or, when it discards, as many
      as it said. A read that fails, peeks or queries takes nothing. */
  ghost predicate Moved(step: Step, outcome: Outcome, m: Moment, added: seq<byte>, taken: seq<byte>) {
    m.Possible() &&
    match step
    case Write(elements, allOrNone) =>
      && outcome.Wrote? && taken == [] && outcome.w.GetOr(0) <= |elements| && added == elements[..outcome.w.GetOr(0)]
      && WriteAnswers(|m.mem| - |m.queue|, m.elementSize, m.writing.Some?, m.noReader, |elements|, allOrNone, outcome.w)
    case EndWrite(n) =>
      && outcome.Wrote? && taken == [] && Ended(outcome.w, m.mem, m.writing, n, added)
      && EndAnswers(Length(m.writing), m.elementSize, n, outcome.w)
    case Read(n, hasBuffer, flags) =>
      && outcome.Had? && added == []
      && ReadAnswers(m.queue, m.elementSize, m.reading.Some?, m.noWriter, n, hasBuffer, flags, outcome.r)
      && |taken| <= |m.queue| && ReadTakes(flags, outcome.r, m.queue, taken, m.queue[|taken|..])
    case EndRead(n) =>
      && outcome.Freed? && added == [] && Ended(outcome.n, m.mem, m.reading, n, taken)
      && EndAnswers(Length(m.reading), m.elementSize, n, outcome.n)
    case _ => added == taken == []
  }

  /** A two-phase operation has ended with all of the first `n` bytes of its span, or has failed. */
  ghost predicate Ended(r: Result<nat, CoreError>, mem: seq<byte>, span: Option<Span>, n: nat, data: seq<byte>) {
    if r.Err? then data == []
    else span.Some? && r == Ok(n) && n <= span.value.len && |data| == n && data == Front(mem, span, n)
  }

  /** The ring's memory after a client has filled part of its span. */
  function Filled(m: Moment, at: nat, data: seq<byte>): seq<byte> {
    if m.writing.Some? && at + |data| <= m.writing.value.len && m.writing.value.start + at + |data| <= |m.mem| then
      var from := m.writing.value.start + at;
      m.mem[..from] + data + m.mem[from + |data|..]
    else m.mem
  }

  /** How a step leaves what the clients have in their hands. A span is lent when an operation
      begins and given back when it ends; until then only filling changes what is in a write span,
      and nothing what is in a read span. */
  ghost predicate Lends(step: Step, outcome: Outcome, m: Moment, m': Moment) {
    && Turns(step, m, m')
    && Lent(step.BeginWrite?, step.EndWrite?, outcome, m.writing, m'.writing)
    && Lent(step.BeginRead?, step.EndRead?, outcome, m.reading, m'.reading)
    && |m'.mem| == |m.mem|
    && (step.Fill? ==> m'.mem == Filled(m, step.at, step.data))
    && (step.Write? ==> m.writing.None? || m'.mem == m.mem)
    && (!step.Fill? && !step.Write? ==> m'.mem == m.mem)
    && (m.reading.Some? ==>
          var span := m.reading.value;
          span.start + span.len <= |m.mem| && Front(m'.mem, m.reading, span.len) == Front(m.mem, m.reading, span.len))
    && (m.writing.Some? ==> m.writing.value.start + m.writing.value.len <= |m.mem|)
  }

  /** Only closing an end changes who has closed. */
  ghost predicate Turns(step: Step, m: Moment, m': Moment) {
    && m'.elementSize == m.elementSize
    && m'.noReader == (m.noReader || step == Close(Consumer)) && m'.noWriter == (m.noWriter || step == Close(Producer))
  }

  ghost predicate Lent(begins: bool, ends: bool, outcome: Outcome, span: Option<Span>, span': Option<Span>) {
    if begins then
      && outcome.Spanned? && span' == (if outcome.s.Ok? then Some(outcome.s.value) else span)
      && (span.Some? ==> outcome.s == Err(Busy))
    else span' == if ends then None else span
  }

  /** The reference queue's step: what is taken leaves the front, what is added joins at the back. */
  ghost predicate StreamStep(q0: seq<byte>, added: seq<byte>, taken: seq<byte>, q1: seq<byte>) {
    |taken| <= |q0| && taken == q0[..|taken|] && q1 == q0[|taken|..] + added
  }

  /** What a step does to the ends as watchers see them: watching and unwatching change the list
      of watches, everything else is one lawful operation on both ends. */
  ghost predicate Seen(step: Step, before: seq<Watched>, after: seq<Watched>, fired: seq<Firing>) {
    |before| == 2 &&
    match step
    case Watch(e, w) =>
      var end := before[Place(e)];
      fired == []
        && after == before[Place(e) := end.(watchers := if end.closed then end.watchers else end.watchers + [w])]
    case Unwatch(e, id) =>
      var end := before[Place(e)];
      fired == [] && after == before[Place(e) := end.(watchers := CancelOne(end.watchers, id))]
    case _ => AllLawful(before, after, fired)
  }

  /** An end's place among the two. */
  function Place(e: End): nat {
    if e.Producer? then 0 else 1
  }

  method Do(pair: Pair, step: Step)
    returns (outcome: Outcome, fired: seq<Firing>, ghost added: seq<byte>, ghost taken: seq<byte>)
    requires pair.Valid()
    modifies pair, pair.producer, pair.consumer, pair.consumer.mapping
    ensures pair.Valid()
    ensures Moved(step, outcome, old(pair.Now()), added, taken) && Lends(step, outcome, old(pair.Now()), pair.Now())
    ensures StreamStep(old(pair.Queue()), added, taken, pair.Queue())
    ensures pair.accepted == old(pair.accepted) + added && pair.consumed == old(pair.consumed) + taken
    ensures Seen(step, old(pair.Ends()), pair.Ends(), fired)
    ensures old(pair.Whole()) ==> pair.Whole()
  {
    hide Slice, ConsumerState, ProducerState, StreamStep, Moved, Lends, Shape.Whole, Lawful, CancelOne, Notified;
    if step.Write? {
      outcome, fired, added := DoWrite(pair, step.elements, step.allOrNone);
      taken := [];
    } else if step.EndWrite? {
      outcome, fired, added := DoEndWrite(pair, step.n);
      taken := [];
    } else if step.Read? || step.EndRead? {
      outcome, fired, taken := DoRead(pair, step);
      added := [];
    } else {
      added, taken := [], [];
      NothingMoves(step, pair.Queue());
      if step.Watch? || step.Unwatch? || step.Close? {
        outcome, fired := DoWatch(pair, step);
      } else if step.Fill? {
        DoFill(pair, step.at, step.data);
        outcome, fired := Nothing, [];
        assert pair.accepted + [] == pair.accepted && pair.consumed + [] == pair.consumed;
      } else {
        outcome, fired := DoQuiet(pair, step);
      }
    }
  }

  /** What holds between any two steps of which the second only adds to the queue. */
  lemma StillShows(m: Moment, m': Moment)
    requires Shows(m) && Shows(m') && m'.reading == m.reading && m.queue <= m'.queue
    ensures m.reading.Some? ==>
      Front(m'.mem, m.reading, m.reading.value.len) == Front(m.mem, m.reading, m.reading.value.len)
  {
    if m.reading.Some? {
      var len := m.reading.value.len;
      assert m'.queue[..len] == m.queue[..len];
    }
  }

  /** The steps that add to the stream. */
  method DoWrite(pair: Pair, elements: seq<byte>, allOrNone: bool)
    returns (outcome: Outcome, fired: seq<Firing>, ghost added: seq<byte>)
    requires pair.Valid()
    modifies pair, pair.producer, pair.consumer, pair.consumer.mapping
    ensures pair.Valid()
    ensures Moved(Write(elements, allOrNone), outcome, old(pair.Now()), added, [])
    ensures Lends(Write(elements, allOrNone), outcome, old(pair.Now()), pair.Now())
    ensures StreamStep(old(pair.Queue()), added, [], pair.Queue())
    ensures pair.accepted == old(pair.accepted) + added && pair.consumed == old(pair.consumed) + []
    ensures AllLawful(old(pair.Ends()), pair.Ends(), fired)
    ensures old(pair.Whole()) ==> pair.Whole()
  {
    hide Slice, ConsumerState, ProducerState, StreamStep, Shape.Whole, WriteResult, Notified, AllLawful, Shows, Lends;
    ghost var q0, m := pair.Queue(), pair.Now();
    pair.NowShows();
    var r;
    r, fired := pair.Write(elements, allOrNone);
    outcome, added := Wrote(r), elements[..r.GetOr(0)];
    pair.ToldIsLawful(fired);
    pair.NowShows();
    AddedStep(q0, added);
    AddLends(Write(elements, allOrNone), outcome, m, pair.Now(), added);
    assert pair.consumed + [] == pair.consumed;
  }

  method DoEndWrite(pair: Pair, n: nat) returns (outcome: Outcome, fired: seq<Firing>, ghost added: seq<byte>)
    requires pair.Valid()
    modifies pair, pair.producer, pair.consumer, pair.consumer.mapping
    ensures pair.Valid()
    ensures Moved(EndWrite(n), outcome, old(pair.Now()), added, [])
    ensures Lends(EndWrite(n), outcome, old(pair.Now()), pair.Now())
    ensures StreamStep(old(pair.Queue()), added, [], pair.Queue())
    ensures pair.accepted == old(pair.accepted) + added && pair.consumed == old(pair.consumed) + []
    ensures AllLawful(old(pair.Ends()), pair.Ends(), fired)
    ensures old(pair.Whole()) ==> pair.Whole()
  {
    hide Slice, ConsumerState, ProducerState, StreamStep, Shape.Whole, Notified, AllLawful, Shows, Lends;
    ghost var q0, m := pair.Queue(), pair.Now();
    pair.NowShows();
    var r;
    r, fired := pair.EndWrite(n);
    outcome, added := Wrote(r), if r.Ok? then Front(m.mem, m.writing, n) else [];
    pair.ToldIsLawful(fired);
    pair.NowShows();
    AddedStep(q0, added);
    AddLends(EndWrite(n), outcome, m, pair.Now(), added);
    assert pair.consumed + [] == pair.consumed;
  }

  lemma AddLends(step: Step, outcome: Outcome, m: Moment, m': Moment, added: seq<byte>)
    requires (step.Write? || step.EndWrite?) && Turns(step, m, m')
    requires Shows(m) && Shows(m') && m'.queue == m.queue + added && m'.reading == m.reading && |m'.mem| == |m.mem|
    requires m'.writing == if step.EndWrite? then None else m.writing
    requires m'.mem == m.mem || (step.Write? && m.writing.None?)
    ensures Lends(step, outcome, m, m')
  {
    hide Shows, Turns;
    assert m.queue <= m.queue + added;
    StillShows(m, m');
    SpansLie(m);
  }

  lemma SpansLie(m: Moment)
    requires Shows(m)
    ensures m.writing.Some? ==> m.writing.value.start + m.writing.value.len <= |m.mem|
    ensures m.reading.Some? ==> m.reading.value.start + m.reading.value.len <= |m.mem|
  {
  }

  /** The steps that take from the stream. */
  method DoRead(pair: Pair, step: Step) returns (outcome: Outcome, fired: seq<Firing>, ghost taken: seq<byte>)
    requires step.Read? || step.EndRead?
    requires pair.Valid()
    modifies pair, pair.producer, pair.consumer, pair.consumer.mapping
    ensures pair.Valid()
    ensures Moved(step, outcome, old(pair.Now()), [], taken) && Lends(step, outcome, old(pair.Now()), pair.Now())
    ensures StreamStep(old(pair.Queue()), [], taken, pair.Queue())
    ensures pair.accepted == old(pair.accepted) + [] && pair.consumed == old(pair.consumed) + taken
    ensures AllLawful(old(pair.Ends()), pair.Ends(), fired)
    ensures old(pair.Whole()) ==> pair.Whole()
  {
    hide Slice, ConsumerState, ProducerState, StreamStep, Shape.Whole, Notified, AllLawful, Shows, Moved, Lends,
      ReadResult, EndResult, ReadAnswers, ReadTakes, EndAnswers;
    ghost var q0, m := pair.Queue(), pair.Now();
    pair.NowShows();
    match step {
      case Read(n, hasBuffer, flags) =>
        var r;
        r, fired := pair.Read(n, hasBuffer, flags);
        outcome, taken := Had(r), q0[..Taken(r, flags)];
        ReadMoves(step, r, m);
      case EndRead(n) =>
        var r;
        r, fired := pair.EndRead(n);
        outcome, taken := Freed(r), q0[..r.GetOr(0)];
        EndMoves(step, r, m);
    }
    pair.ToldIsLawful(fired);
    TakenStep(q0, |taken|);
    StayLends(step, outcome, m, pair.Now());
    assert pair.accepted + [] == pair.accepted;
  }

  /** A step that leaves the memory as it is. */
  lemma StayLends(step: Step, outcome: Outcome, m: Moment, m': Moment)
    requires Shows(m) && m'.mem == m.mem && !step.Fill? && Turns(step, m, m')
    requires Lent(step.BeginWrite?, step.EndWrite?, outcome, m.writing, m'.writing)
    requires Lent(step.BeginRead?, step.EndRead?, outcome, m.reading, m'.reading)
    ensures Lends(step, outcome, m, m')
  {
    hide Lent, Turns;
  }

  lemma FillLends(step: Step, m: Moment, m': Moment)
    requires Shows(m) && Shows(m') && step.Fill? && m' == m.(mem := Filled(m, step.at, step.data))
    ensures Lends(step, Nothing, m, m')
  {
    StillShows(m, m');
  }

  /** A read's answer and what it takes. */
  lemma ReadMoves(step: Step, r: Result<ReadOutcome, CoreError>, m: Moment)
    requires step.Read? && m.Possible()
    requires ReadAnswers(m.queue, m.elementSize, m.reading.Some?, m.noWriter, step.n, step.hasBuffer, step.flags, r)
    requires var k := Taken(r, step.flags);
      k <= |m.queue| && ReadTakes(step.flags, r, m.queue, m.queue[..k], m.queue[k..])
    ensures Taken(r, step.flags) <= |m.queue| && Moved(step, Had(r), m, [], m.queue[..Taken(r, step.flags)])
  {
    hide ReadAnswers, ReadTakes;
  }

  /** A two-phase read ends with the bytes its span showed. */
  lemma EndMoves(step: Step, r: Result<nat, CoreError>, m: Moment)
    requires step.EndRead? && m.Possible() && Shows(m) && EndAnswers(Length(m.reading), m.elementSize, step.n, r)
    ensures r.GetOr(0) <= |m.queue| && Moved(step, Freed(r), m, [], m.queue[..r.GetOr(0)])
  {
    if r.Ok? {
      var len, n := m.reading.value.len, step.n;
      assert Front(m.mem, m.reading, n) == Front(m.mem, m.reading, len)[..n] && m.queue[..len][..n] == m.queue[..n];
    }
  }

  /** Closing, watching and unwatching. */
  method DoWatch(pair: Pair, step: Step) returns (outcome: Outcome, fired: seq<Firing>)
    requires step.Watch? || step.Unwatch? || step.Close?
    requires pair.Valid()
    modifies pair, pair.producer, pair.consumer, pair.consumer.mapping
    ensures pair.Valid() && pair.Queue() == old(pair.Queue()) && Lends(step, outcome, old(pair.Now()), pair.Now())
    ensures pair.accepted == old(pair.accepted) + [] && pair.consumed == old(pair.consumed) + []
    ensures Seen(step, old(pair.Ends()), pair.Ends(), fired)
    ensures old(pair.Whole()) ==> pair.Whole()
  {
    hide Slice, ConsumerState, ProducerState, Shape.Whole, AllLawful, CancelOne, Sum, Positive, Wrap, Shows;
    outcome, fired := Nothing, [];
    ghost var m := pair.Now();
    pair.NowShows();
    assert pair.accepted + [] == pair.accepted && pair.consumed + [] == pair.consumed;
    match step {
      case Close(end) => fired := DoClose(pair, end);
      case Watch(end, w) => DoRegister(pair, end, w);
      case Unwatch(end, id) => DoCancel(pair, end, id);
    }
    StayLends(step, outcome, m, pair.Now());
  }

  method DoRegister(pair: Pair, end: End, w: Watcher)
    requires pair.Valid()
    modifies pair`prod, pair`cons
    ensures pair.Valid() && pair.Queue() == old(pair.Queue()) && pair.Standing() == old(pair.Standing())
    ensures pair.Now() == old(pair.Now())
    ensures Seen(Watch(end, w), old(pair.Ends()), pair.Ends(), [])
  {
    hide Slice, ConsumerState, ProducerState, Shape.Whole, Sum, Positive, Wrap;
    pair.RegisterWatch(end, w);
  }

  method DoCancel(pair: Pair, end: End, id: nat)
    requires pair.Valid()
    modifies pair`prod, pair`cons
    ensures pair.Valid() && pair.Queue() == old(pair.Queue()) && pair.Standing() == old(pair.Standing())
    ensures pair.Now() == old(pair.Now())
    ensures Seen(Unwatch(end, id), old(pair.Ends()), pair.Ends(), [])
  {
    hide Slice, ConsumerState, ProducerState, Shape.Whole, Sum, Positive, Wrap, CancelOne;
    pair.CancelWatch(end, id);
  }

  method DoClose(pair: Pair, end: End) returns (fired: seq<Firing>)
    requires pair.Valid()
    modifies pair`prod, pair`cons
    ensures pair.Valid() && pair.Queue() == old(pair.Queue()) && pair.Standing() == old(pair.Standing())
    ensures Turns(Close(end), old(pair.Now()), pair.Now())
    ensures pair.Now() == old(pair.Now()).(noReader := pair.Now().noReader, noWriter := pair.Now().noWriter)
    ensures AllLawful(old(pair.Ends()), pair.Ends(), fired)
  {
    hide Slice, ConsumerState, ProducerState, Shape.Whole, AllLawful, CancelAll, Cancellations, Collect;
    var cancelled, told;
    match end {
      case Producer => cancelled, told := pair.CloseProducer();
      case Consumer => cancelled, told := pair.CloseConsumer();
    }
    fired := cancelled + told;
  }

  /** The steps that leave the stream and the watches as they are. */
  method DoQuiet(pair: Pair, step: Step) returns (outcome: Outcome, fired: seq<Firing>)
    requires step.BeginWrite? || step.BeginRead? || step.Query?
    requires pair.Valid()
    modifies pair, pair.producer, pair.consumer, pair.consumer.mapping
    ensures pair.Valid() && pair.Queue() == old(pair.Queue()) && Lends(step, outcome, old(pair.Now()), pair.Now())
    ensures pair.accepted == old(pair.accepted) + [] && pair.consumed == old(pair.consumed) + []
    ensures AllLawful(old(pair.Ends()), pair.Ends(), fired)
    ensures old(pair.Whole()) ==> pair.Whole()
  {
    hide Slice, ConsumerState, ProducerState, Shape.Whole, Notified, AllLawful, Shows, Lends;
    outcome, fired := Nothing, [];
    ghost var m := pair.Now();
    pair.NowShows();
    match step {
      case BeginWrite =>
        var r := pair.BeginWrite();
        outcome := Spanned(r);
      case BeginRead =>
        var r := pair.BeginRead();
        outcome := Spanned(r);
      case Query(end) =>
        var state := pair.QuerySignals(end);
        outcome := Saw(state);
    }
    pair.ToldIsLawful(fired);
    StayLends(step, outcome, m, pair.Now());
    assert pair.accepted + [] == pair.accepted && pair.consumed + [] == pair.consumed;
  }

  /** A client writes into its span; what does not fit there is not written at all. */
  method DoFill(pair: Pair, at: nat, data: seq<byte>)
    requires pair.Valid()
    modifies pair.consumer.mapping
    ensures pair.Valid() && pair.Queue() == old(pair.Queue()) && AllLawful(old(pair.Ends()), pair.Ends(), [])
    ensures Lends(Fill(at, data), Nothing, old(pair.Now()), pair.Now())
    ensures old(pair.Whole()) ==> pair.Whole()
  {
    hide Slice, ConsumerState, ProducerState, Shape.Whole, Notified, AllLawful, Shows, Lends;
    ghost var m := pair.Now();
    pair.NowShows();
    if pair.prod.twoPhase.Some? && at + |data| <= pair.prod.twoPhase.value.len { pair.FillSpan(at, data); }
    pair.Quiet([]);
    pair.ToldIsLawful([]);
    pair.NowShows();
    FillLends(Fill(at, data), m, pair.Now());
  }

  lemma AddedStep(q: seq<byte>, added: seq<byte>)
    ensures StreamStep(q, added, [], q + added)
  {
    assert q[0..] == q && q[..0] == [];
  }

  lemma TakenStep(q: seq<byte>, n: nat)
    requires n <= |q|
    ensures StreamStep(q, [], q[..n], q[n..])
  {
    assert q[n..] == q[n..] + [];
  }

  lemma NothingMoves(step: Step, q: seq<byte>)
    ensures StreamStep(q, [], [], q)
    ensures !step.Write? && !step.EndWrite? && !step.Read? && !step.EndRead? ==>
      forall outcome, m: Moment {:trigger Moved(step, outcome, m, [], [])} | m.Possible() ::
        Moved(step, outcome, m, [], [])
  {
    TakenStep(q, 0);
    assert q[..0] == [] && q[0..] == q;
  }

  /** In a pipe that stands in whole elements, so does the queue. */
  lemma WholeQueue(v: Shape, es: nat)
    requires v.Whole(es)
    ensures (v.cs + Sum(v.cc)) % es == 0
  {
    SumMultiple(v.cc, es);
    ModAdd(v.cs, Sum(v.cc), es);
  }

  /** A partial write always takes whole elements exactly when the room is a whole number of
      them; nothing makes the capacity one, so a pipe can split an element. */
  lemma PartialWriteWhole(room: nat, es: nat)
    requires es > 0
    ensures room % es == 0 <==>
      forall n: nat :: WriteResult(room, es, false, false, n, false).GetOr(0) % es == 0
  {
    var n := MultipleAbove(room, es);
    assert WriteResult(room, es, false, false, n, false) == Ok(room);
    if room % es == 0 {
      forall n: nat ensures WriteResult(room, es, false, false, n, false).GetOr(0) % es == 0 { CutWhole(room, es, n); }
    }
  }

  lemma MultipleAbove(room: nat, es: nat) returns (n: nat)
    requires es > 0
    ensures n % es == 0 && n >= room && (room == 0 ==> n == 0)
  {
    n := es * room;
    ModUnique(n, es, room, 0);
    if room > 0 { MulGap(0, es, room); }
  }

  lemma CutWhole(room: nat, es: nat, n: nat)
    requires es > 0 && room % es == 0
    ensures WriteResult(room, es, false, false, n, false).GetOr(0) % es == 0
  {
    assert 0 % es == 0 by { ModUnique(0, es, 0, 0); }
  }

  function Concat(parts: seq<seq<byte>>): seq<byte> {
    if |parts| == 0 then [] else Concat(parts[..|parts| - 1]) + parts[|parts| - 1]
  }

  /** Every run from a new pipe: what the producer was told it had written is, in order, what the
      consumer was given, or was told it had discarded, followed by what is still unread. */
  method Run(elementSize: nat, mapping: array<byte>, steps: seq<Step>)
    returns (pair: Pair, outcomes: seq<Outcome>, ghost moments: seq<Moment>, ghost added: seq<seq<byte>>,
      ghost taken: seq<seq<byte>>)
    requires elementSize > 0 && mapping.Length > 0
    modifies mapping
    ensures pair.Valid() && Chain(steps, outcomes, moments, added, taken)
    ensures moments[0] == old(Moment(elementSize, mapping[..], [], None, None, false, false))
    ensures moments[|steps|] == pair.Now()
    ensures Concat(added) == Concat(taken) + pair.Queue()
    ensures mapping.Length % elementSize == 0 ==> pair.Whole() && |pair.Queue()| % elementSize == 0
  {
    hide Slice, StreamStep, Moved, Lends, Seen, Chain, ConsumerState, ProducerState, Shape.Whole, Sum, Positive, Wrap,
      Moment.Possible;
    pair := new Pair(elementSize, mapping);
    outcomes, added, taken, moments := [], [], [], [pair.Now()];
    NoChain(pair.Now());
    assert steps[..0] == [];
    for i := 0 to |steps|
      invariant pair.Valid() && fresh(pair) && fresh(pair.producer) && fresh(pair.consumer)
      invariant pair.consumer.mapping == mapping && pair.elementSize == elementSize
      invariant mapping.Length % elementSize == 0 ==> pair.Whole()
      invariant Chain(steps[..i], outcomes, moments, added, taken)
      invariant |outcomes| == |added| == |taken| == i && |moments| == i + 1
      invariant moments[0] == old(Moment(elementSize, mapping[..], [], None, None, false, false))
      invariant moments[i] == pair.Now()
      invariant pair.accepted == Concat(added) && pair.consumed == Concat(taken)
    {
      var outcome, _, a, t := Do(pair, steps[i]);
      ChainMore(steps[..i], outcomes, moments, added, taken, steps[i], outcome, pair.Now(), a, t);
      assert steps[..i + 1] == steps[..i] + [steps[i]];
      assert (added + [a])[..i] == added && (taken + [t])[..i] == taken;
      outcomes, added, taken, moments := outcomes + [outcome], added + [a], taken + [t], moments + [pair.Now()];
    }
    assert steps[..|steps|] == steps;
    if mapping.Length % elementSize == 0 { WholeQueue(pair.Standing(), elementSize); }
  }

  /** What a run's steps returned, moved and left in the clients' hands fits together. */
  ghost predicate Chain(steps: seq<Step>, outcomes: seq<Outcome>, moments: seq<Moment>, added: seq<seq<byte>>,
      taken: seq<seq<byte>>) {
    && |outcomes| == |added| == |taken| == |steps| && |moments| == |steps| + 1
    && forall i :: 0 <= i < |steps| ==>
        && Moved(steps[i], outcomes[i], moments[i], added[i], taken[i])
        && Lends(steps[i], outcomes[i], moments[i], moments[i + 1])
        && StreamStep(moments[i].queue, added[i], taken[i], moments[i + 1].queue)
  }

  lemma NoChain(m: Moment)
    ensures Chain([], [], [m], [], [])
  {
  }

  lemma ChainMore(steps: seq<Step>, outcomes: seq<Outcome>, moments: seq<Moment>, added: seq<seq<byte>>,
      taken: seq<seq<byte>>, step: Step, outcome: Outcome, m: Moment, a: seq<byte>, t: seq<byte>)
    requires Chain(steps, outcomes, moments, added, taken)
    requires Moved(step, outcome, moments[|steps|], a, t) && Lends(step, outcome, moments[|steps|], m)
    requires StreamStep(moments[|steps|].queue, a, t, m.queue)
    ensures Chain(steps + [step], outcomes + [outcome], moments + [m], added + [a], taken + [t])
  {
    hide Moved, Lends, StreamStep;
  }

  /** A peek takes nothing: the same read made at once without peeking returns the same bytes, and
      those leave. */
  lemma PeekThenRead(steps: seq<Step>, outcomes: seq<Outcome>, moments: seq<Moment>, added: seq<seq<byte>>,
      taken: seq<seq<byte>>, i: nat)
    requires Chain(steps, outcomes, moments, added, taken) && i + 1 < |steps|
    requires steps[i].Read? && steps[i].flags.peek && outcomes[i].Had? && outcomes[i].r.Ok?
    requires steps[i + 1] == steps[i].(flags := steps[i].flags.(peek := false))
    ensures moments[i + 1].queue == moments[i].queue && outcomes[i + 1] == outcomes[i]
    ensures taken[i] == [] && taken[i + 1] == outcomes[i].r.value.data
  {
    assert Moved(steps[i], outcomes[i], moments[i], added[i], taken[i]);
    assert Lends(steps[i], outcomes[i], moments[i], moments[i + 1]);
    assert Moved(steps[i + 1], outcomes[i + 1], moments[i + 1], added[i + 1], taken[i + 1]);
  }

  /** Steps `i` to `j` of a run, the last not among them, end no write and fill nothing of the
      `len` bytes from `at` of the span. */
  ghost predicate LeftAlone(steps: seq<Step>, i: nat, j: nat, at: nat, len: nat) {
    j <= |steps| && forall k :: i <= k < j ==>
      && !steps[k].EndWrite?
      && (steps[k].Fill? ==> steps[k].at + |steps[k].data| <= at || at + len <= steps[k].at)
  }

  /** What a client puts in its span, and does not fill over, is what joins the stream when it ends
      the write. */
  lemma FilledIsWritten(steps: seq<Step>, outcomes: seq<Outcome>, moments: seq<Moment>, added: seq<seq<byte>>,
      taken: seq<seq<byte>>, i: nat, j: nat)
    requires Chain(steps, outcomes, moments, added, taken) && i < j < |steps| && steps[i].Fill? && steps[j].EndWrite?
    requires moments[i].writing.Some? && steps[i].at + |steps[i].data| <= moments[i].writing.value.len
    requires outcomes[j].Wrote? && outcomes[j].w.Ok? && LeftAlone(steps, i + 1, j, steps[i].at, |steps[i].data|)
    requires steps[i].at + |steps[i].data| <= steps[j].n
    ensures |added[j]| == steps[j].n
    ensures added[j][steps[i].at..steps[i].at + |steps[i].data|] == steps[i].data
  {
    hide Moved, Lends, StreamStep;
    var at, data, span := steps[i].at, steps[i].data, moments[i].writing.value;
    FillHolds(steps[i], outcomes[i], moments[i], moments[i + 1]);
    SpanKept(steps, outcomes, moments, added, taken, i + 1, j, span, at, |data|);
    EndTakes(steps[j], outcomes[j], moments[j], added[j], taken[j], span);
    SliceOf(moments[j].mem, span.start, steps[j].n, at, |data|);
  }

  lemma FillHolds(step: Step, outcome: Outcome, m: Moment, m': Moment)
    requires Lends(step, outcome, m, m') && step.Fill? && m.writing.Some?
    requires step.at + |step.data| <= m.writing.value.len
    ensures var span := m.writing.value;
      && m'.writing == Some(span) && span.start + span.len <= |m.mem| == |m'.mem|
      && m'.mem[span.start + step.at..span.start + step.at + |step.data|] == step.data
  {
    var from := m.writing.value.start + step.at;
    assert m'.mem == m.mem[..from] + step.data + m.mem[from + |step.data|..];
  }

  lemma EndTakes(step: Step, outcome: Outcome, m: Moment, added: seq<byte>, taken: seq<byte>, span: Span)
    requires Moved(step, outcome, m, added, taken) && step.EndWrite? && outcome.Wrote? && outcome.w.Ok?
    requires m.writing == Some(span) && span.start + span.len <= |m.mem|
    ensures step.n <= span.len && added == m.mem[span.start..span.start + step.n] && |added| == step.n
  {
  }

  lemma SliceOf(mem: seq<byte>, start: nat, n: nat, at: nat, len: nat)
    requires start + n <= |mem| && at + len <= n
    ensures mem[start..start + n][at..at + len] == mem[start + at..start + at + len]
  {
    var part, whole := mem[start..start + n][at..at + len], mem[start + at..start + at + len];
    forall i | 0 <= i < len ensures part[i] == whole[i] {
    }
  }

  lemma {:induction false} SpanKept(steps: seq<Step>, outcomes: seq<Outcome>, moments: seq<Moment>,
      added: seq<seq<byte>>, taken: seq<seq<byte>>, i: nat, j: nat, span: Span, at: nat, len: nat)
    requires Chain(steps, outcomes, moments, added, taken) && i <= j <= |steps| && LeftAlone(steps, i, j, at, len)
    requires moments[i].writing == Some(span) && at + len <= span.len && span.start + span.len <= |moments[i].mem|
    ensures moments[j].writing == Some(span) && |moments[j].mem| == |moments[i].mem|
    ensures moments[j].mem[span.start + at..span.start + at + len] ==
      moments[i].mem[span.start + at..span.start + at + len]
  {
    hide Moved, Lends;
    if i < j {
      SpanKept(steps, outcomes, moments, added, taken, i, j - 1, span, at, len);
      StepSpares(steps[j - 1], outcomes[j - 1], moments[j - 1], moments[j], span, at, len);
    }
  }

  lemma StepSpares(step: Step, outcome: Outcome, m: Moment, m': Moment, span: Span, at: nat, len: nat)
    requires Lends(step, outcome, m, m') && m.writing == Some(span) && at + len <= span.len && !step.EndWrite?
    requires span.start + span.len <= |m.mem|
    requires step.Fill? ==> step.at + |step.data| <= at || at + len <= step.at
    ensures m'.writing == Some(span) && |m'.mem| == |m.mem|
    ensures m'.mem[span.start + at..span.start + at + len] == m.mem[span.start + at..span.start + at + len]
  {
    if step.Fill? && step.at + |step.data| <= span.len {
      FillSpares(m.mem, span.start + step.at, step.data, span.start + at, len);
    }
  }

  lemma FillSpares(mem: seq<byte>, from: nat, data: seq<byte>, lo: nat, len: nat)
    requires from + |data| <= |mem| && lo + len <= |mem| && (from + |data| <= lo || lo + len <= from)
    ensures (mem[..from] + data + mem[from + |data|..])[lo..lo + len] == mem[lo..lo + len]
  {
  }

  /** What a read span shows when it is lent it goes on showing, whatever the producer does, and
      that is what leaves the stream when the read ends. */
  lemma ShownIsRead(steps: seq<Step>, outcomes: seq<Outcome>, moments: seq<Moment>, added: seq<seq<byte>>,
      taken: seq<seq<byte>>, i: nat, j: nat)
    requires Chain(steps, outcomes, moments, added, taken) && i < j < |steps| && steps[i].BeginRead?
    requires outcomes[i].Spanned? && outcomes[i].s.Ok? && forall k :: i < k < j ==> !steps[k].EndRead?
    ensures var span := outcomes[i].s.value;
      Front(moments[j].mem, Some(span), span.len) == Front(moments[i].mem, Some(span), span.len)
    ensures steps[j].EndRead? && outcomes[j].Freed? && outcomes[j].n.Ok? ==>
      steps[j].n <= outcomes[i].s.value.len && taken[j] == Front(moments[i].mem, Some(outcomes[i].s.value), steps[j].n)
  {
    var span := outcomes[i].s.value;
    assert Lends(steps[i], outcomes[i], moments[i], moments[i + 1]);
    ReadSpanKept(steps, outcomes, moments, added, taken, i + 1, j, span);
    assert Lends(steps[j], outcomes[j], moments[j], moments[j + 1]);
    assert Moved(steps[j], outcomes[j], moments[j], added[j], taken[j]);
    if steps[j].EndRead? && outcomes[j].Freed? && outcomes[j].n.Ok? {
      FrontCut(moments[j].mem, moments[i].mem, span, steps[j].n);
    }
  }

  lemma FrontCut(mem: seq<byte>, mem': seq<byte>, span: Span, n: nat)
    requires Front(mem, Some(span), span.len) == Front(mem', Some(span), span.len) && n <= span.len
    requires span.start + span.len <= |mem| == |mem'|
    ensures Front(mem, Some(span), n) == Front(mem', Some(span), n)
  {
    assert Front(mem, Some(span), n) == Front(mem, Some(span), span.len)[..n];
    assert Front(mem', Some(span), n) == Front(mem', Some(span), span.len)[..n];
  }

  lemma {:induction false} ReadSpanKept(steps: seq<Step>, outcomes: seq<Outcome>, moments: seq<Moment>,
      added: seq<seq<byte>>, taken: seq<seq<byte>>, i: nat, j: nat, span: Span)
    requires Chain(steps, outcomes, moments, added, taken) && i <= j < |moments| && moments[i].reading == Some(span)
    requires forall k :: i <= k < j ==> !steps[k].EndRead?
    ensures moments[j].reading == Some(span) && |moments[j].mem| == |moments[i].mem|
    ensures Front(moments[j].mem, Some(span), span.len) == Front(moments[i].mem, Some(span), span.len)
  {
    if i < j {
      ReadSpanKept(steps, outcomes, moments, added, taken, i, j - 1, span);
      assert Lends(steps[j - 1], outcomes[j - 1], moments[j - 1], moments[j]);
    }
  }

  // ---------------------------------------------------------------- a closed end drops watches

  /** On an end that its owner has closed, with the peer still there, a watch is dropped, and so
      when the peer closes too it becomes due while nothing is collected: whatever it watches,
      and whether or not it was due when it was dropped. */
  method WatchClosedEnd(pair: Pair, end: End, w: Watcher) returns (fired: seq<Firing>)
    requires pair.Valid()
    requires end.Producer? ==> pair.prod.localClosed && !pair.prod.peerClosed
    requires end.Consumer? ==> pair.cons.localClosed && !pair.cons.peerClosed
    modifies pair`prod, pair`cons
    ensures pair.Valid() && fired == []
    ensures pair.SignalsOf(end).Due(w.signals)
    ensures pair.ViewOf(end).watchers == old(pair.ViewOf(end).watchers)
  {
    hide Slice, ConsumerState, ProducerState, Shape.Whole, Cancellations, CancelAll, AllLawful;
    pair.RegisterWatch(end, w);
    if end.Producer? {
      var cancelled;
      cancelled, fired := pair.CloseConsumer();
      NoneLive(pair.prod.watchers, pair.SignalsOf(Producer));
    } else {
      var cancelled;
      cancelled, fired := pair.CloseProducer();
      NoneLive(pair.cons.watchers, pair.SignalsOf(Consumer));
    }
    pair.ViewState(end);
    SettledAlways(pair.ViewOf(end).facts, w.signals, pair.ViewOf(end).watchers);
  }

  lemma {:induction false} NoneLive(watchers: seq<Watcher>, state: SignalsState)
    requires forall w :: w in watchers ==> w.cancelled
    ensures Collect(watchers, state) == []
  {
    if |watchers| > 0 { NoneLive(watchers[..|watchers| - 1], state); }
  }

  lemma OpenPeerAwaited(newData: bool, data: bool)
    ensures !ConsumerState(false, newData, data).Due({PeerClosed})
  {
    assert PeerClosed in {PeerClosed};
  }

  /** A new pipe's consumer closes its end and watches it for the producer's closing: the watch is
      not due, and when the producer closes it is, with no callback collected. */
  method ClosedConsumerLosesWakeup(mapping: array<byte>, w: Watcher)
    returns (pair: Pair, before: SignalsState, after: SignalsState, fired: seq<Firing>)
    requires mapping.Length > 0 && w.signals == {PeerClosed}
    ensures pair.Valid() && after == pair.SignalsOf(Consumer)
    ensures !before.Due(w.signals) && after.Due(w.signals) && fired == []
  {
    hide Slice, Shape.Whole, Cancellations, CancelAll, AllLawful, Collect, ConsumerState, ProducerState,
      SignalsState.Due, Sum, Positive, Wrap, Notified;
    pair := new Pair(1, mapping);
    var _, _ := pair.CloseConsumer();
    before := pair.QuerySignals(Consumer);
    OpenPeerAwaited(pair.NewData(), pair.consumer.size > 0);
    fired := WatchClosedEnd(pair, Consumer, w);
    after := pair.QuerySignals(Consumer);
  }

  /** Copying into a stretch that does not go round is a circular write. */
  method WriteInPlace(a: array<byte>, from: nat, data: seq<byte>)
    requires from + |data| <= a.Length && from < a.Length
    modifies a
    ensures a[..] == old(a[..from]) + data + old(a[from + |data|..])
    ensures a[..] == PutAt(old(a[..]), from, data)
  {
    forall i | 0 <= i < |data| { a[from + i] := data[i]; }
    assert a[..] == old(a[..from]) + data + old(a[from + |data|..]);
  }

  lemma SliceStraight(mem: seq<byte>, from: nat, n: nat)
    requires from < |mem| && from + n <= |mem|
    ensures Slice(mem, from, n) == mem[from..from + n]
  {
    forall i | 0 <= i < n ensures Slice(mem, from, n)[i] == mem[from..from + n][i] {
      assert Wrap(from + i, |mem|) == from + i;
    }
  }
}
