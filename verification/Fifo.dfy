/** The reference a data pipe is measured against: a byte queue of bounded capacity, with the
    results of each operation as functions of the queue alone. */
module Fifo {
  import opened Results
  import opened Bytes
  import opened CoreErrors

  datatype ReadFlags = ReadFlags(allOrNone: bool, query: bool, discard: bool, peek: bool)

  datatype ReadOutcome = ReadOutcome(numBytes: nat, data: seq<byte>)

  /** How many of `n` bytes a write takes into a queue with `room` bytes free. */
  function WriteResult(room: nat, elementSize: nat, busy: bool, peerClosed: bool, n: nat, allOrNone: bool)
    : (r: Result<nat, CoreError>)
    requires elementSize > 0
    ensures r.Ok? ==> r.value <= n && r.value <= room
  {
    if n % elementSize != 0 then Err(InvalidArgument)
    else if busy then Err(Busy)
    else if peerClosed then Err(FailedPrecondition)
    else if allOrNone then (if n <= room then Ok(n) else Err(OutOfRange))
    else if room == 0 && n > 0 then Err(ShouldWait)
    else Ok(Min(n, room))
  }

  /** Flags that contradict each other, or nowhere to copy to. */
  predicate BadRead(n: nat, hasBuffer: bool, flags: ReadFlags) {
    || (flags.peek && flags.discard) || (flags.query && (flags.peek || flags.discard))
    || (!flags.discard && !flags.query && !hasBuffer && n > 0)
  }

  /** What a read of up to `n` bytes returns from a queue. */
  function ReadResult(queue: seq<byte>, elementSize: nat, busy: bool, peerClosed: bool, n: nat, hasBuffer: bool,
      flags: ReadFlags)
    : (r: Result<ReadOutcome, CoreError>)
    requires elementSize > 0
    ensures r.Ok? && !flags.query ==> r.value.numBytes == Min(n, |queue|)
  {
    if BadRead(n, hasBuffer, flags) then Err(InvalidArgument)
    else if busy then Err(Busy)
    else if flags.query then Ok(ReadOutcome(|queue|, []))
    else if n % elementSize != 0 then Err(InvalidArgument)
    else if flags.allOrNone then
      if n > |queue| then Err(if peerClosed then FailedPrecondition else OutOfRange)
      else Ok(ReadOutcome(n, if flags.discard then [] else queue[..n]))
    else if |queue| == 0 then Err(if peerClosed then FailedPrecondition else ShouldWait)
    else Ok(ReadOutcome(Min(n, |queue|), if flags.discard then [] else queue[..Min(n, |queue|)]))
  }

  /** How many bytes a read takes out of the queue. */
  function Taken(r: Result<ReadOutcome, CoreError>, flags: ReadFlags): nat {
    if r.Ok? && !flags.query && !flags.peek then r.value.numBytes else 0
  }

  /** Ending a two-phase operation on a span of `len` bytes. */
  function EndResult(span: Option<nat>, elementSize: nat, n: nat): Result<nat, CoreError>
    requires elementSize > 0
  {
    if span.None? then Err(FailedPrecondition)
    else if n % elementSize != 0 || n > span.value then Err(InvalidArgument)
    else Ok(n)
  }

  // ---------------------------------------------------------------- what the results promise

  /** A write takes all its bytes or as many as fit, or says why it takes none. */
  ghost predicate WriteAnswers(room: nat, es: nat, busy: bool, closed: bool, n: nat, allOrNone: bool,
      r: Result<nat, CoreError>)
    requires es > 0
  {
    && (r.Ok? ==> r.value <= n && r.value <= room && (r.value == n || (!allOrNone && r.value == room > 0)))
    && (r == Err(InvalidArgument) <==> n % es != 0)
    && (r == Err(Busy) <==> n % es == 0 && busy)
    && (r == Err(FailedPrecondition) <==> n % es == 0 && !busy && closed)
    && (r == Err(OutOfRange) <==> n % es == 0 && !busy && !closed && allOrNone && n > room)
    && (r == Err(ShouldWait) <==> n % es == 0 && !busy && !closed && !allOrNone && n > 0 == room)
    && (r.Ok? || r.error in {InvalidArgument, Busy, FailedPrecondition, OutOfRange, ShouldWait})
  }

  /** A query answers how much there is; any other read that succeeds returns the front of the
      queue, all it asked for or as much as there is, without the bytes if it discards them. */
  ghost predicate ReadReturns(q: seq<byte>, n: nat, flags: ReadFlags, o: ReadOutcome) {
    if flags.query then o == ReadOutcome(|q|, [])
    else
      && o.numBytes <= |q| && o.numBytes <= n && (o.numBytes == n || (!flags.allOrNone && o.numBytes == |q|))
      && o.data == if flags.discard then [] else q[..o.numBytes]
  }

  /** The flags make sense together, and there is somewhere to copy to. */
  predicate ReadAllowed(n: nat, hasBuffer: bool, flags: ReadFlags) {
    && (flags.peek ==> !flags.discard && !flags.query) && (flags.query ==> !flags.discard)
    && (n > 0 && !hasBuffer ==> flags.discard || flags.query)
  }

  /** There is as much as the read insists on. */
  predicate Enough(size: nat, n: nat, flags: ReadFlags) {
    if flags.allOrNone then n <= size else size > 0
  }

  ghost predicate ReadAnswers(q: seq<byte>, es: nat, busy: bool, closed: bool, n: nat, hasBuffer: bool,
      flags: ReadFlags, r: Result<ReadOutcome, CoreError>)
    requires es > 0
  {
    var looks := ReadAllowed(n, hasBuffer, flags) && !busy && !flags.query && n % es == 0;
    && (r.Ok? ==> ReadReturns(q, n, flags, r.value))
    && (r.Ok? <==> (looks && Enough(|q|, n, flags)) || (ReadAllowed(n, hasBuffer, flags) && !busy && flags.query))
    && (r == Err(Busy) <==> ReadAllowed(n, hasBuffer, flags) && busy)
    && (r == Err(FailedPrecondition) <==> looks && !Enough(|q|, n, flags) && closed)
    && (r == Err(OutOfRange) <==> looks && !Enough(|q|, n, flags) && !closed && flags.allOrNone)
    && (r == Err(ShouldWait) <==> looks && !Enough(|q|, n, flags) && !closed && !flags.allOrNone)
    && (r.Ok? || r.error in {InvalidArgument, Busy, FailedPrecondition, OutOfRange, ShouldWait})
  }

  /** Only a read that succeeds with neither flag takes anything: exactly what it returned. */
  ghost predicate ReadTakes(flags: ReadFlags, r: Result<ReadOutcome, CoreError>, q: seq<byte>, taken: seq<byte>,
      rest: seq<byte>) {
    && q == taken + rest
    && (r.Err? || flags.peek || flags.query ==> taken == [])
    && (r.Ok? && !flags.peek && !flags.query ==> |taken| == r.value.numBytes)
  }

  /** A two-phase operation ends with all it claims, when that is whole elements within its span. */
  ghost predicate EndAnswers(span: Option<nat>, es: nat, n: nat, r: Result<nat, CoreError>)
    requires es > 0
  {
    && (r == Ok(n) <==> span.Some? && n <= span.value && n % es == 0)
    && (r == Err(FailedPrecondition) <==> span.None?)
    && (r == Err(InvalidArgument) <==> span.Some? && (n > span.value || n % es != 0))
  }

  lemma WriteKept(room: nat, es: nat, busy: bool, closed: bool, n: nat, allOrNone: bool)
    requires es > 0
    ensures WriteAnswers(room, es, busy, closed, n, allOrNone, WriteResult(room, es, busy, closed, n, allOrNone))
  {
  }

  lemma ReadKept(q: seq<byte>, es: nat, busy: bool, closed: bool, n: nat, hasBuffer: bool, flags: ReadFlags)
    requires es > 0
    ensures var r := ReadResult(q, es, busy, closed, n, hasBuffer, flags);
      && ReadAnswers(q, es, busy, closed, n, hasBuffer, flags, r)
      && Taken(r, flags) <= |q| && ReadTakes(flags, r, q, q[..Taken(r, flags)], q[Taken(r, flags)..])
  {
  }

  /** The checks, in the order they are made, before the data is looked at. */
  lemma ReadInOrder(q: seq<byte>, es: nat, busy: bool, closed: bool, n: nat, hasBuffer: bool, flags: ReadFlags)
    requires es > 0
    ensures ReadResult(q, es, busy, closed, n, hasBuffer, flags) ==
      if BadRead(n, hasBuffer, flags) then Err(InvalidArgument)
      else if busy then Err(Busy)
      else if flags.query then Ok(ReadOutcome(|q|, []))
      else if n % es != 0 then Err(InvalidArgument)
      else ReadResult(q, 1, false, closed, n, true, flags)
    ensures var r := ReadResult(q, 1, false, closed, n, true, flags); r != Err(Busy)
    ensures !(flags.peek && flags.discard) && !flags.query ==>
      ReadResult(q, 1, false, closed, n, true, flags) != Err(InvalidArgument)
  {
  }

  lemma EndKept(span: Option<nat>, es: nat, n: nat)
    requires es > 0
    ensures EndAnswers(span, es, n, EndResult(span, es, n))
  {
  }
}
