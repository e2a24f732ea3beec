/** The handle table: slots that are reused, and a generation per slot so that a value, once
    closed, names nothing ever again. A value keeps only the low 12 bits of the generation. */
module HandleTable {
  import opened Results
  import opened CoreErrors
  import opened Bytes

  const MAX_SLOTS: nat := 0x10_0000
  const GENERATIONS: nat := 0x1000

  /** A handle value: 32 bits. */
  type Value = v: nat | v < TWO_32

  datatype Entry = Entry(dispatcher: nat, generation: nat)

  datatype Handle = Handle(value: Value, slot: nat)

  lemma EncodeFits(slot: nat, generation: nat)
    ensures (generation * MAX_SLOTS) % TWO_32 + slot % MAX_SLOTS < TWO_32
  {
    var q, g := generation / GENERATIONS, generation % GENERATIONS;
    assert generation * MAX_SLOTS == q * TWO_32 + g * MAX_SLOTS;
    assert (generation * MAX_SLOTS) % TWO_32 == g * MAX_SLOTS;
  }

  /** `(generation << 20) | (slot & 0xFFFFF)` in 32 bits. */
  function Encode(slot: nat, generation: nat): Value {
    EncodeFits(slot, generation);
    (generation * MAX_SLOTS) % TWO_32 + slot % MAX_SLOTS
  }

  function SlotOf(value: Value): nat {
    value % MAX_SLOTS
  }

  function GenerationBits(value: Value): nat {
    value / MAX_SLOTS
  }

  /** The packed value gives the slot back, and the generation modulo 4096. */
  lemma EncodeExact(slot: nat, generation: nat)
    requires slot < MAX_SLOTS
    ensures var v := Encode(slot, generation);
      SlotOf(v) == slot && GenerationBits(v) == generation % GENERATIONS
  {
    var q, g := generation / GENERATIONS, generation % GENERATIONS;
    assert generation * MAX_SLOTS == q * TWO_32 + g * MAX_SLOTS;
    assert (generation * MAX_SLOTS) % TWO_32 == g * MAX_SLOTS;
  }

  lemma ValueParts(v: Value, w: Value)
    ensures GenerationBits(v) < GENERATIONS && (GenerationBits(v) > 0 ==> v != 0)
    ensures v == w <==> SlotOf(v) == SlotOf(w) && GenerationBits(v) == GenerationBits(w)
  {
  }

  /** The next generation, skipping 0. */
  function Bump(generation: nat): nat {
    var g := (generation + 1) % TWO_32;
    if g == 0 then 1 else g
  }

  // ---------------------------------------------------------------- the table's parts

  /** The generation a value was issued at. */
  function Generation(v: Value): nat {
    if GenerationBits(v) == 0 then GENERATIONS else GenerationBits(v)
  }

  /** What looking a value up in the slots finds. */
  function Find(entries: seq<Option<Entry>>, v: Value): Option<nat> {
    if v != 0 && SlotOf(v) < |entries| && entries[SlotOf(v)].Some?
      && entries[SlotOf(v)].value.generation == GenerationBits(v)
    then Some(entries[SlotOf(v)].value.dispatcher) else None
  }

  /** What a value means by its history alone: its dispatcher, from issue until close, unless it
      was issued at generation 4096. */
  function Meaning(owner: map<Value, nat>, closed: set<Value>, v: Value): Option<nat> {
    if v in owner && v !in closed && GenerationBits(v) > 0 then Some(owner[v]) else None
  }

  /** Live and free slots partition the table; no slot outlives generation 4096. */
  ghost predicate Slots(entries: seq<Option<Entry>>, generations: seq<nat>, free: seq<nat>) {
    && |entries| == |generations| <= MAX_SLOTS
    && (forall s :: 0 <= s < |entries| ==> SlotOk(entries[s], generations[s]))
    && (forall s :: 0 <= s < |entries| ==> (s in free <==> entries[s].None?))
    && (forall s :: s in free ==> s < |entries|)
    && (forall i, j :: 0 <= i < j < |free| ==> free[i] != free[j])
  }

  ghost predicate SlotOk(entry: Option<Entry>, generation: nat) {
    1 <= generation && if entry.Some? then entry.value.generation == generation <= GENERATIONS
      else generation < GENERATIONS
  }

  /** Every value issued belongs to a slot at a generation it has reached. */
  ghost predicate Reached(owner: map<Value, nat>, generations: seq<nat>) {
    forall v :: v in owner ==> SlotOf(v) < |generations| && Generation(v) <= generations[SlotOf(v)]
  }

  ghost predicate HistoryAgrees(entries: seq<Option<Entry>>, owner: map<Value, nat>, closed: set<Value>) {
    forall v: Value :: Find(entries, v) == Meaning(owner, closed, v)
  }

  /** Slot `slot` has been taken from the free ones, or added, at its next generation. */
  ghost predicate Allocated(slot: nat, generation: nat,
      entries0: seq<Option<Entry>>, generations0: seq<nat>, free0: seq<nat>,
      entries: seq<Option<Entry>>, generations: seq<nat>, free: seq<nat>) {
    if free0 != [] then
      && free == free0[..|free0| - 1] && slot == free0[|free0| - 1] && entries == entries0 && slot < |generations0|
      && generations == generations0[slot := generation] && generation == generations0[slot] + 1
    else
      && free == free0 && slot == |entries0| && entries == entries0 + [None] && |entries| <= MAX_SLOTS
      && generations == generations0 + [1] && generation == 1
  }

  /** A dispatcher has been put in the slot freed last, or in a new one. */
  ghost predicate Occupied(slot: nat, dispatcher: nat,
      entries0: seq<Option<Entry>>, generations0: seq<nat>, free0: seq<nat>,
      entries: seq<Option<Entry>>, generations: seq<nat>, free: seq<nat>) {
    && |entries0| == |generations0|
    && if free0 != [] then
        && free == free0[..|free0| - 1] && slot == free0[|free0| - 1] < |entries0|
        && generations == generations0[slot := generations0[slot] + 1]
        && entries == entries0[slot := Some(Entry(dispatcher, generations[slot]))]
      else
        && free == [] && slot == |entries0| && generations == generations0 + [1]
        && entries == entries0 + [Some(Entry(dispatcher, 1))]
  }

  lemma NowOccupied(slot: nat, e: Entry,
      entries0: seq<Option<Entry>>, generations0: seq<nat>, free0: seq<nat>,
      entries: seq<Option<Entry>>, generations: seq<nat>, free: seq<nat>)
    requires |entries0| == |generations0| && slot < |entries|
    requires Allocated(slot, e.generation, entries0, generations0, free0, entries, generations, free)
    ensures Occupied(slot, e.dispatcher, entries0, generations0, free0, entries[slot := Some(e)], generations, free)
  {
  }

  lemma AllocatedSlot(slot: nat, generation: nat,
      entries0: seq<Option<Entry>>, generations0: seq<nat>, free0: seq<nat>,
      entries: seq<Option<Entry>>, generations: seq<nat>, free: seq<nat>)
    requires Slots(entries0, generations0, free0)
    requires Allocated(slot, generation, entries0, generations0, free0, entries, generations, free)
    ensures |entries0| == |generations0| && slot < |entries| <= MAX_SLOTS
    ensures (entries == entries0 && entries0[slot].None?) || (entries == entries0 + [None] && slot == |entries0|)
  {
    if free0 != [] { assert slot in free0; }
  }

  lemma FillSlot(slot: nat, e: Entry,
      entries0: seq<Option<Entry>>, generations0: seq<nat>, free0: seq<nat>,
      entries: seq<Option<Entry>>, generations: seq<nat>, free: seq<nat>)
    requires Slots(entries0, generations0, free0)
    requires Allocated(slot, e.generation, entries0, generations0, free0, entries, generations, free)
    ensures slot < |entries| && 1 <= e.generation <= GENERATIONS
    ensures Slots(entries[slot := Some(e)], generations, free)
  {
    AllocatedSlot(slot, e.generation, entries0, generations0, free0, entries, generations, free);
    var after := entries[slot := Some(e)];
    if free0 != [] {
      assert slot in free0;
      forall s: nat ensures s in free <==> s in free0 && s != slot { PopFree(free0, s); }
      assert SlotOk(entries0[slot], generations0[slot]);
    }
    forall s | 0 <= s < |after| ensures SlotOk(after[s], generations[s]) && (s in free <==> after[s].None?) {
      if s < |entries0| { assert SlotOk(entries0[s], generations0[s]); }
    }
  }

  lemma PopFree(free: seq<nat>, s: nat)
    requires |free| > 0 && forall i, j :: 0 <= i < j < |free| ==> free[i] != free[j]
    ensures s in free[..|free| - 1] <==> s in free && s != free[|free| - 1]
  {
    if s in free && s != free[|free| - 1] {
      var k :| 0 <= k < |free| && free[k] == s;
      assert free[..|free| - 1][k] == s;
    }
  }

  lemma IssueFresh(slot: nat, generation: nat, value: Value, dispatcher: nat, owner: map<Value, nat>,
      entries0: seq<Option<Entry>>, generations0: seq<nat>, free0: seq<nat>,
      entries: seq<Option<Entry>>, generations: seq<nat>, free: seq<nat>)
    requires Allocated(slot, generation, entries0, generations0, free0, entries, generations, free)
    requires |entries0| == |generations0| && Reached(owner, generations0) && 1 <= generation <= GENERATIONS
    requires SlotOf(value) == slot && GenerationBits(value) == generation % GENERATIONS
    ensures value !in owner && Reached(owner[value := dispatcher], generations)
  {
    hide SlotOf, GenerationBits;
    assert Generation(value) == generation;
  }

  /** A new value means its dispatcher from now on, and no other value changes its meaning. */
  lemma IssueAgrees(slot: nat, e: Entry, value: Value, owner: map<Value, nat>, closed: set<Value>,
      entries0: seq<Option<Entry>>, entries: seq<Option<Entry>>)
    requires HistoryAgrees(entries0, owner, closed) && value !in owner && value !in closed
    requires slot < |entries| && 1 <= e.generation <= GENERATIONS
    requires (entries == entries0 && entries0[slot].None?) || (entries == entries0 + [None] && slot == |entries0|)
    requires SlotOf(value) == slot && GenerationBits(value) == e.generation % GENERATIONS
    ensures HistoryAgrees(entries[slot := Some(e)], owner[value := e.dispatcher], closed)
  {
    hide SlotOf, GenerationBits;
    var after, owner' := entries[slot := Some(e)], owner[value := e.dispatcher];
    forall v: Value ensures Find(after, v) == Meaning(owner', closed, v) {
      assert Find(entries0, v) == Meaning(owner, closed, v);
      ValueParts(v, value);
    }
  }

  /** Closing frees the slot and ends the meaning of that one value. */
  lemma CloseAgrees(value: Value, owner: map<Value, nat>, closed: set<Value>, entries: seq<Option<Entry>>)
    requires HistoryAgrees(entries, owner, closed) && Find(entries, value).Some?
    ensures HistoryAgrees(entries[SlotOf(value) := None], owner, closed + {value})
  {
    hide SlotOf, GenerationBits;
    forall v: Value ensures Find(entries[SlotOf(value) := None], v) == Meaning(owner, closed + {value}, v) {
      assert Find(entries, v) == Meaning(owner, closed, v);
      ValueParts(v, value);
    }
  }

  lemma FreeSlot(slot: nat, entries: seq<Option<Entry>>, generations: seq<nat>, free: seq<nat>)
    requires Slots(entries, generations, free) && slot < |entries| && entries[slot].Some?
    requires generations[slot] < GENERATIONS
    ensures Slots(entries[slot := None], generations, free + [slot])
  {
    forall i, j | 0 <= i < j < |free + [slot]| ensures (free + [slot])[i] != (free + [slot])[j] {
      if j == |free| { assert free[i] in free; }
    }
  }

  /** What the slots find, the history says. */
  lemma FindsIt(entries: seq<Option<Entry>>, v: Value, owner: map<Value, nat>, closed: set<Value>)
    requires HistoryAgrees(entries, owner, closed)
    ensures Find(entries, v) == Meaning(owner, closed, v)
  {
  }

  // ---------------------------------------------------------------- the table

  class Table {
    var entries: seq<Option<Entry>>
    var generations: seq<nat>
    var free: seq<nat>
    /** Every value ever issued, with the dispatcher it was issued for; those closed since; and
        the order of issue. */
    ghost var owner: map<Value, nat>
    ghost var closed: set<Value>
    ghost var issued: seq<Value>

    /** The slots find exactly what the history says, and no value was ever issued twice. */
    ghost predicate Valid()
      reads this
    {
      && Slots(entries, generations, free) && Reached(owner, generations) && HistoryAgrees(entries, owner, closed)
      && (forall v :: v in issued <==> v in owner)
      && (forall i, j :: 0 <= i < j < |issued| ==> issued[i] != issued[j])
      && closed <= owner.Keys
    }

    ghost function Means(v: Value): Option<nat>
      reads this
    {
      Meaning(owner, closed, v)
    }

    constructor ()
      ensures Valid() && owner == map[] && closed == {} && issued == []
      ensures entries == [] && generations == [] && free == []
    {
      entries, generations, free := [], [], [];
      owner, closed, issued := map[], {}, [];
    }

    /** Resolve a value: whatever the table's state, its history decides. */
    method Get(value: Value) returns (r: Result<nat, CoreError>)
      requires Valid()
      ensures r == match Means(value) case Some(d) => Ok(d) case None => Err(InvalidArgument)
    {
      assert Find(entries, value) == Means(value);
      if value == 0 { return Err(InvalidArgument); }
      var slot, generation := SlotOf(value), GenerationBits(value);
      if slot >= |entries| || entries[slot].None? { return Err(InvalidArgument); }
      if entries[slot].value.generation != generation { return Err(InvalidArgument); }
      return Ok(entries[slot].value.dispatcher);
    }

    /** A slot to use and its new generation: the free slot used last, or a new one. */
    method Allocate() returns (r: Result<(nat, nat), CoreError>)
      requires Slots(entries, generations, free)
      modifies this`entries, this`generations, this`free
      ensures r.Err? <==> old(|entries| == MAX_SLOTS && free == [])
      ensures r.Err? ==>
        r.error == ResourceExhausted && entries == old(entries) && generations == old(generations) && free == old(free)
      ensures r.Ok? ==> 
        Allocated(r.value.0, r.value.1, old(entries), old(generations), old(free), entries, generations, free)
    {
      if |free| > 0 {
        var slot := free[|free| - 1];
        assert slot in free;
        free := free[..|free| - 1];
        generations := generations[slot := Bump(generations[slot])];
        return Ok((slot, generations[slot]));
      }
      if |entries| >= MAX_SLOTS { return Err(ResourceExhausted); }
      var slot := |entries|;
      entries, generations := entries + [None], generations + [0];
      generations := generations[slot := Bump(generations[slot])];
      return Ok((slot, generations[slot]));
    }

    /** Put a dispatcher in the table under a value never issued before. */
    method Add(dispatcher: nat) returns (r: Result<Handle, CoreError>)
      requires Valid()
      modifies this
      ensures Valid() && closed == old(closed)
      ensures r.Err? ==> r.error == ResourceExhausted && old(|entries| == MAX_SLOTS && free == [])
      ensures r.Err? ==> owner == old(owner) && issued == old(issued)
      ensures r.Ok? ==> r.value.slot == SlotOf(r.value.value) && r.value.value !in old(owner)
      ensures r.Ok? ==> owner == old(owner)[r.value.value := dispatcher] && issued == old(issued) + [r.value.value]
      ensures r.Err? ==> entries == old(entries) && generations == old(generations) && free == old(free)
      ensures r.Ok? ==> Occupied(r.value.slot, dispatcher, old(entries), old(generations), old(free), entries,
        generations, free) && r.value.value == Encode(r.value.slot, generations[r.value.slot])
    {
      var at :- Allocate();
      var (slot, generation) := at;
      AllocatedSlot(slot, generation, old(entries), old(generations), old(free), entries, generations, free);
      hide Slots, Allocated, Reached, HistoryAgrees, Encode, SlotOf, GenerationBits;
      EncodeExact(slot, generation);
      var value, e := Encode(slot, generation), Entry(dispatcher, generation);
      FillSlot(slot, e, old(entries), old(generations), old(free), entries, generations, free);
      IssueFresh(slot, generation, value, dispatcher, owner, old(entries), old(generations), old(free), entries,
        generations, free);
      IssueAgrees(slot, e, value, owner, closed, old(entries), entries);
      NowOccupied(slot, e, old(entries), old(generations), old(free), entries, generations, free);
      entries := entries[slot := Some(e)];
      owner, issued := owner[value := dispatcher], issued + [value];
      return Ok(Handle(value, slot));
    }

    /** Close a handle: the dispatcher to notify, if the value still meant one. */
    method CloseSlot(h: Handle) returns (notify: Option<nat>)
      requires Valid() && h.slot == SlotOf(h.value)
      modifies this
      ensures Valid() && notify == old(Means(h.value))
      ensures owner == old(owner) && issued == old(issued)
      ensures closed == if notify.Some? then old(closed) + {h.value} else old(closed)
      ensures h.slot >= |old(entries)| ==> notify.None?
      ensures entries == if notify.Some? then old(entries)[h.slot := None] else old(entries)
      ensures free == (if notify.Some? then old(free) + [h.slot] else old(free)) && generations == old(generations)
    {
      assert Find(entries, h.value) == Means(h.value);
      ValueParts(h.value, h.value);
      notify := None;
      if h.slot < |entries| && entries[h.slot].Some? && entries[h.slot].value.generation == GenerationBits(h.value) {
        notify := Some(entries[h.slot].value.dispatcher);
        FreeSlot(h.slot, entries, generations, free);
        CloseAgrees(h.value, owner, closed, entries);
        entries := entries[h.slot := None];
        free := free + [h.slot];
        closed := closed + {h.value};
      }
    }

    /** The first half of duplicating: the dispatcher a value means, if its kind allows a second
        handle. The table's lock is given up after it. */
    method LookUp(h: Handle, duplicable: bool) returns (r: Result<nat, CoreError>)
      requires Valid()
      ensures r == if Means(h.value).None? || !duplicable then Err(InvalidArgument) else Ok(Means(h.value).value)
    {
      var dispatcher :- Get(h.value);
      if !duplicable { return Err(InvalidArgument); }
      return Ok(dispatcher);
    }

    /** A second handle to the dispatcher a value means, when nothing comes between the look-up and
        the new entry, which is `Add`'s. */
    method Duplicate(h: Handle, duplicable: bool) returns (r: Result<Handle, CoreError>)
      requires Valid()
      modifies this
      ensures Valid() && closed == old(closed)
      ensures r.Ok? ==> duplicable && old(Means(h.value)).Some? && r.value.value !in old(owner)
      ensures r.Ok? ==>
        owner == old(owner)[r.value.value := old(Means(h.value)).value] && issued == old(issued) + [r.value.value]
      ensures r.Err? ==> owner == old(owner) && issued == old(issued)
      ensures r.Err? ==>
        r.error == if !duplicable || old(Means(h.value)).None? then InvalidArgument else ResourceExhausted
    {
      var dispatcher :- LookUp(h, duplicable);
      r := Add(dispatcher);
    }

    /** A slot that reaches generation 4096 is taken for good: it is not free, and no value
        finds it, so nothing can close it. */
    lemma RetiredSlot(slot: nat)
      requires Valid() && slot < |generations| && generations[slot] == GENERATIONS
      ensures slot !in free && entries[slot].Some?
      ensures forall v: Value :: SlotOf(v) == slot ==> Find(entries, v).None? && Means(v).None?
    {
      hide SlotOf, GenerationBits;
      assert SlotOk(entries[slot], generations[slot]);
      forall v: Value | SlotOf(v) == slot ensures Find(entries, v).None? && Means(v).None? {
        ValueParts(v, v);
        assert Find(entries, v) == Means(v);
      }
    }
  }

  // ---------------------------------------------------------------- generation 4096

  /** Close the only handle and issue the next one of its slot. */
  method Reuse(table: Table, h: Handle, dispatcher: nat, i: nat) returns (next: Handle)
    requires table.Valid() && 0 < i < GENERATIONS && h == Handle(Encode(0, i), 0)
    requires table.entries == [Some(Entry(dispatcher, i))] && table.generations == [i] && table.free == []
    modifies table
    ensures table.Valid() && next == Handle(Encode(0, i + 1), 0)
    ensures table.entries == [Some(Entry(dispatcher, i + 1))] && table.generations == [i + 1] && table.free == []
    ensures next.value in table.owner && next.value !in table.closed
    ensures table.issued == old(table.issued) + [next.value]
  {
    hide Slots, Reached, HistoryAgrees, Encode, SlotOf, GenerationBits, Meaning, Occupied;
    EncodeExact(0, i);
    ValueParts(h.value, h.value);
    FindsIt(table.entries, h.value, table.owner, table.closed);
    var notify := table.CloseSlot(h);
    assert notify.Some? && table.entries == [None] && table.free == [0];
    ClosedIsOld(table);
    var r := table.Add(dispatcher);
    next := r.value;
    OneSlot(next.slot, dispatcher, i, table.entries, table.generations, table.free);
  }

  lemma OneSlot(slot: nat, dispatcher: nat, i: nat, entries: seq<Option<Entry>>, generations: seq<nat>, free: seq<nat>)
    requires Occupied(slot, dispatcher, [None], [i], [0], entries, generations, free)
    ensures slot == 0 && entries == [Some(Entry(dispatcher, i + 1))] && generations == [i + 1] && free == []
  {
  }

  /** Only issued values are closed. */
  lemma ClosedIsOld(table: Table)
    requires table.Valid()
    ensures table.closed <= table.owner.Keys
  {
  }

  /** A slot used 4096 times in turn: the value it was issued last was never closed, and means
      nothing. */
  method UseUpSlot(dispatcher: nat) returns (table: Table, h: Handle)
    ensures fresh(table) && table.Valid() && table.generations == [GENERATIONS] && table.free == []
    ensures h.value in table.owner && h.value !in table.closed && table.Means(h.value).None?
    ensures |table.issued| == GENERATIONS && table.issued[GENERATIONS - 1] == h.value
  {
    hide Slots, Reached, HistoryAgrees, Encode, SlotOf, GenerationBits, Meaning;
    table := new Table();
    var r := table.Add(dispatcher);
    h := r.value;
    for i := 1 to GENERATIONS
      invariant fresh(table) && table.Valid() && table.generations == [i] && table.free == []
      invariant table.entries == [Some(Entry(dispatcher, i))]
      invariant h.slot == 0 && h.value == Encode(0, i) && h.value in table.owner && h.value !in table.closed
      invariant |table.issued| == i && table.issued[i - 1] == h.value
    {
      h := Reuse(table, h, dispatcher, i);
    }
    EncodeExact(0, GENERATIONS);
    table.RetiredSlot(0);
  }

  // ---------------------------------------------------------------- runs

  /** One step under the table's lock. Duplicating takes two: a look-up, and the entry made for what
      look-up number `at` of the run found; anything may come between, a close included. */
  datatype Step = Add(dispatcher: nat) | Close(h: Handle) | LookUp(h: Handle, duplicable: bool) | Enter(at: nat)

  datatype Outcome =
    | Issued(handle: Result<Handle, CoreError>)
    | Ended(notify: Option<nat>)
    | Found(dispatcher: Result<nat, CoreError>)
    | Nothing

  /** The value a step has issued, going by what it returned. */
  function IssuedBy(outcome: Outcome): seq<Value> {
    if outcome.Issued? && outcome.handle.Ok? then [outcome.handle.value.value] else []
  }

  function AllIssued(outcomes: seq<Outcome>): seq<Value> {
    if |outcomes| == 0 then [] else AllIssued(outcomes[..|outcomes| - 1]) + IssuedBy(outcomes[|outcomes| - 1])
  }

  /** A step that has closed the value `v`. */
  ghost predicate EndedBy(step: Step, outcome: Outcome, v: Value) {
    step.Close? && step.h.value == v && outcome.Ended? && outcome.notify.Some?
  }

  /** The dispatcher a step was asked to issue a value for. */
  function AskedFor(step: Step, outcomes: seq<Outcome>): Option<nat> {
    match step
    case Add(dispatcher) => Some(dispatcher)
    case Enter(at) =>
      if at < |outcomes| && outcomes[at].Found? && outcomes[at].dispatcher.Ok? then Some(outcomes[at].dispatcher.value)
        else None
    case _ => None
  }

  method Do(table: Table, step: Step, outcomes: seq<Outcome>) returns (outcome: Outcome)
    requires table.Valid() && (step.Close? ==> step.h.slot == SlotOf(step.h.value))
    modifies table
    ensures table.Valid()
    ensures table.issued == old(table.issued) + IssuedBy(outcome)
    ensures forall v :: v in table.closed <==> v in old(table.closed) || EndedBy(step, outcome, v)
    ensures forall v :: v in old(table.owner) ==> v in table.owner && table.owner[v] == old(table.owner)[v]
    ensures forall v :: v in IssuedBy(outcome) ==> v in table.owner && AskedFor(step, outcomes) == Some(table.owner[v])
    ensures step.LookUp? ==> outcome == Found(
      if old(table.Means(step.h.value)).None? || !step.duplicable then Err(InvalidArgument)
        else Ok(old(table.Means(step.h.value)).value))
  {
    hide SlotOf, GenerationBits, Slots, Reached, HistoryAgrees;
    outcome := Nothing;
    match step {
      case Add(dispatcher) =>
        var r := table.Add(dispatcher);
        outcome := Issued(r);
      case Close(h) =>
        var r := table.CloseSlot(h);
        outcome := Ended(r);
      case LookUp(h, duplicable) =>
        var r := table.LookUp(h, duplicable);
        outcome := Found(r);
      case Enter(at) =>
        var d := AskedFor(step, outcomes);
        if d.Some? {
          var r := table.Add(d.value);
          outcome := Issued(r);
        }
    }
  }

  /** Over any run from an empty table the values issued are pairwise distinct, each for the
      dispatcher its step was asked for; a value whose close told a dispatcher never means anything
      again; and any other means its dispatcher unless its generation was 4096. */
  method Run(steps: seq<Step>) returns (table: Table, outcomes: seq<Outcome>)
    requires forall i :: 0 <= i < |steps| && steps[i].Close? ==> steps[i].h.slot == SlotOf(steps[i].h.value)
    ensures fresh(table) && table.Valid() && |outcomes| == |steps|
    ensures var issued := AllIssued(outcomes);
      && (forall i, j :: 0 <= i < j < |issued| ==> issued[i] != issued[j])
      && (forall v :: v in issued <==> v in table.owner)
    ensures forall i, v :: 0 <= i < |steps| && v in IssuedBy(outcomes[i]) ==>
      v in table.owner && AskedFor(steps[i], outcomes[..i]) == Some(table.owner[v])
    ensures forall v :: v in table.closed <==> exists i :: 0 <= i < |steps| && EndedBy(steps[i], outcomes[i], v)
    ensures forall v :: v in table.closed ==> Find(table.entries, v).None?
    ensures forall v :: v in table.owner && v !in table.closed && GenerationBits(v) > 0 ==>
      Find(table.entries, v) == Some(table.owner[v])
  {
    hide SlotOf, GenerationBits, Slots, Reached, EndedBy, AskedFor, IssuedBy;
    table := new Table();
    outcomes := [];
    for i := 0 to |steps|
      invariant fresh(table) && table.Valid() && |outcomes| == i
      invariant table.issued == AllIssued(outcomes)
      invariant forall k, v :: 0 <= k < i && v in IssuedBy(outcomes[k]) ==>
        v in table.owner && AskedFor(steps[k], outcomes[..k]) == Some(table.owner[v])
      invariant forall v :: v in table.closed <==> exists k :: 0 <= k < i && EndedBy(steps[k], outcomes[k], v)
    {
      ghost var before, was := table.closed, outcomes;
      var outcome := Do(table, steps[i], outcomes);
      outcomes := outcomes + [outcome];
      assert outcomes[..i] == was;
      forall k | 0 <= k < i ensures outcomes[k] == was[k] && outcomes[..k] == was[..k] {
      }
      forall v ensures v in table.closed <==> exists k :: 0 <= k < i + 1 && EndedBy(steps[k], outcomes[k], v) {
        EndedStep(steps, was, outcome, before, v);
      }
    }
  }

  lemma EndedStep(steps: seq<Step>, was: seq<Outcome>, outcome: Outcome, before: set<Value>, v: Value)
    requires |was| < |steps|
    requires v in before <==> exists k :: 0 <= k < |was| && EndedBy(steps[k], was[k], v)
    ensures (v in before || EndedBy(steps[|was|], outcome, v)) <==>
      exists k :: 0 <= k < |was| + 1 && EndedBy(steps[k], (was + [outcome])[k], v)
  {
    hide EndedBy;
    var all := was + [outcome];
    if v in before {
      var k :| 0 <= k < |was| && EndedBy(steps[k], was[k], v);
      assert EndedBy(steps[k], all[k], v);
    }
    if EndedBy(steps[|was|], outcome, v) { assert EndedBy(steps[|was|], all[|was|], v); }
    if k :| 0 <= k < |was| + 1 && EndedBy(steps[k], all[k], v) {
      if k < |was| { assert EndedBy(steps[k], was[k], v); }
    }
  }
}
