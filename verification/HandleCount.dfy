/** What an encoded message says about its handles: how many it counts, and when the receiver,
    given that many, accepts the indices in it. */
module HandleCount {
  import opened Results
  import opened Bytes
  import opened Schema
  import opened Pointers
  import opened Encode
  import opened EncodeFrame
  import opened RoundTrip
  import opened Message
  import opened EndToEnd
  import LF = LayoutFacts
  import D = Depth

  // ---------------------------------------------------------------- the handle slots of a value

  /** The indices in the handle slots of a value, in the order in which they are written. */
  ghost function Indices(ty: Type, v: Value): seq<nat>
    decreases ty, 1, 0
  {
    match ty
    case Handle => if v.Handle? then [v.index] else []
    case Interface(_) => if v.Interface? then [v.index] else []
    case NullableScalar(inner) => if v.NullableScalar? && v.present then Indices(inner, v.value) else []
    case Array(e, _) => if v.Array? then AllIndices(e, v.items) else []
    case Map(k, e, _) => if v.Map? then AllIndices(k, v.keys) + AllIndices(e, v.values) else []
    case Struct(fields, _, _) => if v.Struct? && StructLayout(fields).Ok? then FieldIndices(ty, v.fields, 0) else []
    case Union(members, _, _) => if v.Union? && v.tag < |members| then Indices(members[v.tag], v.value) else []
    case _ => []
  }

  ghost function AllIndices(element: Type, items: seq<Value>): seq<nat>
    decreases element, 2, |items|
  {
    if |items| == 0 then [] else Indices(element, items[0]) + AllIndices(element, items[1..])
  }

  /** Those of the packed fields from position `k` on; a presence flag has none. */
  ghost function FieldIndices(ty: Type, vals: seq<Value>, k: nat): seq<nat>
    requires ty.Struct? && StructLayout(ty.fields).Ok? && k <= |StructLayout(ty.fields).value.packedFields|
    decreases ty, 0, |StructLayout(ty.fields).value.packedFields| - k, 1
  {
    if k == |StructLayout(ty.fields).value.packedFields| then []
    else PackedIndices(ty, vals, k) + FieldIndices(ty, vals, k + 1)
  }

  ghost function PackedIndices(ty: Type, vals: seq<Value>, k: nat): seq<nat>
    requires ty.Struct? && StructLayout(ty.fields).Ok? && k < |StructLayout(ty.fields).value.packedFields|
    decreases ty, 0, |StructLayout(ty.fields).value.packedFields| - k, 0
  {
    LF.PackedStands(ty.fields, k);
    var p := StructLayout(ty.fields).value.packedFields[k];
    var i := p.src.field.index;
    if p.src.field.nullableValueKind && p.src.field.kind.Bool? then [] else Indices(ty.fields[i].ty, FieldAt(vals, i))
  }

  function NonSentinel(indices: seq<nat>): nat {
    if |indices| == 0 then 0
    else (if indices[0] == ENCODED_INVALID_HANDLE_VALUE then 0 else 1) + NonSentinel(indices[1..])
  }

  lemma {:induction false} NonSentinelSum(a: seq<nat>, b: seq<nat>)
    ensures NonSentinel(a + b) == NonSentinel(a) + NonSentinel(b)
  {
    if |a| == 0 {
      assert a + b == b;
    } else {
      assert (a + b)[1..] == a[1..] + b;
      NonSentinelSum(a[1..], b);
    }
  }

  // ---------------------------------------------------------------- the encoder's count

  lemma PodIndices(ty: Type, v: Value)
    ensures ty.IsInPlace() && !ty.Handle? && !ty.Interface? ==> Indices(ty, v) == []
    ensures v.Null? ==> Indices(ty, v) == []
  {
  }

  lemma InPlaceCount(s: Enc, off: nat, bit: nat, ty: Type, v: Value)
    requires bit < 8 && ty.IsInPlace() && EncodeInPlace(s, off, bit, ty, v).Ok?
    ensures EncodeInPlace(s, off, bit, ty, v).value.handles == s.handles + NonSentinel(Indices(ty, v))
  {
    hide WriteAt, LE, SetBit;
    PodIndices(ty, v);
    if ty.Handle? || ty.Interface? { assert [v.index][1..] == []; }
  }

  lemma {:induction false} FieldCount(s: Enc, d: nat, off: nat, bit: nat, ty: Type, v: Value)
    requires bit < 8 && EncodeField(s, d, off, bit, ty, v).Ok?
    ensures EncodeField(s, d, off, bit, ty, v).value.handles == s.handles + NonSentinel(Indices(ty, v))
    decreases ty, 4, 0
  {
    hide EncodeInPlace, EncodeObject, WriteAt, Indices;
    PodIndices(ty, v);
    if ty.IsInPlace() {
      InPlaceCount(s, off, bit, ty, v);
    } else if ty.NullableScalar? {
      ScalarIndices(ty, v);
      if v.NullableScalar? && v.present { FieldCount(s, d, off, bit, ty.inner, v.value); }
    } else if !v.Null? {
      ObjectCount(s, d, off, ty, v);
    }
  }

  lemma ScalarIndices(ty: Type, v: Value)
    requires ty.NullableScalar?
    ensures Indices(ty, v) == if v.NullableScalar? && v.present then Indices(ty.inner, v.value) else []
  {
  }

  lemma {:induction false} ObjectCount(s: Enc, d: nat, off: nat, ty: Type, v: Value)
    requires !ty.IsInPlace() && !ty.NullableScalar? && !v.Null? && EncodeObject(s, d, off, ty, v).Ok?
    ensures EncodeObject(s, d, off, ty, v).value.handles == s.handles + NonSentinel(Indices(ty, v))
    decreases ty, 3, 1
  {
    hide EncodeStruct, EncodeUnion, EncodeArrayBody, EncodeMapAt, WriteAt, Grow, StructLayout, EncodeStringAt;
    var s1 := Start(s);
    match ty
    case String(_) => StringCount(s1, |s1.buf|, v.s);
    case Array(_, _) => BodyCount(s1, d + 1, |s1.buf|, ty.element, v.items);
    case Map(_, _, _) => MapCount(s1, d, |s1.buf|, ty, v.keys, v.values);
    case Struct(_, _, nullable) =>
      if nullable { StructCount(s1, d, |s1.buf|, ty, v); } else { StructCount(s, d, off, ty, v); }
    case Union(_, _, inlined) =>
      if inlined {
        UnionCount(s, d, off, ty, v.tag, v.value);
      } else {
        UnionCount(s1, d, |s1.buf|, ty, v.tag, v.value);
      }
  }

  lemma StringCount(s: Enc, t: nat, data: seq<byte>)
    ensures EncodeStringAt(s, t, data).handles == s.handles
  {
    hide WriteAt, Grow;
  }

  lemma {:induction false} UnionCount(s: Enc, d: nat, off: nat, ty: Type, tag: nat, v: Value)
    requires ty.Union? && tag < |ty.members| && EncodeUnion(s, d, off, ty, tag, v).Ok?
    ensures EncodeUnion(s, d, off, ty, tag, v).value.handles == s.handles + NonSentinel(Indices(ty.members[tag], v))
    decreases ty, 2, 0
  {
    hide WriteAt, Grow, EncodeUnionPayload;
    PayloadCount(UnionHeader(s, off, tag), d, off + 8, ty.members[tag], v);
  }

  lemma {:induction false} PayloadCount(s: Enc, d: nat, off: nat, ty: Type, v: Value)
    requires EncodeUnionPayload(s, d, off, ty, v).Ok?
    ensures EncodeUnionPayload(s, d, off, ty, v).value.handles == s.handles + NonSentinel(Indices(ty, v))
    decreases ty, 5, 0
  {
    hide EncodeField, EncodeStruct, EncodeStringAt, EncodeArrayBody, EncodeMapAt, WriteAt, Grow, StructLayout;
    var s1 := Start(s);
    if ty.InlineStruct() && v.Struct? {
      StructCount(s, d, off, ty, v);
    } else if ty.String? && v.String? {
      StringCount(s1, |s1.buf|, v.s);
    } else if ty.Array? && v.Array? {
      BodyCount(s1, d, |s1.buf|, ty.element, v.items);
    } else if ty.Map? && v.Map? {
      MapCount(s1, d, |s1.buf|, ty, v.keys, v.values);
    } else {
      FieldCount(s, d, off, 0, ty, v);
    }
  }

  lemma {:induction false} BodyCount(s: Enc, d: nat, t: nat, element: Type, items: seq<Value>)
    requires EncodeArrayBody(s, d, t, element, items).Ok?
    ensures EncodeArrayBody(s, d, t, element, items).value.handles ==
      s.handles + NonSentinel(AllIndices(element, items))
    decreases element, 7, 0
  {
    hide WriteAt, Grow, EncodeItems;
    ItemsCount(ArrayHeader(s, t, element.ElementSize(), |items|), d, t + 8, element, items);
  }

  lemma {:induction false} ItemsCount(s: Enc, d: nat, off: nat, element: Type, items: seq<Value>)
    requires EncodeItems(s, d, off, element, items).Ok?
    ensures EncodeItems(s, d, off, element, items).value.handles == s.handles + NonSentinel(AllIndices(element, items))
    decreases element, 6, |items|
  {
    hide EncodeItem, Indices;
    if |items| > 0 {
      var s1 := EncodeItem(s, d, off, element, items[0]).value;
      ItemCount(s, d, off, element, items[0]);
      ItemsCount(s1, d, off + element.ElementSize(), element, items[1..]);
      NonSentinelSum(Indices(element, items[0]), AllIndices(element, items[1..]));
    }
  }

  lemma {:induction false} ItemCount(s: Enc, d: nat, off: nat, element: Type, item: Value)
    requires EncodeItem(s, d, off, element, item).Ok?
    ensures EncodeItem(s, d, off, element, item).value.handles == s.handles + NonSentinel(Indices(element, item))
    decreases element, 5, 1
  {
    hide EncodeField, EncodeElement, WriteAt, Grow, Indices;
    if element.IsPod() {
      FieldCount(s, d, off, 0, element, item);
    } else if item.Null? {
      PodIndices(element, item);
    } else {
      ElementCount(Start(s), d, |Start(s).buf|, element, item);
    }
  }

  lemma {:induction false} ElementCount(s: Enc, d: nat, t: nat, element: Type, item: Value)
    requires !item.Null? && EncodeElement(s, d, t, element, item).Ok?
    ensures EncodeElement(s, d, t, element, item).value.handles == s.handles + NonSentinel(Indices(element, item))
    decreases element, 5, 0
  {
    hide EncodeStruct, EncodeStringAt, EncodeArrayBody, EncodeMapAt, StructLayout;
    match element
    case Struct(_, _, _) => NeedsStruct(s, d, t, element, item); StructCount(s, d, t, element, item);
    case String(_) => StringCount(s, t, if item.String? then item.s else []);
    case Array(inner, _) => BodyCount(s, d, t, inner, if item.Array? then item.items else []);
    case Map(_, _, _) => MapCount(s, d, t, element, item.keys, item.values);
    case _ =>
  }

  lemma PointerKeepsCount(s: Enc, off: nat, target: nat)
    ensures PutPointer(s, off, target).handles == s.handles
  {
    hide WriteAt, LE, EncodePointer;
  }

  lemma HeaderKeepsCount(s: Enc, t: nat)
    ensures MapHeader(s, t).handles == s.handles
  {
    hide WriteAt, LE, Grow;
  }

  lemma NeedsStruct(s: Enc, d: nat, off: nat, ty: Type, v: Value)
    requires ty.Struct? && EncodeStruct(s, d, off, ty, v).Ok?
    ensures v.Struct?
  {
  }

  lemma {:induction false} MapCount(s: Enc, d: nat, t: nat, ty: Type, keys: seq<Value>, values: seq<Value>)
    requires ty.Map? && EncodeMapAt(s, d, t, ty, keys, values).Ok?
    ensures EncodeMapAt(s, d, t, ty, keys, values).value.handles ==
      s.handles + NonSentinel(AllIndices(ty.key, keys) + AllIndices(ty.value, values))
    decreases ty, 2, 0
  {
    hide EncodeArrayBody, MapHeader, PutPointer, Start, AllIndices, NonSentinel;
    var k0 := Start(MapHeader(s, t));
    HeaderKeepsCount(s, t);
    BodyCount(k0, d + 1, |k0.buf|, ty.key, keys);
    var k1 := EncodeArrayBody(k0, d + 1, |k0.buf|, ty.key, keys).value;
    var k2 := PutPointer(k1, t + 8, |k0.buf|);
    PointerKeepsCount(k1, t + 8, |k0.buf|);
    var v0 := Start(k2);
    BodyCount(v0, d + 1, |v0.buf|, ty.value, values);
    PointerKeepsCount(EncodeArrayBody(v0, d + 1, |v0.buf|, ty.value, values).value, t + 16, |v0.buf|);
    NonSentinelSum(AllIndices(ty.key, keys), AllIndices(ty.value, values));
  }

  lemma {:induction false} StructCount(s: Enc, d: nat, off: nat, ty: Type, v: Value)
    requires ty.Struct? && v.Struct? && EncodeStruct(s, d, off, ty, v).Ok?
    ensures EncodeStruct(s, d, off, ty, v).value.handles == s.handles + NonSentinel(Indices(ty, v))
    decreases ty, 1, 0
  {
    hide WriteAt, Grow, StructLayout, EncodeFields;
    FieldsCount(StructHeader(s, off, StructLayout(ty.fields).value.size, v.version), d, off, ty, v.fields, 0);
  }

  lemma {:induction false} FieldsCount(s: Enc, d: nat, off: nat, ty: Type, vals: seq<Value>, k: nat)
    requires ty.Struct? && StructLayout(ty.fields).Ok? && k <= |StructLayout(ty.fields).value.packedFields|
    requires EncodeFields(s, d, off, ty, vals, k).Ok?
    ensures EncodeFields(s, d, off, ty, vals, k).value.handles == s.handles + NonSentinel(FieldIndices(ty, vals, k))
    decreases ty, 0, |StructLayout(ty.fields).value.packedFields| - k, 1
  {
    hide StructLayout, EncodePacked, PackedIndices;
    if k < |StructLayout(ty.fields).value.packedFields| {
      PackedCount(s, d, off, ty, vals, k);
      FieldsCount(EncodePacked(s, d, off, ty, vals, k).value, d, off, ty, vals, k + 1);
      NonSentinelSum(PackedIndices(ty, vals, k), FieldIndices(ty, vals, k + 1));
    }
  }

  lemma {:induction false} PackedCount(s: Enc, d: nat, off: nat, ty: Type, vals: seq<Value>, k: nat)
    requires ty.Struct? && StructLayout(ty.fields).Ok? && k < |StructLayout(ty.fields).value.packedFields|
    requires EncodePacked(s, d, off, ty, vals, k).Ok?
    ensures EncodePacked(s, d, off, ty, vals, k).value.handles == s.handles + NonSentinel(PackedIndices(ty, vals, k))
    decreases ty, 0, |StructLayout(ty.fields).value.packedFields| - k, 0
  {
    hide StructLayout, EncodeField, Indices, SetBit;
    LF.PackedStands(ty.fields, k);
    var p := StructLayout(ty.fields).value.packedFields[k];
    var i, at := p.src.field.index, off + 8 + p.offset;
    var v := FieldAt(vals, i);
    if p.src.field.nullableValueKind {
      ScalarIndices(ty.fields[i].ty, v);
      if !p.src.field.kind.Bool? && v.NullableScalar? && v.present {
        FieldCount(s, d, at, 0, ty.fields[i].ty.inner, v.value);
      }
    } else {
      FieldCount(s, d, at, p.bit, ty.fields[i].ty, v);
    }
  }

  /** A message's handle count is the number of its handle slots that do not hold the sentinel. */
  lemma MessageCount(header: seq<byte>, ty: Type, v: Value)
    requires EncodeMessage(header, ty, v).Ok? && v.Struct?
    ensures EncodeMessage(header, ty, v).value.handleCount == NonSentinel(Indices(ty, v))
  {
    hide EncodeStruct, Indices, WriteAt, Grow;
    var s := Start(Enc(header, 0));
    StructCount(s, 0, |s.buf|, ty, v);
  }

  // ---------------------------------------------------------------- a message against its own count

  ghost predicate Below(indices: seq<nat>, n: nat) {
    forall i :: i in indices ==> i == ENCODED_INVALID_HANDLE_VALUE || i < n
  }

  lemma {:induction false} ZeroReadsAny(ty: Type, hc: nat, n: nat, wide: bool)
    requires ZeroReads(ty, hc, wide) && n > 0
    ensures ZeroReads(ty, n, wide)
    decreases ty
  {
    match ty
    case Union(members, _, inlined) => if inlined { ZeroReadsAny(members[0], hc, n, false); }
    case NullableScalar(inner) => ZeroReadsAny(inner, hc, n, wide);
    case _ =>
  }

  /** Nothing absent in the value needs more than `n` handles to be read from its empty slot. */
  ghost predicate AbsentReads(ty: Type, v: Value, n: nat)
    decreases ty
  {
    match ty
    case Array(e, _) => v.Array? ==> forall i :: 0 <= i < |v.items| ==> AbsentReads(e, v.items[i], n)
    case Map(k, e, _) =>
      v.Map? ==>
        && (forall i :: 0 <= i < |v.keys| ==> AbsentReads(k, v.keys[i], n))
        && (forall i :: 0 <= i < |v.values| ==> AbsentReads(e, v.values[i], n))
    case Struct(fields, _, _) =>
      v.Struct? ==>
        forall i :: 0 <= i < |fields| && i < |v.fields| && fields[i].Version() <= v.version ==>
          AbsentReads(fields[i].ty, v.fields[i], n)
    case Union(members, _, _) => v.Union? && v.tag < |members| ==> AbsentReads(members[v.tag], v.value, n)
    case NullableScalar(inner) =>
      v.NullableScalar? && !ty.NullableBool() ==>
        if v.present then AbsentReads(inner, v.value, n) else ZeroReads(inner, n, true)
    case _ => true
  }

  /** What can be sent with `hc` handles can be sent with `n`, when its indices are below `n`; and
      if it conforms with `n` then they are. */
  lemma {:induction false} Rebase(ty: Type, v: Value, hc: nat, n: nat, room: nat, other: nat)
    requires Conforms(ty, v, hc, room, true) && SchemaOk(ty)
    requires n > 0 || AbsentReads(ty, v, n)
    ensures Below(Indices(ty, v), n) ==> Conforms(ty, v, n, room, true)
    ensures Conforms(ty, v, n, other, false) ==> Below(Indices(ty, v), n)
    decreases ty, 1
  {
    if v.Struct? {
      RebaseStruct(ty, v, hc, n, room, other);
    } else if v.Array? || v.Map? {
      RebaseList(ty, v, hc, n, room, other);
    } else if v.Union? || v.NullableScalar? {
      RebaseHeld(ty, v, hc, n, room, other);
    } else {
      RebaseLeaf(ty, v, hc, n, room, other);
    }
  }

  lemma RebaseLeaf(ty: Type, v: Value, hc: nat, n: nat, room: nat, other: nat)
    requires Conforms(ty, v, hc, room, true) && !v.Struct? && !v.Array? && !v.Map? && !v.Union? && !v.NullableScalar?
    ensures Below(Indices(ty, v), n) ==> Conforms(ty, v, n, room, true)
    ensures Conforms(ty, v, n, other, false) ==> Below(Indices(ty, v), n)
  {
    hide ValidUtf8, NumKind.InRange, StructLayout;
    if v.Handle? || v.Interface? { assert v.index in [v.index]; }
  }

  lemma {:induction false} RebaseList(ty: Type, v: Value, hc: nat, n: nat, room: nat, other: nat)
    requires Conforms(ty, v, hc, room, true) && SchemaOk(ty)
    requires (v.Array? || v.Map?) && (n > 0 || AbsentReads(ty, v, n))
    ensures Below(Indices(ty, v), n) ==> Conforms(ty, v, n, room, true)
    ensures Conforms(ty, v, n, other, false) ==> Below(Indices(ty, v), n)
    decreases ty, 0
  {
    hide AllIndices, Below, ElementConforms, AbsentReads;
    var deep := if other > 0 then other - 1 else 0;
    AbsentInside(ty, v, n);
    if v.Array? {
      RebaseAll(ty.element, v.items, hc, n, room - 1, deep);
    } else {
      RebaseAll(ty.key, v.keys, hc, n, room - 1, deep);
      RebaseAll(ty.value, v.values, hc, n, room - 1, deep);
      BelowSum(AllIndices(ty.key, v.keys), AllIndices(ty.value, v.values), n);
    }
  }

  lemma AbsentInside(ty: Type, v: Value, n: nat)
    requires n > 0 || AbsentReads(ty, v, n)
    ensures n > 0 || !ty.Array? || !v.Array? ||
      forall i :: 0 <= i < |v.items| ==> AbsentReads(ty.element, v.items[i], n)
    ensures n > 0 || !ty.Map? || !v.Map? || forall i :: 0 <= i < |v.keys| ==> AbsentReads(ty.key, v.keys[i], n)
    ensures n > 0 || !ty.Map? || !v.Map? || forall i :: 0 <= i < |v.values| ==> AbsentReads(ty.value, v.values[i], n)
  {
  }

  lemma {:induction false} RebaseHeld(ty: Type, v: Value, hc: nat, n: nat, room: nat, other: nat)
    requires Conforms(ty, v, hc, room, true) && SchemaOk(ty)
    requires (v.Union? || v.NullableScalar?) && (n > 0 || AbsentReads(ty, v, n))
    ensures Below(Indices(ty, v), n) ==> Conforms(ty, v, n, room, true)
    ensures Conforms(ty, v, n, other, false) ==> Below(Indices(ty, v), n)
    decreases ty, 0
  {
    hide Below;
    NoneBelow(n);
    if v.Union? {
      Rebase(ty.members[v.tag], v.value, hc, n, room, other);
      assert Conforms(ty, v, n, other, false) ==> BareConforms(ty.members[v.tag], v.value, n, other, false);
    } else if ty.NullableBool() {
      LostIndices(ty, v);
    } else if v.present {
      Rebase(ty.inner, v.value, hc, n, room, other);
      assert Indices(ty, v) == Indices(ty.inner, v.value);
      assert Conforms(ty, v, n, other, false) ==> BareConforms(ty.inner, v.value, n, other, false);
    } else {
      if n > 0 { ZeroReadsAny(ty.inner, hc, n, true); }
    }
  }

  lemma LostIndices(ty: Type, v: Value)
    requires ty.NullableBool() && v.NullableScalar? && v.value == LostBool(v.present)
    ensures Indices(ty, v) == []
  {
    if v.present { assert Indices(ty.inner, v.value) == []; }
  }

  ghost predicate AllAre(ty: Type, items: seq<Value>, n: nat, room: nat, sent: bool) {
    forall i :: 0 <= i < |items| ==> ElementConforms(ty, items[i], n, room, sent)
  }

  lemma {:induction false} RebaseAll(ty: Type, items: seq<Value>, hc: nat, n: nat, room: nat, other: nat)
    requires AllAre(ty, items, hc, room, true) && SchemaOk(ty)
    requires n > 0 || forall i :: 0 <= i < |items| ==> AbsentReads(ty, items[i], n)
    ensures Below(AllIndices(ty, items), n) ==> AllAre(ty, items, n, room, true)
    ensures AllAre(ty, items, n, other, false) ==> Below(AllIndices(ty, items), n)
    decreases ty, 3, |items|
  {
    hide Indices, ElementConforms, SchemaOk;
    if |items| > 0 {
      RebaseElement(ty, items[0], hc, n, room, other);
      RebaseAll(ty, items[1..], hc, n, room, other);
      BelowSum(Indices(ty, items[0]), AllIndices(ty, items[1..]), n);
    }
  }

  lemma BelowSum(a: seq<nat>, b: seq<nat>, n: nat)
    ensures Below(a + b, n) <==> Below(a, n) && Below(b, n)
  {
    forall i | i in a || i in b ensures i in a + b {
    }
  }

  lemma {:induction false} RebaseElement(ty: Type, v: Value, hc: nat, n: nat, room: nat, other: nat)
    requires ElementConforms(ty, v, hc, room, true) && SchemaOk(ty)
    requires n > 0 || AbsentReads(ty, v, n)
    ensures Below(Indices(ty, v), n) ==> ElementConforms(ty, v, n, room, true)
    ensures ElementConforms(ty, v, n, other, false) ==> Below(Indices(ty, v), n)
    decreases ty, 2
  {
    hide Indices, Below, AbsentReads, Conforms;
    NoneBelow(n);
    if v.Null? && !ty.IsPod() {
      PodIndices(ty, v);
    } else if ty.Array? && v.Array? {
      AbsentInside(ty, v, n);
      ArrayIndices(ty, v);
      RebaseAll(ty.element, v.items, hc, n, room, other);
    } else {
      Rebase(ty, v, hc, n, room, other);
    }
  }

  lemma ArrayIndices(ty: Type, v: Value)
    requires ty.Array? && v.Array?
    ensures Indices(ty, v) == AllIndices(ty.element, v.items)
  {
  }

  // ---------------------------------------------------------------- structs

  lemma {:induction false} FieldsBelow(ty: Type, vals: seq<Value>, k: nat, n: nat)
    requires ty.Struct? && StructLayout(ty.fields).Ok? && k <= |StructLayout(ty.fields).value.packedFields|
    ensures Below(FieldIndices(ty, vals, k), n) <==>
      forall j :: k <= j < |StructLayout(ty.fields).value.packedFields| ==> Below(PackedIndices(ty, vals, j), n)
    decreases |StructLayout(ty.fields).value.packedFields| - k
  {
    hide StructLayout, PackedIndices, Below;
    if k < |StructLayout(ty.fields).value.packedFields| {
      FieldsBelow(ty, vals, k + 1, n);
      BelowSum(PackedIndices(ty, vals, k), FieldIndices(ty, vals, k + 1), n);
      assert FieldIndices(ty, vals, k) == PackedIndices(ty, vals, k) + FieldIndices(ty, vals, k + 1);
      assert Below(FieldIndices(ty, vals, k), n) <==>
        Below(PackedIndices(ty, vals, k), n) && Below(FieldIndices(ty, vals, k + 1), n);
    } else {
      NoneBelow(n);
    }
  }

  lemma NoneBelow(n: nat)
    ensures Below([], n)
  {
  }

  lemma DefaultBelow(ty: Type, n: nat)
    ensures Below(Indices(ty, DefaultValue(ty)), n)
  {
  }

  lemma {:induction false} RebaseStruct(ty: Type, v: Value, hc: nat, n: nat, room: nat, other: nat)
    requires ty.Struct? && v.Struct? && Conforms(ty, v, hc, room, true) && SchemaOk(ty)
    requires n > 0 || AbsentReads(ty, v, n)
    ensures Below(Indices(ty, v), n) ==> Conforms(ty, v, n, room, true)
    ensures Conforms(ty, v, n, other, false) ==> Below(Indices(ty, v), n)
    decreases ty, 0
  {
    hide StructLayout, SchemaOk, Indices, Conforms, NoOverlap, SizeExpected, PackedIndices;
    ConformsToFields(ty, v, hc, room);
    StructIsOk(ty, v, hc, room - 1);
    EncodeFrame.SchemaStruct(ty);
    var packed := StructLayout(ty.fields).value.packedFields;
    FieldsBelow(ty, v.fields, 0, n);
    StructIndices(ty, v);
    if Below(Indices(ty, v), n) {
      forall i | 0 <= i < |ty.fields| ensures FieldFits(ty.fields[i], v.fields[i], v.version, n, room - 1) {
        assert FieldFits(ty.fields[i], v.fields[i], v.version, hc, room - 1);
        var k := LF.FieldCovered(ty.fields, i, false);
        assert Below(PackedIndices(ty, v.fields, k), n);
        PackedIs(ty, v.fields, k);
        if ty.fields[i].Version() <= v.version {
          if ty.fields[i].ty.NullableBool() { LostBelow(ty.fields[i].ty, v.fields[i], hc, room - 1, n); }
          Rebase(ty.fields[i].ty, v.fields[i], hc, n, room - 1, 0);
        }
      }
      FromFields(ty, v, n, room);
    }
    if Conforms(ty, v, n, other, false) {
      forall k | 0 <= k < |packed| ensures Below(PackedIndices(ty, v.fields, k), n) {
        PackedIs(ty, v.fields, k);
        var i := packed[k].src.field.index;
        assert FieldFits(ty.fields[i], v.fields[i], v.version, hc, room - 1);
        if ty.fields[i].Version() <= v.version {
          FieldOf(ty, v, n, other, i);
          Rebase(ty.fields[i].ty, v.fields[i], hc, n, room - 1, other - 1);
        } else {
          DefaultBelow(ty.fields[i].ty, n);
        }
      }
    }
  }

  lemma StructIndices(ty: Type, v: Value)
    requires ty.Struct? && v.Struct? && StructLayout(ty.fields).Ok?
    ensures Indices(ty, v) == FieldIndices(ty, v.fields, 0)
  {
    hide StructLayout;
  }

  lemma PackedIs(ty: Type, vals: seq<Value>, k: nat)
    requires ty.Struct? && SchemaOk(ty) && StructLayout(ty.fields).Ok?
    requires k < |StructLayout(ty.fields).value.packedFields|
    requires |vals| == |ty.fields|
    ensures var p := StructLayout(ty.fields).value.packedFields[k]; var i := p.src.field.index;
      && i < |ty.fields| && (ty.fields[i].ty.NullableBool() ==> PackedIndices(ty, vals, k) == [])
      && (PackedIndices(ty, vals, k) == [] || PackedIndices(ty, vals, k) == Indices(ty.fields[i].ty, vals[i]))
      && (p.src.field.kind == ty.fields[i].ty.PackKind() && !ty.fields[i].ty.NullableBool() ==>
            PackedIndices(ty, vals, k) == Indices(ty.fields[i].ty, vals[i]))
  {
    hide StructLayout, Indices;
    LF.PackedStands(ty.fields, k);
  }

  lemma LostBelow(ty: Type, v: Value, hc: nat, room: nat, n: nat)
    requires ty.NullableBool() && Conforms(ty, v, hc, room, true)
    ensures Below(Indices(ty, v), n)
  {
    LostIndices(ty, v);
  }

  lemma FieldOf(ty: Type, v: Value, n: nat, room: nat, i: nat)
    requires ty.Struct? && v.Struct? && Conforms(ty, v, n, room, false) && i < |ty.fields|
    requires ty.fields[i].Version() <= v.version
    ensures room >= 1 && |v.fields| == |ty.fields| && Conforms(ty.fields[i].ty, v.fields[i], n, room - 1, false)
  {
  }

  lemma FromFields(ty: Type, v: Value, n: nat, room: nat)
    requires ty.Struct? && v.Struct? && |v.fields| == |ty.fields| && v.version < TWO_32 && room >= 1
    requires SizeExpected(ty.fields, v.version) && NoOverlap(ty.fields, v.fields)
    requires forall i :: 0 <= i < |ty.fields| ==> FieldFits(ty.fields[i], v.fields[i], v.version, n, room - 1)
    ensures Conforms(ty, v, n, room, true)
  {
    hide NoOverlap, SizeExpected, SchemaOk, StructLayout;
  }

  /** A message validated with as many handles as it counts comes back, given what every message
      must meet, exactly when every index in it is below that count. Nothing makes the encoder's
      caller number its handles so. */
  lemma OwnCount(h: MessageHeader, ty: Type, v: Value, hc: nat, room: nat, limits: Limits)
    requires HeaderTyped(h) && Serialize(h).Ok?
    requires ty.Struct? && v.Struct? && SchemaOk(ty) && Conforms(ty, v, hc, room, true)
    requires EncodeMessage(Serialize(h).value, ty, v).Ok?
    requires Min(|EncodeMessage(Serialize(h).value, ty, v).value.bytes|, limits.maxMessageSize) < TWO_32
    requires EncodeMessage(Serialize(h).value, ty, v).value.handleCount > 0 || AbsentReads(ty, v, 0)
    ensures var off, m := HeaderSize(h.version), EncodeMessage(Serialize(h).value, ty, v).value;
      ValidateMessage(m.bytes, m.handleCount, ty, limits) == Ok(ValidatedMessage(Received(h, off), v, off)) <==>
        && Below(Indices(ty, v), m.handleCount) && HeaderConsistent(h)
        && |m.bytes| <= limits.maxMessageSize && D.DepthOf(v) <= limits.maxDepth
  {
    hide SchemaOk, Conforms, Serialize, EncodeMessage, ValidateMessage, Received, HeaderConsistent, HeaderTyped,
      HeaderSize, Indices, Below, AbsentReads, D.DepthOf;
    var off, m := HeaderSize(h.version), EncodeMessage(Serialize(h).value, ty, v).value;
    Rebase(ty, v, hc, m.handleCount, room, limits.maxDepth);
    if Below(Indices(ty, v), m.handleCount) {
      MessageRoundTrip(h, ty, v, m.handleCount, room, limits);
    } else if ValidateMessage(m.bytes, m.handleCount, ty, limits) == Ok(ValidatedMessage(Received(h, off), v, off)) {
      ValidationIsSound(m.bytes, m.handleCount, ty, limits);
    }
  }
}
