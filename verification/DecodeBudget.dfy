/** Decoding cannot amplify: what an accepted message expands to is paid for, byte by byte, by
    the frontier's advance through the message. This holds for every schema. */
module DecodeBudget {
  import opened Results
  import opened Schema
  import opened Decode
  import LF = LayoutFacts

  /** Eight bytes for every array and string, plus the bytes of their elements. */
  ghost function Footprint(ty: Type, v: Value): nat
    decreases v, ty
  {
    if ty.NullableScalar? && !v.NullableScalar? then Footprint(ty.inner, v)
    else
      match v
      case String(s) => 8 + |s|
      case Array(items) => if ty.Array? then ArrayFootprint(ty.element, items) else 0
      case Map(keys, values) =>
        if ty.Map? then ArrayFootprint(ty.key, keys) + ArrayFootprint(ty.value, values) else 0
      case Struct(_, vals) => if ty.Struct? then SumFootprint(Types(ty.fields), vals) else 0
      case Union(tag, w) => if ty.Union? && tag < |ty.members| then Footprint(ty.members[tag], w) else 0
      case NullableScalar(_, w) => if ty.NullableScalar? then Footprint(ty.inner, w) else 0
      case _ => 0
  }

  ghost function ArrayFootprint(element: Type, items: seq<Value>): nat
    decreases items, element, 1
  {
    8 + element.ElementSize() * |items| + ItemsFootprint(element, items)
  }

  ghost function ItemsFootprint(element: Type, items: seq<Value>): nat
    decreases items, element, 0
  {
    if |items| == 0 then 0 else Footprint(element, items[0]) + ItemsFootprint(element, items[1..])
  }

  function Types(fields: seq<FieldType>): (r: seq<Type>)
    ensures |r| == |fields|
  {
    seq(|fields|, i requires 0 <= i < |fields| => fields[i].ty)
  }

  /** The types of the slots themselves: a nullable scalar's slot holds its inner type. */
  function SlotTypes(fields: seq<FieldType>): (r: seq<Type>)
    ensures |r| == |fields|
  {
    seq(|fields|, i requires 0 <= i < |fields| => SlotType(fields[i].ty))
  }

  function SlotType(ty: Type): Type {
    if ty.NullableScalar? then ty.inner else ty
  }

  ghost function SumFootprint(types: seq<Type>, vals: seq<Value>): nat
    decreases vals
  {
    if |vals| == 0 || |types| == 0 then 0
    else Footprint(types[0], vals[0]) + SumFootprint(types[1..], vals[1..])
  }

  lemma {:induction false} SumUpdate(types: seq<Type>, vals: seq<Value>, i: nat, y: Value)
    requires i < |types| == |vals|
    ensures SumFootprint(types, vals[i := y]) <= SumFootprint(types, vals) + Footprint(types[i], y)
  {
    hide Footprint;
    var u := vals[i := y];
    if i == 0 {
      assert u[1..] == vals[1..];
    } else {
      SumUpdate(types[1..], vals[1..], i - 1, y);
      assert u[1..] == vals[1..][i - 1 := y];
    }
  }

  lemma {:induction false} SumAtMost(types: seq<Type>, vals: seq<Value>, types': seq<Type>, vals': seq<Value>)
    requires |types| == |vals| == |types'| == |vals'|
    requires forall i :: 0 <= i < |types| ==> Footprint(types[i], vals[i]) <= Footprint(types'[i], vals'[i])
    ensures SumFootprint(types, vals) <= SumFootprint(types', vals')
  {
    hide Footprint;
    if |types| > 0 {
      assert forall i :: 0 <= i < |types[1..]| ==> types[1..][i] == types[i + 1] && types'[1..][i] == types'[i + 1];
      assert forall i :: 0 <= i < |vals[1..]| ==> vals[1..][i] == vals[i + 1] && vals'[1..][i] == vals'[i + 1];
      SumAtMost(types[1..], vals[1..], types'[1..], vals'[1..]);
    }
  }

  lemma {:induction false} SumZero(types: seq<Type>, vals: seq<Value>)
    requires |types| == |vals| && forall i :: 0 <= i < |types| ==> Footprint(types[i], vals[i]) == 0
    ensures SumFootprint(types, vals) == 0
  {
    hide Footprint;
    if |types| > 0 {
      assert forall i :: 0 <= i < |types[1..]| ==> types[1..][i] == types[i + 1] && vals[1..][i] == vals[i + 1];
      SumZero(types[1..], vals[1..]);
    }
  }

  lemma {:induction false} NullIsFree(ty: Type)
    ensures Footprint(ty, Value.Null) == 0
  {
    if ty.NullableScalar? {
      NullIsFree(ty.inner);
    }
  }

  lemma DefaultIsFree(ty: Type)
    ensures Footprint(SlotType(ty), DefaultValue(ty)) == 0
  {
    NullIsFree(SlotType(ty));
    if ty.NullableScalar? && ty.inner.NullableScalar? {
      NullIsFree(ty.inner.inner);
    }
  }

  // ---------------------------------------------------------------- the budget

  /** The frontier moved by at least `cost`, and not past the message. */
  ghost predicate Paid(c: Ctx, f: nat, f': nat, cost: nat) {
    f + cost <= f' && (f <= |c.bytes| ==> f' <= |c.bytes|)
  }

  lemma ClaimPays(c: Ctx, f: nat, start: nat, len: nat)
    requires Claim(c, f, start, len).Ok?
    ensures Paid(c, f, Claim(c, f, start, len).value, len)
  {
  }

  lemma InPlaceIsFree(c: Ctx, off: nat, bit: nat, ty: Type)
    requires bit < 8 && ty.IsInPlace() && DecodeInPlace(c, off, bit, ty).Ok?
    ensures var v := DecodeInPlace(c, off, bit, ty).value; Footprint(ty, v) == 0 && !v.NullableScalar?
  {
    hide ReadLE, ReadByte;
  }

  lemma {:induction false} PayField(c: Ctx, f: nat, d: nat, off: nat, bit: nat, ty: Type, v: Value, f': nat)
    requires bit < 8 && DecodeField(c, f, d, off, bit, ty) == Ok((v, f'))
    ensures Paid(c, f, f', Footprint(ty, v)) && !v.NullableScalar?
    decreases ty, 4, 0
  {
    hide DecodeInPlace, DecodeObject, Footprint;
    if ty.IsInPlace() {
      InPlaceIsFree(c, off, bit, ty);
    } else if ty.NullableScalar? {
      PayField(c, f, d, off, bit, ty.inner, v, f');
      ScalarCost(ty, v);
    } else {
      PayObject(c, f, d, off, ty, v, f');
    }
  }

  lemma ScalarCost(ty: Type, v: Value)
    requires ty.NullableScalar? && !v.NullableScalar?
    ensures Footprint(ty, v) == Footprint(ty.inner, v)
  {
  }

  lemma {:induction false} PayObject(c: Ctx, f: nat, d: nat, off: nat, ty: Type, v: Value, f': nat)
    requires !ty.IsInPlace() && !ty.NullableScalar? && DecodeObject(c, f, d, off, ty) == Ok((v, f'))
    ensures Paid(c, f, f', Footprint(ty, v)) && !v.NullableScalar?
    decreases ty, 3, 1
  {
    hide Footprint, DecodeString, DecodeArray, DecodeMap, DecodeStructPointer, DecodeStruct, DecodeUnion, ReadPointer;
    match ty
    case String(nullable) => PayString(c, f, off, nullable, v, f');
    case Array(_, _) => PayArray(c, f, d, off, ty, v, f');
    case Map(_, _, _) => PayMap(c, f, d, off, ty, v, f');
    case Struct(_, _, nullable) =>
      if nullable {
        PayStructPointer(c, f, d, off, ty, true, v, f');
      } else {
        PayStruct(c, f, d, off, ty, false, v, f');
      }
    case Union(_, _, inlined) =>
      if inlined {
        PayUnion(c, f, d, off, ty, false, v, f');
      } else {
        var ptr := ReadPointer(c, off).value;
        if ptr.NullPointer? { NullIsFree(ty); } else { PayUnion(c, f, d, ptr.target, ty, true, v, f'); }
      }
  }

  lemma UnionCost(ty: Type, tag: nat, w: Value)
    requires ty.Union? && tag < |ty.members|
    ensures Footprint(ty, Value.Union(tag, w)) == Footprint(ty.members[tag], w)
  {
  }

  lemma {:induction false} PayUnion(c: Ctx, f: nat, d: nat, off: nat, ty: Type, claim: bool, v: Value, f': nat)
    requires ty.Union? && DecodeUnion(c, f, d, off, ty, claim) == Ok((v, f'))
    ensures Paid(c, f, f', Footprint(ty, v)) && !v.NullableScalar?
    decreases ty, 2, 0
  {
    hide Footprint, ReadLE, Claim, DecodeUnionPayload;
    var tag := ReadLE(c, off + 4, 4).value;
    if claim { ClaimPays(c, f, off, 16); }
    var f1 := if claim then Claim(c, f, off, 16).value else f;
    var (w, f2) := DecodeUnionPayload(c, f1, d, off + 8, ty.members[tag]).value;
    PayPayload(c, f1, d, off + 8, ty.members[tag], w, f2);
    UnionCost(ty, tag, w);
  }

  lemma {:induction false} PayPayload(c: Ctx, f: nat, d: nat, off: nat, ty: Type, v: Value, f': nat)
    requires DecodeUnionPayload(c, f, d, off, ty) == Ok((v, f'))
    ensures Paid(c, f, f', Footprint(ty, v))
    decreases ty, 5, 0
  {
    hide Footprint, DecodeStructPointer, DecodeString, DecodeArray, DecodeMap, DecodeField;
    match ty
    case Struct(_, _, nullable) => PayStructPointer(c, f, d, off, ty, nullable, v, f');
    case String(nullable) => PayString(c, f, off, nullable, v, f');
    case Array(_, _) => PayArray(c, f, d, off, ty, v, f');
    case Map(_, _, _) => PayMap(c, f, d, off, ty, v, f');
    case _ => PayField(c, f, d, off, 0, ty, v, f');
  }

  lemma PayStringAt(c: Ctx, f: nat, t: nat, nullable: bool, v: Value, f': nat)
    requires DecodeStringAt(c, f, t) == Ok((v, f'))
    ensures Paid(c, f, f', Footprint(Type.String(nullable), v)) && !v.NullableScalar?
  {
    hide ReadLE, ReadByte, ValidUtf8;
  }

  lemma PayString(c: Ctx, f: nat, off: nat, nullable: bool, v: Value, f': nat)
    requires DecodeString(c, f, off, nullable) == Ok((v, f'))
    ensures Paid(c, f, f', Footprint(Type.String(nullable), v)) && !v.NullableScalar?
  {
    hide DecodeStringAt, ReadPointer, Footprint;
    var ptr := ReadPointer(c, off).value;
    if ptr.NullPointer? { NullIsFree(Type.String(nullable)); } else { PayStringAt(c, f, ptr.target, nullable, v, f'); }
  }

  lemma ArrayCost(ty: Type, items: seq<Value>)
    requires ty.Array?
    ensures Footprint(ty, Value.Array(items)) == ArrayFootprint(ty.element, items)
  {
  }

  lemma {:induction false} PayArray(c: Ctx, f: nat, d: nat, off: nat, ty: Type, v: Value, f': nat)
    requires ty.Array? && DecodeArray(c, f, d, off, ty) == Ok((v, f'))
    ensures Paid(c, f, f', Footprint(ty, v)) && !v.NullableScalar?
    decreases ty, 3, 0
  {
    hide Footprint, ArrayFootprint, DecodeArrayBody, ReadPointer;
    var ptr := ReadPointer(c, off).value;
    if ptr.NullPointer? {
      NullIsFree(ty);
    } else {
      var (items, f1) := DecodeArrayBody(c, f, d + 1, ptr.target, ty.element).value;
      PayBody(c, f, d + 1, ptr.target, ty.element, items, f1);
      ArrayCost(ty, items);
    }
  }

  lemma {:induction false} PayBody(c: Ctx, f: nat, d: nat, t: nat, element: Type, items: seq<Value>, f': nat)
    requires DecodeArrayBody(c, f, d, t, element) == Ok((items, f'))
    ensures Paid(c, f, f', ArrayFootprint(element, items))
    decreases element, 7, 0
  {
    hide Footprint, ItemsFootprint, ReadLE, Claim, DecodeItems;
    var numBytes, n := ReadLE(c, t, 4).value, ReadLE(c, t + 4, 4).value;
    ClaimPays(c, f, t, numBytes);
    PayItems(c, Claim(c, f, t, numBytes).value, d, t + 8, element, n, items, f');
  }

  lemma ItemsCost(element: Type, v: Value, rest: seq<Value>)
    ensures ItemsFootprint(element, [v] + rest) == Footprint(element, v) + ItemsFootprint(element, rest)
  {
    hide Footprint;
    assert ([v] + rest)[1..] == rest;
  }

  lemma {:induction false} PayItems(c: Ctx, f: nat, d: nat, off: nat, element: Type, n: nat, items: seq<Value>, f': nat)
    requires DecodeItems(c, f, d, off, element, n) == Ok((items, f'))
    ensures Paid(c, f, f', ItemsFootprint(element, items)) && |items| == n
    decreases element, 6, n
  {
    hide Footprint, ItemsFootprint, DecodeItem;
    if n == 0 {
      NoItems(element);
    } else {
      var (v, f1) := DecodeItem(c, f, d, off, element).value;
      var (rest, f2) := DecodeItems(c, f1, d, off + element.ElementSize(), element, n - 1).value;
      PayItem(c, f, d, off, element, v, f1);
      PayItems(c, f1, d, off + element.ElementSize(), element, n - 1, rest, f2);
      ItemsCost(element, v, rest);
    }
  }

  lemma NoItems(element: Type)
    ensures ItemsFootprint(element, []) == 0
  {
  }

  lemma {:induction false} PayItem(c: Ctx, f: nat, d: nat, off: nat, element: Type, v: Value, f': nat)
    requires DecodeItem(c, f, d, off, element) == Ok((v, f'))
    ensures Paid(c, f, f', Footprint(element, v))
    decreases element, 5, 1
  {
    hide Footprint, DecodeField, DecodeElement, ReadPointer;
    if element.IsPod() {
      PayField(c, f, d, off, 0, element, v, f');
    } else {
      var ptr := ReadPointer(c, off).value;
      if ptr.NullPointer? { NullIsFree(element); } else { PayElement(c, f, d, ptr.target, element, v, f'); }
    }
  }

  lemma {:induction false} PayElement(c: Ctx, f: nat, d: nat, t: nat, element: Type, v: Value, f': nat)
    requires DecodeElement(c, f, d, t, element) == Ok((v, f'))
    ensures Paid(c, f, f', Footprint(element, v))
    decreases element, 5, 0
  {
    hide Footprint, ArrayFootprint, DecodeStruct, DecodeStringAt, DecodeMapAt, DecodeArrayBody;
    match element
    case Struct(_, _, _) => PayStruct(c, f, d, t, element, true, v, f');
    case String(nullable) => PayStringAt(c, f, t, nullable, v, f');
    case Map(_, _, _) => PayMapAt(c, f, d, t, element, v, f');
    case Array(inner, _) =>
      var (items, f1) := DecodeArrayBody(c, f, d, t, inner).value;
      PayBody(c, f, d, t, inner, items, f1);
      ArrayCost(element, items);
    case _ =>
  }

  lemma MapCost(ty: Type, keys: seq<Value>, values: seq<Value>)
    requires ty.Map?
    ensures Footprint(ty, Value.Map(keys, values)) == ArrayFootprint(ty.key, keys) + ArrayFootprint(ty.value, values)
  {
  }

  lemma {:induction false} PayMap(c: Ctx, f: nat, d: nat, off: nat, ty: Type, v: Value, f': nat)
    requires ty.Map? && DecodeMap(c, f, d, off, ty) == Ok((v, f'))
    ensures Paid(c, f, f', Footprint(ty, v)) && !v.NullableScalar?
    decreases ty, 3, 0
  {
    hide Footprint, DecodeMapAt, ReadPointer;
    var ptr := ReadPointer(c, off).value;
    if ptr.NullPointer? { NullIsFree(ty); } else { PayMapAt(c, f, d, ptr.target, ty, v, f'); }
  }

  lemma {:induction false} PayMapAt(c: Ctx, f: nat, d: nat, t: nat, ty: Type, v: Value, f': nat)
    requires ty.Map? && DecodeMapAt(c, f, d, t, ty) == Ok((v, f'))
    ensures Paid(c, f, f', Footprint(ty, v)) && !v.NullableScalar?
    decreases ty, 2, 0
  {
    hide Footprint, ArrayFootprint, DecodeArrayBody, ReadPointer, ReadLE, Claim;
    var numBytes := ReadLE(c, t, 4).value;
    ClaimPays(c, f, t, numBytes);
    var f1 := Claim(c, f, t, numBytes).value;
    var ko, vo := ReadPointer(c, t + 8).value.target, ReadPointer(c, t + 16).value.target;
    var (keys, f2) := DecodeArrayBody(c, f1, d + 1, ko, ty.key).value;
    var (values, f3) := DecodeArrayBody(c, f2, d + 1, vo, ty.value).value;
    PayBody(c, f1, d + 1, ko, ty.key, keys, f2);
    PayBody(c, f2, d + 1, vo, ty.value, values, f3);
    MapCost(ty, keys, values);
  }

  lemma {:induction false} PayStructPointer(c: Ctx, f: nat, d: nat, off: nat, ty: Type, nullable: bool, v: Value,
      f': nat)
    requires ty.Struct? && DecodeStructPointer(c, f, d, off, ty, nullable) == Ok((v, f'))
    ensures Paid(c, f, f', Footprint(ty, v)) && !v.NullableScalar?
    decreases ty, 3, 0
  {
    hide Footprint, DecodeStruct, ReadPointer;
    var ptr := ReadPointer(c, off).value;
    if ptr.NullPointer? { NullIsFree(ty); } else { PayStruct(c, f, d, ptr.target, ty, true, v, f'); }
  }

  // ---------------------------------------------------------------- structs

  /** What the slots filled in so far cost. */
  ghost function FilledCost(fields: seq<FieldType>, x: Filled): nat {
    SumFootprint(SlotTypes(fields), x.scalars)
  }

  lemma {:induction false} PayPacked(c: Ctx, f: nat, d: nat, off: nat, ty: Type, numBytes: nat, version: nat,
      k: nat, x: Filled, x': Filled, f': nat)
    requires ty.Struct? && StructLayout(ty.fields).Ok? && k < |StructLayout(ty.fields).value.packedFields|
    requires |x.scalars| == |ty.fields| && |x.presence| == |ty.fields|
    requires DecodePacked(c, f, d, off, ty, numBytes, version, k, x) == Ok((x', f'))
    ensures f + FilledCost(ty.fields, x') <= f' + FilledCost(ty.fields, x) && Paid(c, f, f', 0)
    decreases ty, 0, |StructLayout(ty.fields).value.packedFields| - k, 0
  {
    hide StructLayout, Footprint, SumFootprint, DecodeField, ReadByte;
    LF.PackedStands(ty.fields, k);
    var p := StructLayout(ty.fields).value.packedFields[k];
    var i, at, scalar := p.src.field.index, off + 8 + p.offset, p.src.field.nullableValueKind;
    if p.src.minVersion > version || 8 + p.offset + p.Size() > numBytes || (scalar && p.src.field.kind.Bool?) {
    } else {
      var bit, ft := if scalar then 0 else p.bit, if scalar then ty.fields[i].ty.inner else ty.fields[i].ty;
      var (y, f1) := DecodeField(c, f, d, at, bit, ft).value;
      PayField(c, f, d, at, bit, ft, y, f1);
      SumUpdate(SlotTypes(ty.fields), x.scalars, i, y);
    }
  }

  lemma {:induction false} PayFields(c: Ctx, f: nat, d: nat, off: nat, ty: Type, numBytes: nat, version: nat,
      k: nat, x: Filled, x': Filled, f': nat)
    requires ty.Struct? && StructLayout(ty.fields).Ok? && k <= |StructLayout(ty.fields).value.packedFields|
    requires |x.scalars| == |ty.fields| && |x.presence| == |ty.fields|
    requires DecodeFields(c, f, d, off, ty, numBytes, version, k, x) == Ok((x', f'))
    ensures |x'.scalars| == |ty.fields| && |x'.presence| == |ty.fields|
    ensures f + FilledCost(ty.fields, x') <= f' + FilledCost(ty.fields, x) && Paid(c, f, f', 0)
    decreases ty, 0, |StructLayout(ty.fields).value.packedFields| - k, 1
  {
    hide StructLayout, FilledCost, DecodePacked;
    if k < |StructLayout(ty.fields).value.packedFields| {
      var (x1, f1) := DecodePacked(c, f, d, off, ty, numBytes, version, k, x).value;
      PayPacked(c, f, d, off, ty, numBytes, version, k, x, x1, f1);
      PayFields(c, f1, d, off, ty, numBytes, version, k + 1, x1, x', f');
    }
  }

  lemma DefaultsFree(fields: seq<FieldType>, presence: seq<bool>)
    ensures FilledCost(fields, Filled(Defaults(fields), presence)) == 0
  {
    hide Footprint, SumFootprint, DefaultValue;
    var types, vals := SlotTypes(fields), Defaults(fields);
    forall i | 0 <= i < |types| ensures Footprint(types[i], vals[i]) == 0 {
      DefaultIsFree(fields[i].ty);
    }
    SumZero(types, vals);
  }

  lemma AssembleCost(fields: seq<FieldType>, x: Filled)
    requires |x.scalars| == |fields| && |x.presence| == |fields|
    ensures SumFootprint(Types(fields), Assemble(fields, x)) <= FilledCost(fields, x)
  {
    hide Footprint, SumFootprint;
    var types, vals := Types(fields), Assemble(fields, x);
    forall i | 0 <= i < |types| ensures Footprint(types[i], vals[i]) <= Footprint(SlotTypes(fields)[i], x.scalars[i]) {
      WrapCost(fields[i].ty, x.presence[i], x.scalars[i]);
    }
    SumAtMost(types, vals, SlotTypes(fields), x.scalars);
  }

  lemma WrapCost(ty: Type, present: bool, v: Value)
    ensures ty.NullableScalar? ==>
      Footprint(ty, Value.NullableScalar(present, if present then v else Value.Null)) <= Footprint(ty.inner, v)
  {
    if ty.NullableScalar? {
      NullIsFree(ty.inner);
    }
  }

  lemma StructCost(ty: Type, version: nat, vals: seq<Value>)
    requires ty.Struct?
    ensures Footprint(ty, Value.Struct(version, vals)) == SumFootprint(Types(ty.fields), vals)
  {
  }

  lemma HeaderPays(c: Ctx, f: nat, off: nat, fields: seq<FieldType>, claim: bool)
    requires DecodeStructHeader(c, f, off, fields, claim).Ok?
    ensures Paid(c, f, DecodeStructHeader(c, f, off, fields, claim).value.2, 0)
    ensures StructLayout(fields).Ok?
  {
    hide StructLayout, ReadLE, Claim, MaxVersion;
    if claim { ClaimPays(c, f, off, ReadLE(c, off, 4).value); }
  }

  lemma {:induction false} PayStruct(c: Ctx, f: nat, d: nat, off: nat, ty: Type, claim: bool, v: Value, f': nat)
    requires ty.Struct? && DecodeStruct(c, f, d, off, ty, claim) == Ok((v, f'))
    ensures Paid(c, f, f', Footprint(ty, v)) && v.Struct?
    decreases ty, 1, 0
  {
    hide StructLayout, DecodeStructHeader, DecodeFields, Assemble, Footprint, SumFootprint, FilledCost;
    HeaderPays(c, f, off, ty.fields, claim);
    var (numBytes, version, f1) := DecodeStructHeader(c, f, off, ty.fields, claim).value;
    var start := Filled(Defaults(ty.fields), seq(|ty.fields|, _ => false));
    var (x, f2) := DecodeFields(c, f1, d + 1, off, ty, numBytes, version, 0, start).value;
    PayFields(c, f1, d + 1, off, ty, numBytes, version, 0, start, x, f2);
    DefaultsFree(ty.fields, start.presence);
    AssembleCost(ty.fields, x);
    StructCost(ty, version, Assemble(ty.fields, x));
  }
}
