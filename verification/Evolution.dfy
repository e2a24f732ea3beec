/** Versions of a schema: a type has evolved into another when structs anywhere in it have got
    more fields, newer than all they had. Whatever a receiver with the newer schema makes of a
    message, one with the older schema accepts too and makes of it the same, without the newer
    fields. */
module Evolution {
  import opened Results
  import opened Schema
  import opened Decode
  import P = Pack
  import V = PackVersions
  import LF = LayoutFacts
  import DB = DecodeBudget

  // ---------------------------------------------------------------- older and newer types

  /** `b` is `a` with fields added to some of its structs, each newer than the struct was. */
  ghost predicate Evolves(a: Type, b: Type)
    decreases a
  {
    match a
    case Array(e, n) => b.Array? && b.nullable == n && Evolves(e, b.element)
    case Map(k, e, n) => b.Map? && b.nullable == n && Evolves(k, b.key) && Evolves(e, b.value)
    case Struct(fields, _, n) =>
      && b.Struct? && b.nullable == n && |fields| <= |b.fields|
      && (forall i :: 0 <= i < |fields| ==>
            b.fields[i].minVersion == fields[i].minVersion && Evolves(fields[i].ty, b.fields[i].ty))
      && (forall i :: |fields| <= i < |b.fields| ==> MaxVersion(fields) < b.fields[i].Version())
    case Union(members, n, inlined) =>
      && b.Union? && b.nullable == n && b.inlined == inlined && |members| == |b.members|
      && forall i :: 0 <= i < |members| ==> Evolves(members[i], b.members[i])
    case NullableScalar(inner) => b.NullableScalar? && Evolves(inner, b.inner)
    case _ => b == a
  }

  lemma {:induction false} EvolvesSelf(a: Type)
    ensures Evolves(a, a)
  {
    match a
    case Array(e, _) => EvolvesSelf(e);
    case Map(k, e, _) => EvolvesSelf(k); EvolvesSelf(e);
    case Struct(fields, _, _) => forall i | 0 <= i < |fields| ensures Evolves(fields[i].ty, fields[i].ty) {
        EvolvesSelf(fields[i].ty);
      }
    case Union(members, _, _) => forall i | 0 <= i < |members| ensures Evolves(members[i], members[i]) {
        EvolvesSelf(members[i]);
      }
    case NullableScalar(inner) => EvolvesSelf(inner);
    case _ =>
  }

  lemma {:induction false} SameKind(a: Type, b: Type)
    requires Evolves(a, b)
    ensures a.PackKind() == b.PackKind() && a.IsNullable() == b.IsNullable() && a.IsInPlace() == b.IsInPlace()
    ensures a.NullableScalar? == b.NullableScalar? && a.IsPod() == b.IsPod() && (a.IsInPlace() ==> a == b)
  {
    if a.NullableScalar? { SameKind(a.inner, b.inner); }
  }

  /** A value as the older type has it: without the newer fields. */
  function Narrow(a: Type, v: Value): Value
    decreases a, 0
  {
    match a
    case Array(e, _) => if v.Array? then Value.Array(NarrowAll(e, v.items)) else v
    case Map(k, e, _) => if v.Map? then Value.Map(NarrowAll(k, v.keys), NarrowAll(e, v.values)) else v
    case Struct(fields, _, _) =>
      if v.Struct? && |v.fields| >= |fields| then
        Value.Struct(v.version, seq(|fields|, i requires 0 <= i < |fields| => NarrowField(fields[i].ty, v.fields[i])))
      else v
    case Union(members, _, _) =>
      if v.Union? && v.tag < |members| then Value.Union(v.tag, Narrow(members[v.tag], v.value)) else v
    case NullableScalar(inner) => Narrow(inner, v)
    case _ => v
  }

  function NarrowAll(e: Type, items: seq<Value>): seq<Value>
    decreases e, 1
  {
    seq(|items|, i requires 0 <= i < |items| => Narrow(e, items[i]))
  }

  /** A nullable scalar is wrapped as a struct's field, and nowhere else. */
  function NarrowField(a: Type, v: Value): Value
    decreases a, 1
  {
    if a.NullableScalar? && v.NullableScalar? then Value.NullableScalar(v.present, Narrow(a.inner, v.value))
    else Narrow(a, v)
  }

  // ---------------------------------------------------------------- layouts

  lemma {:induction false} CutAt(fields: seq<P.Field>, n: nat, v: nat)
    requires n <= |fields| && forall i :: n <= i < |fields| ==> v < fields[i].Version()
    ensures V.FieldsUpTo(fields, v) == V.FieldsUpTo(fields[..n], v)
  {
    if n < |fields| {
      var init := fields[..|fields| - 1];
      assert init[..n] == fields[..n];
      CutAt(init, n, v);
    } else {
      assert fields[..n] == fields;
    }
  }

  lemma {:induction false} TableRises(info: seq<(nat, nat)>, v: nat, w: nat)
    requires v <= w && P.MaxUpTo(info, v).Some?
    ensures P.MaxUpTo(info, w).Some? && P.MaxUpTo(info, v).value <= P.MaxUpTo(info, w).value
  {
    if |info| > 0 && P.MaxUpTo(info[1..], v).Some? { TableRises(info[1..], v, w); }
  }

  lemma InputPrefix(a: Type, b: Type)
    requires a.Struct? && Evolves(a, b)
    ensures b.Struct? && |a.fields| <= |b.fields|
    ensures PackInput(a.fields) == PackInput(b.fields)[..|a.fields|]
    ensures forall i :: |a.fields| <= i < |b.fields| ==> MaxVersion(a.fields) < PackInput(b.fields)[i].Version()
  {
    forall i | 0 <= i < |a.fields| ensures PackInput(a.fields)[i] == PackInput(b.fields)[i] {
      SameKind(a.fields[i].ty, b.fields[i].ty);
    }
    forall i | |a.fields| <= i < |b.fields| ensures MaxVersion(a.fields) < PackInput(b.fields)[i].Version() {
      LF.InputVersions(b.fields, i);
    }
  }

  lemma OwnVersions(fields: seq<FieldType>)
    ensures forall i :: 0 <= i < |fields| ==> PackInput(fields)[i].Version() <= MaxVersion(fields)
  {
    forall i | 0 <= i < |fields| ensures PackInput(fields)[i].Version() <= MaxVersion(fields) {
      LF.InputVersions(fields, i);
    }
  }

  /** The older struct's layout is the newer one's cut to its version, and its sizes are the newer
      table's, up to that version; from there on the newer one's are no smaller. */
  lemma OlderLayout(a: Type, b: Type)
    requires a.Struct? && Evolves(a, b) && StructLayout(b.fields).Ok?
    ensures StructLayout(a.fields).Ok?
    ensures StructLayout(a.fields).value.packedFields ==
      V.UpTo(StructLayout(b.fields).value.packedFields, MaxVersion(a.fields))
    ensures forall v: nat :: v <= MaxVersion(a.fields) ==>
      P.NumBytesForVersion(StructLayout(a.fields).value, v) == P.NumBytesForVersion(StructLayout(b.fields).value, v)
    ensures forall v: nat :: MaxVersion(a.fields) <= v ==>
      var n := P.NumBytesForVersion(StructLayout(b.fields).value, v);
      n.Some? && StructLayout(a.fields).value.size <= n.value
    ensures MaxVersion(a.fields) <= MaxVersion(b.fields) && |a.fields| <= |b.fields|
  {
    hide P.PackFields, P.MaxUpTo, PackInput, Evolves, MaxVersion;
    InputPrefix(a, b);
    var m, n, input := MaxVersion(a.fields), |a.fields|, PackInput(b.fields);
    OwnVersions(a.fields);
    CutAt(input, n, m);
    V.FieldsUpToAll(PackInput(a.fields), m);
    V.LayoutIsVersionStable(input, m);
    forall v: nat | v <= m
      ensures P.NumBytesForVersion(StructLayout(a.fields).value, v) ==
        P.NumBytesForVersion(StructLayout(b.fields).value, v)
    {
      CutAt(input, n, v);
      V.LayoutIsVersionStable(input, v);
      V.LayoutIsVersionStable(PackInput(a.fields), v);
    }
    forall v: nat | m <= v
      ensures var size := P.NumBytesForVersion(StructLayout(b.fields).value, v);
        size.Some? && StructLayout(a.fields).value.size <= size.value
    {
      TableRises(StructLayout(b.fields).value.versionInfo, m, v);
    }
    NewestRises(a, b);
  }

  lemma NewestRises(a: Type, b: Type)
    requires a.Struct? && Evolves(a, b)
    ensures MaxVersion(a.fields) <= MaxVersion(b.fields)
  {
    if |b.fields| > |a.fields| {
      assert MaxVersion(a.fields) < b.fields[|a.fields|].Version();
    } else {
      SameNewest(a.fields, b.fields);
    }
  }

  lemma {:induction false} SameNewest(x: seq<FieldType>, y: seq<FieldType>)
    requires |x| == |y| && forall i :: 0 <= i < |x| ==> x[i].minVersion == y[i].minVersion
    ensures MaxVersion(x) == MaxVersion(y)
  {
    if |x| > 0 { SameNewest(x[..|x| - 1], y[..|y| - 1]); }
  }

  // ---------------------------------------------------------------- what the older decoder makes of it

  /** The value, with a frontier no further than before. */
  ghost predicate Follows(r: Decoded, v: Value, g: nat) {
    r.Ok? && r.value.0 == v && r.value.1 <= g
  }

  ghost predicate AllFollow(r: DecodedList, items: seq<Value>, g: nat) {
    r.Ok? && r.value.0 == items && r.value.1 <= g
  }

  lemma {:induction false} EvolvedField(c: Ctx, f: nat, f': nat, d: nat, off: nat, bit: nat, a: Type, b: Type, v: Value,
      g: nat)
    requires Evolves(a, b) && f' <= f && bit < 8 && DecodeField(c, f, d, off, bit, b) == Ok((v, g))
    ensures Follows(DecodeField(c, f', d, off, bit, a), Narrow(a, v), g)
    decreases a, 4
  {
    hide DecodeInPlace, DecodeObject;
    SameKind(a, b);
    if a.IsInPlace() {
      InPlaceNarrow(a, v);
    } else if a.NullableScalar? {
      EvolvedField(c, f, f', d, off, bit, a.inner, b.inner, v, g);
    } else {
      EvolvedObject(c, f, f', d, off, a, b, v, g);
    }
  }

  lemma InPlaceNarrow(a: Type, v: Value)
    requires a.IsInPlace()
    ensures Narrow(a, v) == v
  {
  }

  lemma NullNarrow(a: Type)
    ensures Narrow(a, Value.Null) == Value.Null
  {
    if a.NullableScalar? { NullNarrow(a.inner); }
  }

  lemma {:induction false} EvolvedObject(c: Ctx, f: nat, f': nat, d: nat, off: nat, a: Type, b: Type, v: Value, g: nat)
    requires Evolves(a, b) && f' <= f && !a.IsInPlace() && !a.NullableScalar? && !b.IsInPlace() && !b.NullableScalar?
    requires DecodeObject(c, f, d, off, b) == Ok((v, g))
    ensures Follows(DecodeObject(c, f', d, off, a), Narrow(a, v), g)
    decreases a, 3
  {
    hide DecodeStringAt, DecodeArray, DecodeMap, DecodeStruct, DecodeUnion, ReadPointer;
    NullNarrow(a);
    match a
    case String(nullable) => EvolvedString(c, f, f', off, nullable, v, g);
    case Array(_, _) => EvolvedArray(c, f, f', d, off, a, b, v, g);
    case Map(_, _, _) => EvolvedMap(c, f, f', d, off, a, b, v, g);
    case Struct(_, _, nullable) =>
      if nullable {
        EvolvedStructPointer(c, f, f', d, off, a, b, true, v, g);
      } else {
        EvolvedStruct(c, f, f', d, off, a, b, false, v, g);
      }
    case Union(_, _, inlined) =>
      if inlined {
        EvolvedUnion(c, f, f', d, off, a, b, false, v, g);
      } else if ReadPointer(c, off).value.Offset? {
        EvolvedUnion(c, f, f', d, ReadPointer(c, off).value.target, a, b, true, v, g);
      }
  }

  lemma EvolvedString(c: Ctx, f: nat, f': nat, off: nat, nullable: bool, v: Value, g: nat)
    requires f' <= f && DecodeString(c, f, off, nullable) == Ok((v, g))
    ensures Follows(DecodeString(c, f', off, nullable), v, g) && !v.Struct? && !v.Array? && !v.Map? && !v.Union?
  {
    hide ReadPointer, DecodeStringAt;
    var ptr := ReadPointer(c, off).value;
    if ptr.Offset? { EvolvedStringAt(c, f, f', ptr.target, v, g); }
  }

  lemma EvolvedStringAt(c: Ctx, f: nat, f': nat, t: nat, v: Value, g: nat)
    requires f' <= f && DecodeStringAt(c, f, t) == Ok((v, g))
    ensures Follows(DecodeStringAt(c, f', t), v, g) && v.String?
  {
    hide ReadLE, ValidUtf8;
  }

  lemma {:induction false} EvolvedUnion(c: Ctx, f: nat, f': nat, d: nat, off: nat, a: Type, b: Type, claim: bool,
      v: Value, g: nat)
    requires a.Union? && b.Union? && Evolves(a, b) && f' <= f && DecodeUnion(c, f, d, off, b, claim) == Ok((v, g))
    ensures Follows(DecodeUnion(c, f', d, off, a, claim), Narrow(a, v), g)
    decreases a, 2
  {
    hide ReadLE, DecodeUnionPayload;
    var tag := ReadLE(c, off + 4, 4).value;
    var f1, f1' := if claim then off + 16 else f, if claim then off + 16 else f';
    var (w, g1) := DecodeUnionPayload(c, f1, d, off + 8, b.members[tag]).value;
    EvolvedPayload(c, f1, f1', d, off + 8, a.members[tag], b.members[tag], w, g1);
  }

  lemma {:induction false} EvolvedPayload(c: Ctx, f: nat, f': nat, d: nat, off: nat, a: Type, b: Type, v: Value, g: nat)
    requires Evolves(a, b) && f' <= f && DecodeUnionPayload(c, f, d, off, b) == Ok((v, g))
    ensures Follows(DecodeUnionPayload(c, f', d, off, a), Narrow(a, v), g)
    decreases a, 5
  {
    hide DecodeString, DecodeArray, DecodeMap, DecodeStructPointer, DecodeField;
    match a
    case Struct(_, _, nullable) => EvolvedStructPointer(c, f, f', d, off, a, b, nullable, v, g);
    case String(nullable) => EvolvedString(c, f, f', off, nullable, v, g);
    case Array(_, _) => EvolvedArray(c, f, f', d, off, a, b, v, g);
    case Map(_, _, _) => EvolvedMap(c, f, f', d, off, a, b, v, g);
    case _ => EvolvedField(c, f, f', d, off, 0, a, b, v, g);
  }

  lemma {:induction false} EvolvedArray(c: Ctx, f: nat, f': nat, d: nat, off: nat, a: Type, b: Type, v: Value, g: nat)
    requires a.Array? && b.Array? && Evolves(a, b) && f' <= f && DecodeArray(c, f, d, off, b) == Ok((v, g))
    ensures Follows(DecodeArray(c, f', d, off, a), Narrow(a, v), g)
    decreases a, 2
  {
    hide ReadPointer, DecodeArrayBody;
    var ptr := ReadPointer(c, off).value;
    if ptr.Offset? {
      var (items, g1) := DecodeArrayBody(c, f, d + 1, ptr.target, b.element).value;
      EvolvedBody(c, f, f', d + 1, ptr.target, a.element, b.element, items, g1);
    }
  }

  lemma {:induction false} EvolvedBody(c: Ctx, f: nat, f': nat, d: nat, t: nat, a: Type, b: Type, items: seq<Value>,
      g: nat)
    requires Evolves(a, b) && f' <= f && DecodeArrayBody(c, f, d, t, b) == Ok((items, g))
    ensures AllFollow(DecodeArrayBody(c, f', d, t, a), NarrowAll(a, items), g)
    decreases a, 7
  {
    hide ReadLE, DecodeItems, Type.ElementSize;
    SameSize(a, b);
    var numBytes, n := ReadLE(c, t, 4).value, ReadLE(c, t + 4, 4).value;
    EvolvedItems(c, t + numBytes, t + numBytes, d, t + 8, a, b, n, items, g);
  }

  lemma SameSize(a: Type, b: Type)
    requires Evolves(a, b)
    ensures a.ElementSize() == b.ElementSize()
  {
    SameKind(a, b);
  }

  lemma {:induction false} EvolvedItems(c: Ctx, f: nat, f': nat, d: nat, off: nat, a: Type, b: Type, n: nat,
      items: seq<Value>, g: nat)
    requires Evolves(a, b) && f' <= f && DecodeItems(c, f, d, off, b, n) == Ok((items, g))
    ensures AllFollow(DecodeItems(c, f', d, off, a, n), NarrowAll(a, items), g)
    decreases a, 6, n
  {
    hide DecodeItem, Narrow, NarrowAll, Type.ElementSize, Evolves;
    SameSize(a, b);
    NarrowNone(a);
    if n > 0 {
      var (v, f1) := DecodeItem(c, f, d, off, b).value;
      EvolvedItem(c, f, f', d, off, a, b, v, f1);
      var f1' := DecodeItem(c, f', d, off, a).value.1;
      var (rest, f2) := DecodeItems(c, f1, d, off + b.ElementSize(), b, n - 1).value;
      EvolvedItems(c, f1, f1', d, off + b.ElementSize(), a, b, n - 1, rest, f2);
      NarrowMore(a, v, rest);
    }
  }

  lemma NarrowNone(a: Type)
    ensures NarrowAll(a, []) == []
  {
  }

  lemma NarrowMore(a: Type, v: Value, rest: seq<Value>)
    ensures NarrowAll(a, [v] + rest) == [Narrow(a, v)] + NarrowAll(a, rest)
  {
    hide Narrow;
  }

  lemma {:induction false} EvolvedItem(c: Ctx, f: nat, f': nat, d: nat, off: nat, a: Type, b: Type, v: Value, g: nat)
    requires Evolves(a, b) && f' <= f && DecodeItem(c, f, d, off, b) == Ok((v, g))
    ensures Follows(DecodeItem(c, f', d, off, a), Narrow(a, v), g)
    decreases a, 5, 1
  {
    hide DecodeField, DecodeElement, ReadPointer;
    SameKind(a, b);
    NullNarrow(a);
    if a.IsPod() {
      EvolvedField(c, f, f', d, off, 0, a, b, v, g);
    } else if ReadPointer(c, off).value.Offset? {
      EvolvedElement(c, f, f', d, ReadPointer(c, off).value.target, a, b, v, g);
    }
  }

  lemma {:induction false} EvolvedElement(c: Ctx, f: nat, f': nat, d: nat, t: nat, a: Type, b: Type, v: Value, g: nat)
    requires Evolves(a, b) && f' <= f && DecodeElement(c, f, d, t, b) == Ok((v, g))
    ensures Follows(DecodeElement(c, f', d, t, a), Narrow(a, v), g)
    decreases a, 5, 0
  {
    hide DecodeStruct, DecodeStringAt, DecodeMapAt, DecodeArrayBody;
    match a
    case Struct(_, _, _) => EvolvedStruct(c, f, f', d, t, a, b, true, v, g);
    case String(_) => EvolvedStringAt(c, f, f', t, v, g);
    case Map(_, _, _) => EvolvedMapAt(c, f, f', d, t, a, b, v, g);
    case Array(_, _) =>
      var (items, g1) := DecodeArrayBody(c, f, d, t, b.element).value;
      EvolvedBody(c, f, f', d, t, a.element, b.element, items, g1);
    case _ =>
  }

  lemma {:induction false} EvolvedMap(c: Ctx, f: nat, f': nat, d: nat, off: nat, a: Type, b: Type, v: Value, g: nat)
    requires a.Map? && b.Map? && Evolves(a, b) && f' <= f && DecodeMap(c, f, d, off, b) == Ok((v, g))
    ensures Follows(DecodeMap(c, f', d, off, a), Narrow(a, v), g)
    decreases a, 2
  {
    hide ReadPointer, DecodeMapAt;
    var ptr := ReadPointer(c, off).value;
    if ptr.Offset? { EvolvedMapAt(c, f, f', d, ptr.target, a, b, v, g); }
  }

  lemma {:induction false} EvolvedMapAt(c: Ctx, f: nat, f': nat, d: nat, t: nat, a: Type, b: Type, v: Value, g: nat)
    requires a.Map? && b.Map? && Evolves(a, b) && f' <= f && DecodeMapAt(c, f, d, t, b) == Ok((v, g))
    ensures Follows(DecodeMapAt(c, f', d, t, a), Narrow(a, v), g)
    decreases a, 1
  {
    hide ReadLE, ReadPointer, DecodeArrayBody;
    var f1 := t + ReadLE(c, t, 4).value;
    var kp, vp := ReadPointer(c, t + 8).value, ReadPointer(c, t + 16).value;
    var (keys, f2) := DecodeArrayBody(c, f1, d + 1, kp.target, b.key).value;
    EvolvedBody(c, f1, f1, d + 1, kp.target, a.key, b.key, keys, f2);
    var f2' := DecodeArrayBody(c, f1, d + 1, kp.target, a.key).value.1;
    var (values, f3) := DecodeArrayBody(c, f2, d + 1, vp.target, b.value).value;
    EvolvedBody(c, f2, f2', d + 1, vp.target, a.value, b.value, values, f3);
  }

  lemma {:induction false} EvolvedStructPointer(c: Ctx, f: nat, f': nat, d: nat, off: nat, a: Type, b: Type,
      nullable: bool, v: Value, g: nat)
    requires a.Struct? && b.Struct? && Evolves(a, b) && f' <= f
    requires DecodeStructPointer(c, f, d, off, b, nullable) == Ok((v, g))
    ensures Follows(DecodeStructPointer(c, f', d, off, a, nullable), Narrow(a, v), g)
    decreases a, 2
  {
    hide ReadPointer, DecodeStruct;
    var ptr := ReadPointer(c, off).value;
    if ptr.Offset? { EvolvedStruct(c, f, f', d, ptr.target, a, b, true, v, g); }
  }

  // ---------------------------------------------------------------- structs

  /** A header the newer struct accepts the older one accepts, with the same numbers. */
  lemma EvolvedHeader(c: Ctx, f: nat, f': nat, off: nat, a: Type, b: Type, claim: bool)
    requires a.Struct? && b.Struct? && Evolves(a, b) && f' <= f
    requires DecodeStructHeader(c, f, off, b.fields, claim).Ok?
    ensures var h, h' := DecodeStructHeader(c, f, off, b.fields, claim).value,
        DecodeStructHeader(c, f', off, a.fields, claim);
      h'.Ok? && h'.value.0 == h.0 && h'.value.1 == h.1 && h'.value.2 <= h.2
    ensures StructLayout(a.fields).Ok? && StructLayout(b.fields).Ok?
  {
    hide ReadLE, StructLayout, MaxVersion, P.NumBytesForVersion, Evolves;
    OlderLayout(a, b);
    var version := ReadLE(c, off + 4, 4).value;
    if MaxVersion(b.fields) <= version { LF.CurrentSize(b.fields, version); }
  }

  /** What the walks over the two structs' fields have filled in agrees on the older one's. */
  ghost predicate Agreeing(a: Type, b: Type, x': Filled, x: Filled)
    requires a.Struct? && b.Struct? && |a.fields| <= |b.fields|
  {
    && |x'.scalars| == |x'.presence| == |a.fields| && |x.scalars| == |x.presence| == |b.fields|
    && forall i :: 0 <= i < |a.fields| ==>
        x'.presence[i] == x.presence[i] && x'.scalars[i] == Narrow(a.fields[i].ty, x.scalars[i])
  }

  lemma {:induction false} DefaultNarrow(a: Type, b: Type)
    requires Evolves(a, b)
    ensures DefaultValue(a) == DefaultValue(b) == Narrow(a, DefaultValue(b))
  {
    ShapelessNarrow(a, DefaultValue(b));
  }

  lemma {:induction false} ShapelessNarrow(a: Type, v: Value)
    requires !v.Array? && !v.Map? && !v.Struct? && !v.Union?
    ensures Narrow(a, v) == v
  {
    if a.NullableScalar? { ShapelessNarrow(a.inner, v); }
  }

  lemma StartAgreeing(a: Type, b: Type)
    requires a.Struct? && b.Struct? && Evolves(a, b)
    ensures Agreeing(a, b, Filled(Defaults(a.fields), seq(|a.fields|, _ => false)),
      Filled(Defaults(b.fields), seq(|b.fields|, _ => false)))
  {
    hide DefaultValue, Narrow;
    forall i | 0 <= i < |a.fields|
      ensures Defaults(a.fields)[i] == Narrow(a.fields[i].ty, Defaults(b.fields)[i])
    {
      DefaultNarrow(a.fields[i].ty, b.fields[i].ty);
    }
  }

  lemma AssembleNarrow(a: Type, b: Type, x': Filled, x: Filled)
    requires a.Struct? && b.Struct? && Evolves(a, b) && Agreeing(a, b, x', x)
    ensures forall i :: 0 <= i < |a.fields| ==>
      Assemble(a.fields, x')[i] == NarrowField(a.fields[i].ty, Assemble(b.fields, x)[i])
  {
    hide Narrow;
    forall i | 0 <= i < |a.fields|
      ensures Assemble(a.fields, x')[i] == NarrowField(a.fields[i].ty, Assemble(b.fields, x)[i])
    {
      SameKind(a.fields[i].ty, b.fields[i].ty);
      WrapNarrow(a.fields[i].ty, x.presence[i], x.scalars[i]);
    }
  }

  lemma WrapNarrow(a: Type, present: bool, v: Value)
    ensures a.NullableScalar? ==>
      NarrowField(a, Value.NullableScalar(present, if present then v else Value.Null)) ==
        Value.NullableScalar(present, if present then Narrow(a, v) else Value.Null)
    ensures !a.NullableScalar? ==> NarrowField(a, v) == Narrow(a, v)
  {
    NullNarrow(a);
  }

  lemma {:induction false} EvolvedStruct(c: Ctx, f: nat, f': nat, d: nat, off: nat, a: Type, b: Type, claim: bool,
      v: Value, g: nat)
    requires a.Struct? && b.Struct? && Evolves(a, b) && f' <= f && DecodeStruct(c, f, d, off, b, claim) == Ok((v, g))
    ensures Follows(DecodeStruct(c, f', d, off, a, claim), Narrow(a, v), g)
    decreases a, 1
  {
    hide StructLayout, DecodeStructHeader, DecodeFields, Evolves, Assemble, Defaults, NarrowField;
    EvolvedHeader(c, f, f', off, a, b, claim);
    var (numBytes, version, f1) := DecodeStructHeader(c, f, off, b.fields, claim).value;
    var f1' := DecodeStructHeader(c, f', off, a.fields, claim).value.2;
    StartAgreeing(a, b);
    OlderLayout(a, b);
    var start, start' := Filled(Defaults(b.fields), seq(|b.fields|, _ => false)),
      Filled(Defaults(a.fields), seq(|a.fields|, _ => false));
    var (x, g1) := DecodeFields(c, f1, d + 1, off, b, numBytes, version, 0, start).value;
    EvolvedFields(c, f1, f1', d + 1, off, a, b, numBytes, version, 0, 0, start, start', x, g1);
    var x' := DecodeFields(c, f1', d + 1, off, a, numBytes, version, 0, start').value.0;
    AssembleNarrow(a, b, x', x);
    StructNarrow(a, b, version, Assemble(a.fields, x'), Assemble(b.fields, x));
  }

  lemma StructNarrow(a: Type, b: Type, version: nat, vals': seq<Value>, vals: seq<Value>)
    requires a.Struct? && b.Struct? && |vals'| == |a.fields| <= |b.fields| == |vals|
    requires forall i :: 0 <= i < |a.fields| ==> vals'[i] == NarrowField(a.fields[i].ty, vals[i])
    ensures Narrow(a, Value.Struct(version, vals)) == Value.Struct(version, vals')
  {
  }

  /** From packed field `k` of the newer struct on, which is `j` of the older. */
  lemma {:induction false} EvolvedFields(c: Ctx, f: nat, f': nat, d: nat, off: nat, a: Type, b: Type, numBytes: nat,
      version: nat, j: nat, k: nat, x: Filled, x': Filled, y: Filled, g: nat)
    requires a.Struct? && b.Struct? && Evolves(a, b) && f' <= f && StructLayout(a.fields).Ok?
    requires StructLayout(b.fields).Ok?
    requires var older, newer := StructLayout(a.fields).value.packedFields, StructLayout(b.fields).value.packedFields;
      j <= |older| && k <= |newer| && older[j..] == V.UpTo(newer[k..], MaxVersion(a.fields))
    requires Agreeing(a, b, x', x)
    requires DecodeFields(c, f, d, off, b, numBytes, version, k, x) == Ok((y, g))
    ensures var r := DecodeFields(c, f', d, off, a, numBytes, version, j, x');
      r.Ok? && Agreeing(a, b, r.value.0, y) && r.value.1 <= g
    decreases a, 0, |StructLayout(b.fields).value.packedFields| - k
  {
    hide StructLayout, DecodePacked, Evolves, Agreeing, Narrow;
    var older, newer, m := StructLayout(a.fields).value.packedFields, StructLayout(b.fields).value.packedFields,
      MaxVersion(a.fields);
    OlderLayout(a, b);
    AgreeingLengths(a, b, x', x);
    if k == |newer| {
      assert older[j..] == [];
    } else {
      var (x1, f1) := DecodePacked(c, f, d, off, b, numBytes, version, k, x).value;
      assert newer[k..][1..] == newer[k + 1..] && newer[k..][0] == newer[k];
      if newer[k].src.minVersion <= m {
        assert older[j..][0] == older[j] == newer[k] && older[j..][1..] == older[j + 1..];
        EvolvedPacked(c, f, f', d, off, a, b, numBytes, version, j, k, x, x', x1, f1);
        var (x1', f1') := DecodePacked(c, f', d, off, a, numBytes, version, j, x').value;
        EvolvedFields(c, f1, f1', d, off, a, b, numBytes, version, j + 1, k + 1, x1, x1', y, g);
      } else {
        DB.PayPacked(c, f, d, off, b, numBytes, version, k, x, x1, f1);
        NewerPacked(c, f, d, off, a, b, numBytes, version, k, x, x', x1, f1);
        EvolvedFields(c, f1, f', d, off, a, b, numBytes, version, j, k + 1, x1, x', y, g);
      }
    }
  }

  lemma AgreeingLengths(a: Type, b: Type, x': Filled, x: Filled)
    requires a.Struct? && b.Struct? && |a.fields| <= |b.fields| && Agreeing(a, b, x', x)
    ensures |x'.scalars| == |x'.presence| == |a.fields| && |x.scalars| == |x.presence| == |b.fields|
  {
  }

  /** A newer field fills in nothing of the older struct's. */
  lemma NewerPacked(c: Ctx, f: nat, d: nat, off: nat, a: Type, b: Type, numBytes: nat, version: nat, k: nat, x: Filled,
      x': Filled, x1: Filled, f1: nat)
    requires a.Struct? && b.Struct? && Evolves(a, b) && StructLayout(b.fields).Ok?
    requires k < |StructLayout(b.fields).value.packedFields| && Agreeing(a, b, x', x)
    requires StructLayout(b.fields).value.packedFields[k].src.minVersion > MaxVersion(a.fields)
    requires DecodePacked(c, f, d, off, b, numBytes, version, k, x) == Ok((x1, f1))
    ensures Agreeing(a, b, x', x1)
  {
    hide StructLayout, DecodeField, ReadByte, Narrow;
    LF.PackedStands(b.fields, k);
    var i := StructLayout(b.fields).value.packedFields[k].src.field.index;
    NewerIsBehind(a, b, i);
  }

  lemma NewerIsBehind(a: Type, b: Type, i: nat)
    requires a.Struct? && b.Struct? && Evolves(a, b) && i < |b.fields| && MaxVersion(a.fields) < b.fields[i].Version()
    ensures |a.fields| <= i
  {
  }

  /** A field of both is read alike. */
  lemma {:induction false} EvolvedPacked(c: Ctx, f: nat, f': nat, d: nat, off: nat, a: Type, b: Type, numBytes: nat,
      version: nat, j: nat, k: nat, x: Filled, x': Filled, x1: Filled, f1: nat)
    requires a.Struct? && b.Struct? && Evolves(a, b) && f' <= f && StructLayout(a.fields).Ok?
    requires StructLayout(b.fields).Ok?
    requires j < |StructLayout(a.fields).value.packedFields| && k < |StructLayout(b.fields).value.packedFields|
    requires StructLayout(a.fields).value.packedFields[j] == StructLayout(b.fields).value.packedFields[k]
    requires Agreeing(a, b, x', x) && DecodePacked(c, f, d, off, b, numBytes, version, k, x) == Ok((x1, f1))
    ensures var r := DecodePacked(c, f', d, off, a, numBytes, version, j, x');
      r.Ok? && Agreeing(a, b, r.value.0, x1) && r.value.1 <= f1
    decreases a, 0, 0
  {
    hide StructLayout, DecodeField, ReadByte, Narrow;
    LF.PackedStands(a.fields, j);
    LF.PackedStands(b.fields, k);
    var p := StructLayout(a.fields).value.packedFields[j];
    var i, at, scalar := p.src.field.index, off + 8 + p.offset, p.src.field.nullableValueKind;
    var at', bt := a.fields[i].ty, b.fields[i].ty;
    SameKind(at', bt);
    if p.src.minVersion > version || 8 + p.offset + p.Size() > numBytes || (scalar && p.src.field.kind.Bool?) {
    } else if scalar {
      var (v, g) := DecodeField(c, f, d, at, 0, bt.inner).value;
      EvolvedField(c, f, f', d, at, 0, at'.inner, bt.inner, v, g);
      ScalarNarrow(at', v);
    } else {
      var (v, g) := DecodeField(c, f, d, at, p.bit, bt).value;
      EvolvedField(c, f, f', d, at, p.bit, at', bt, v, g);
    }
  }

  lemma ScalarNarrow(a: Type, v: Value)
    requires a.NullableScalar?
    ensures Narrow(a, v) == Narrow(a.inner, v)
  {
  }
}
