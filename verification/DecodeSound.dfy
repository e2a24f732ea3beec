/** What the decoder returns, on any bytes whatsoever, conforms to the schema, and the
    frontier only moves forward and never past the message. */
module DecodeSound {
  import opened Results
  import opened Bytes
  import opened Schema
  import opened Decode
  import P = Pack
  import LF = LayoutFacts

  /** Frontiers move forward and stay inside the message. */
  ghost predicate Moves(c: Ctx, f: nat, f': nat) {
    f <= f' && (f <= |c.bytes| ==> f' <= |c.bytes|)
  }

  ghost predicate ElementsConform(ty: Type, items: seq<Value>, hc: nat, room: nat) {
    forall i :: 0 <= i < |items| ==> ElementConforms(ty, items[i], hc, room, false)
  }

  lemma ClaimMoves(c: Ctx, f: nat, start: nat, len: nat)
    requires Claim(c, f, start, len).Ok?
    ensures Moves(c, f, Claim(c, f, start, len).value)
  {
  }

  lemma ReadBounded(c: Ctx, off: nat, k: nat)
    requires ReadLE(c, off, k).Ok?
    ensures ReadLE(c, off, k).value < Pow256(k)
    ensures k == 4 ==> ReadLE(c, off, k).value < TWO_32
  {
    FromLEBound(c.bytes[off..off + k]);
    Pow256Values();
  }

  lemma FromUnsignedInRange(k: NumKind, u: nat)
    requires u < Pow256(k.Width())
    ensures k.InRange(k.FromUnsigned(u))
  {
  }

  lemma SoundInPlace(c: Ctx, off: nat, bit: nat, ty: Type, v: Value, room: nat)
    requires bit < 8 && ty.IsInPlace() && SchemaOk(ty) && DecodeInPlace(c, off, bit, ty) == Ok(v)
    ensures Conforms(ty, v, c.handleCount, room, false)
  {
    hide ReadLE, Bit, Pow256;
    match ty
    case Bool =>
    case Num(k) => ReadBounded(c, off, k.Width()); FromUnsignedInRange(k, ReadLE(c, off, k.Width()).value);
    case Enum => ReadBounded(c, off, 4);
    case Handle => ReadBounded(c, off, 4);
    case Interface(_) => ReadBounded(c, off, 4); ReadBounded(c, off + 4, 4);
    case AssociatedEndpoint => ReadBounded(c, off, 4);
    case AssociatedInterface(_) => ReadBounded(c, off, 4); ReadBounded(c, off + 4, 4);
  }

  lemma {:induction false} SoundField(c: Ctx, f: nat, d: nat, off: nat, bit: nat, ty: Type, v: Value, f': nat)
    requires bit < 8 && SchemaOk(ty) && d <= c.maxDepth
    requires DecodeField(c, f, d, off, bit, ty) == Ok((v, f'))
    ensures BareConforms(ty, v, c.handleCount, c.maxDepth - d, false) && Moves(c, f, f')
    decreases ty, 4, 0
  {
    hide SchemaOk, Conforms, DecodeInPlace, DecodeObject;
    if ty.IsInPlace() {
      SoundInPlace(c, off, bit, ty, v, c.maxDepth - d);
    } else if ty.NullableScalar? {
      InnerOk(ty);
      SoundField(c, f, d, off, bit, ty.inner, v, f');
    } else {
      SoundObject(c, f, d, off, ty, v, f');
    }
  }

  lemma InnerOk(ty: Type)
    requires ty.NullableScalar? && SchemaOk(ty)
    ensures SchemaOk(ty.inner)
  {
  }

  lemma NullConforms(ty: Type, hc: nat, room: nat)
    requires ty.IsNullable() && !ty.NullableScalar? && !(ty.Union? && ty.inlined)
    ensures Conforms(ty, Value.Null, hc, room, false)
  {
  }

  lemma {:induction false} SoundObject(c: Ctx, f: nat, d: nat, off: nat, ty: Type, v: Value, f': nat)
    requires !ty.IsInPlace() && !ty.NullableScalar? && SchemaOk(ty) && d <= c.maxDepth
    requires DecodeObject(c, f, d, off, ty) == Ok((v, f'))
    ensures Conforms(ty, v, c.handleCount, c.maxDepth - d, false) && Moves(c, f, f')
    decreases ty, 3, 1
  {
    hide SchemaOk, Conforms, DecodeString, DecodeArray, DecodeMap, DecodeStructPointer, DecodeStruct, DecodeUnion,
      ReadPointer;
    match ty
    case String(nullable) => SoundString(c, f, off, nullable, v, f', c.maxDepth - d);
    case Array(_, _) => SoundArray(c, f, d, off, ty, v, f');
    case Map(_, _, _) => SoundMap(c, f, d, off, ty, v, f');
    case Struct(_, _, nullable) =>
      if nullable {
        SoundStructPointer(c, f, d, off, ty, true, v, f');
      } else {
        SoundStruct(c, f, d, off, ty, false, v, f');
      }
    case Union(_, nullable, inlined) =>
      if inlined {
        SoundUnion(c, f, d, off, ty, false, v, f');
      } else {
        var ptr := ReadPointer(c, off).value;
        if ptr.NullPointer? {
          NullConforms(ty, c.handleCount, c.maxDepth - d);
        } else {
          SoundUnion(c, f, d, ptr.target, ty, true, v, f');
        }
      }
  }

  // ---------------------------------------------------------------- unions and strings

  lemma UnionConforms(ty: Type, tag: nat, w: Value, hc: nat, room: nat)
    requires ty.Union? && tag < |ty.members| && tag < TWO_32 && BareConforms(ty.members[tag], w, hc, room, false)
    ensures Conforms(ty, Value.Union(tag, w), hc, room, false)
  {
  }

  lemma MembersOk(ty: Type, tag: nat)
    requires ty.Union? && SchemaOk(ty) && tag < |ty.members|
    ensures SchemaOk(ty.members[tag])
  {
  }

  lemma {:induction false} SoundUnion(c: Ctx, f: nat, d: nat, off: nat, ty: Type, claim: bool, v: Value, f': nat)
    requires ty.Union? && SchemaOk(ty) && d <= c.maxDepth
    requires DecodeUnion(c, f, d, off, ty, claim) == Ok((v, f'))
    ensures Conforms(ty, v, c.handleCount, c.maxDepth - d, false) && Moves(c, f, f')
    decreases ty, 2, 0
  {
    hide SchemaOk, Conforms, BareConforms, ReadLE, Claim, DecodeUnionPayload;
    var tag := ReadLE(c, off + 4, 4).value;
    ReadBounded(c, off + 4, 4);
    MembersOk(ty, tag);
    if claim { ClaimMoves(c, f, off, 16); }
    var f1 := if claim then Claim(c, f, off, 16).value else f;
    var (w, f2) := DecodeUnionPayload(c, f1, d, off + 8, ty.members[tag]).value;
    SoundPayload(c, f1, d, off + 8, ty.members[tag], w, f2);
    UnionConforms(ty, tag, w, c.handleCount, c.maxDepth - d);
  }

  lemma {:induction false} SoundPayload(c: Ctx, f: nat, d: nat, off: nat, ty: Type, v: Value, f': nat)
    requires SchemaOk(ty) && d <= c.maxDepth
    requires DecodeUnionPayload(c, f, d, off, ty) == Ok((v, f'))
    ensures BareConforms(ty, v, c.handleCount, c.maxDepth - d, false) && Moves(c, f, f')
    decreases ty, 5, 0
  {
    hide SchemaOk, Conforms, DecodeStructPointer, DecodeString, DecodeArray, DecodeMap, DecodeField;
    match ty
    case Struct(_, _, nullable) => SoundStructPointer(c, f, d, off, ty, nullable, v, f');
    case String(nullable) => SoundString(c, f, off, nullable, v, f', c.maxDepth - d);
    case Array(_, _) => SoundArray(c, f, d, off, ty, v, f');
    case Map(_, _, _) => SoundMap(c, f, d, off, ty, v, f');
    case _ => SoundField(c, f, d, off, 0, ty, v, f');
  }

  lemma SoundStringAt(c: Ctx, f: nat, t: nat, nullable: bool, v: Value, f': nat, room: nat)
    requires DecodeStringAt(c, f, t) == Ok((v, f'))
    ensures Conforms(Type.String(nullable), v, c.handleCount, room, false) && Moves(c, f, f') && v.String?
  {
    hide ReadLE, ReadByte, ValidUtf8;
  }

  lemma SoundString(c: Ctx, f: nat, off: nat, nullable: bool, v: Value, f': nat, room: nat)
    requires DecodeString(c, f, off, nullable) == Ok((v, f'))
    ensures Conforms(Type.String(nullable), v, c.handleCount, room, false) && Moves(c, f, f')
  {
    hide DecodeStringAt, ReadPointer, Conforms;
    var ptr := ReadPointer(c, off).value;
    if ptr.NullPointer? {
      NullConforms(Type.String(nullable), c.handleCount, room);
    } else {
      SoundStringAt(c, f, ptr.target, nullable, v, f', room);
    }
  }

  // ---------------------------------------------------------------- arrays and maps

  lemma ArrayConforms(ty: Type, items: seq<Value>, hc: nat, room: nat)
    requires ty.Array? && room >= 1 && ElementsConform(ty.element, items, hc, room - 1)
    ensures Conforms(ty, Value.Array(items), hc, room, false)
  {
  }

  lemma ElementTypesOk(ty: Type)
    requires SchemaOk(ty)
    ensures ty.Array? ==> SchemaOk(ty.element)
    ensures ty.Map? ==> SchemaOk(ty.key) && SchemaOk(ty.value)
  {
  }

  lemma {:induction false} SoundArray(c: Ctx, f: nat, d: nat, off: nat, ty: Type, v: Value, f': nat)
    requires ty.Array? && SchemaOk(ty) && d <= c.maxDepth && DecodeArray(c, f, d, off, ty) == Ok((v, f'))
    ensures Conforms(ty, v, c.handleCount, c.maxDepth - d, false) && Moves(c, f, f')
    decreases ty, 3, 0
  {
    hide SchemaOk, Conforms, DecodeArrayBody, ReadPointer, ElementsConform;
    ElementTypesOk(ty);
    var ptr := ReadPointer(c, off).value;
    if ptr.NullPointer? {
      NullConforms(ty, c.handleCount, c.maxDepth - d);
    } else {
      var (items, f1) := DecodeArrayBody(c, f, d + 1, ptr.target, ty.element).value;
      SoundBody(c, f, d + 1, ptr.target, ty.element, items, f1);
      ArrayConforms(ty, items, c.handleCount, c.maxDepth - d);
    }
  }

  lemma {:induction false} SoundBody(c: Ctx, f: nat, d: nat, t: nat, element: Type, items: seq<Value>, f': nat)
    requires SchemaOk(element) && d <= c.maxDepth
    requires DecodeArrayBody(c, f, d, t, element) == Ok((items, f'))
    ensures ElementsConform(element, items, c.handleCount, c.maxDepth - d) && Moves(c, f, f')
    decreases element, 7, 0
  {
    hide SchemaOk, ReadLE, Claim, DecodeItems, ElementsConform;
    var numBytes, n := ReadLE(c, t, 4).value, ReadLE(c, t + 4, 4).value;
    ClaimMoves(c, f, t, numBytes);
    SoundItems(c, Claim(c, f, t, numBytes).value, d, t + 8, element, n, items, f');
  }

  lemma ElementsPrepend(ty: Type, v: Value, rest: seq<Value>, hc: nat, room: nat)
    requires ElementConforms(ty, v, hc, room, false) && ElementsConform(ty, rest, hc, room)
    ensures ElementsConform(ty, [v] + rest, hc, room)
  {
  }

  lemma {:induction false} SoundItems(c: Ctx, f: nat, d: nat, off: nat, element: Type, n: nat, items: seq<Value>,
      f': nat)
    requires SchemaOk(element) && d <= c.maxDepth
    requires DecodeItems(c, f, d, off, element, n) == Ok((items, f'))
    ensures ElementsConform(element, items, c.handleCount, c.maxDepth - d) && Moves(c, f, f')
    decreases element, 6, n
  {
    hide SchemaOk, DecodeItem, ElementConforms;
    if n > 0 {
      var (v, f1) := DecodeItem(c, f, d, off, element).value;
      var (rest, f2) := DecodeItems(c, f1, d, off + element.ElementSize(), element, n - 1).value;
      SoundItem(c, f, d, off, element, v, f1);
      SoundItems(c, f1, d, off + element.ElementSize(), element, n - 1, rest, f2);
      ElementsPrepend(element, v, rest, c.handleCount, c.maxDepth - d);
    }
  }

  lemma ElementFromConforms(ty: Type, v: Value, hc: nat, room: nat)
    requires Conforms(ty, v, hc, room, false) && (ty.Array? ==> !v.Array?) && ElementOk(ty) && (v.Null? ==> ty.IsPod())
    ensures ElementConforms(ty, v, hc, room, false)
  {
  }

  lemma NullElement(ty: Type, hc: nat, room: nat)
    requires ty.IsNullable() && !ty.IsPod()
    ensures ElementConforms(ty, Value.Null, hc, room, false)
  {
  }

  lemma NestedConforms(ty: Type, items: seq<Value>, hc: nat, room: nat)
    requires ty.Array? && ElementsConform(ty.element, items, hc, room)
    ensures ElementConforms(ty, Value.Array(items), hc, room, false)
  {
  }

  lemma {:induction false} SoundItem(c: Ctx, f: nat, d: nat, off: nat, element: Type, v: Value, f': nat)
    requires SchemaOk(element) && d <= c.maxDepth
    requires DecodeItem(c, f, d, off, element) == Ok((v, f'))
    ensures ElementConforms(element, v, c.handleCount, c.maxDepth - d, false) && Moves(c, f, f')
    decreases element, 5, 1
  {
    hide SchemaOk, DecodeField, DecodeElement, ReadPointer, Conforms, ElementConforms;
    if element.IsPod() {
      SoundField(c, f, d, off, 0, element, v, f');
      ElementFromConforms(element, v, c.handleCount, c.maxDepth - d);
    } else {
      var ptr := ReadPointer(c, off).value;
      if ptr.NullPointer? {
        NullElement(element, c.handleCount, c.maxDepth - d);
      } else {
        SoundElement(c, f, d, ptr.target, element, v, f');
      }
    }
  }

  lemma {:induction false} SoundElement(c: Ctx, f: nat, d: nat, t: nat, element: Type, v: Value, f': nat)
    requires SchemaOk(element) && d <= c.maxDepth
    requires DecodeElement(c, f, d, t, element) == Ok((v, f'))
    ensures ElementConforms(element, v, c.handleCount, c.maxDepth - d, false) && Moves(c, f, f')
    decreases element, 5, 0
  {
    hide SchemaOk, DecodeStruct, DecodeStringAt, DecodeMapAt, DecodeArrayBody, Conforms, ElementConforms,
      ElementsConform;
    ElementTypesOk(element);
    var room := c.maxDepth - d;
    match element
    case Struct(_, _, _) =>
      SoundStruct(c, f, d, t, element, true, v, f');
      ElementFromConforms(element, v, c.handleCount, room);
    case String(nullable) =>
      SoundStringAt(c, f, t, nullable, v, f', room);
      ElementFromConforms(element, v, c.handleCount, room);
    case Map(_, _, _) =>
      SoundMapAt(c, f, d, t, element, v, f');
      ElementFromConforms(element, v, c.handleCount, room);
    case Array(inner, _) =>
      var (items, f1) := DecodeArrayBody(c, f, d, t, inner).value;
      SoundBody(c, f, d, t, inner, items, f1);
      NestedConforms(element, items, c.handleCount, room);
    case _ =>
  }

  lemma MapConforms(ty: Type, keys: seq<Value>, values: seq<Value>, hc: nat, room: nat)
    requires ty.Map? && room >= 1 && |keys| == |values|
    requires ElementsConform(ty.key, keys, hc, room - 1) && ElementsConform(ty.value, values, hc, room - 1)
    ensures Conforms(ty, Value.Map(keys, values), hc, room, false)
  {
  }

  lemma {:induction false} SoundMap(c: Ctx, f: nat, d: nat, off: nat, ty: Type, v: Value, f': nat)
    requires ty.Map? && SchemaOk(ty) && d <= c.maxDepth && DecodeMap(c, f, d, off, ty) == Ok((v, f'))
    ensures Conforms(ty, v, c.handleCount, c.maxDepth - d, false) && Moves(c, f, f')
    decreases ty, 3, 0
  {
    hide SchemaOk, Conforms, DecodeMapAt, ReadPointer;
    var ptr := ReadPointer(c, off).value;
    if ptr.NullPointer? {
      NullConforms(ty, c.handleCount, c.maxDepth - d);
    } else {
      SoundMapAt(c, f, d, ptr.target, ty, v, f');
    }
  }

  lemma {:induction false} SoundMapAt(c: Ctx, f: nat, d: nat, t: nat, ty: Type, v: Value, f': nat)
    requires ty.Map? && SchemaOk(ty) && d <= c.maxDepth && DecodeMapAt(c, f, d, t, ty) == Ok((v, f'))
    ensures Conforms(ty, v, c.handleCount, c.maxDepth - d, false) && Moves(c, f, f') && v.Map?
    decreases ty, 2, 0
  {
    hide SchemaOk, Conforms, DecodeArrayBody, ReadPointer, ReadLE, Claim, ElementsConform;
    ElementTypesOk(ty);
    var numBytes := ReadLE(c, t, 4).value;
    ClaimMoves(c, f, t, numBytes);
    var f1 := Claim(c, f, t, numBytes).value;
    var ko, vo := ReadPointer(c, t + 8).value.target, ReadPointer(c, t + 16).value.target;
    var (keys, f2) := DecodeArrayBody(c, f1, d + 1, ko, ty.key).value;
    var (values, f3) := DecodeArrayBody(c, f2, d + 1, vo, ty.value).value;
    SoundBody(c, f1, d + 1, ko, ty.key, keys, f2);
    SoundBody(c, f2, d + 1, vo, ty.value, values, f3);
    MapConforms(ty, keys, values, c.handleCount, c.maxDepth - d);
  }

  // ---------------------------------------------------------------- structs

  lemma {:induction false} SoundStructPointer(c: Ctx, f: nat, d: nat, off: nat, ty: Type, nullable: bool, v: Value,
      f': nat)
    requires ty.Struct? && SchemaOk(ty) && d <= c.maxDepth && (nullable ==> ty.nullable)
    requires DecodeStructPointer(c, f, d, off, ty, nullable) == Ok((v, f'))
    ensures Conforms(ty, v, c.handleCount, c.maxDepth - d, false) && Moves(c, f, f')
    decreases ty, 3, 0
  {
    hide SchemaOk, Conforms, DecodeStruct, ReadPointer;
    var ptr := ReadPointer(c, off).value;
    if ptr.NullPointer? {
      NullConforms(ty, c.handleCount, c.maxDepth - d);
    } else {
      SoundStruct(c, f, d, ptr.target, ty, true, v, f');
    }
  }

  /** An accepted header leaves every in-version field inside the struct. */
  ghost predicate Fits(fields: seq<FieldType>, version: nat, numBytes: nat) {
    StructLayout(fields).Ok? &&
    forall k :: 0 <= k < |StructLayout(fields).value.packedFields| ==>
      var p := StructLayout(fields).value.packedFields[k];
      p.src.minVersion <= version ==> 8 + p.End() <= numBytes
  }

  lemma HeaderFits(c: Ctx, f: nat, off: nat, fields: seq<FieldType>, claim: bool)
    requires DecodeStructHeader(c, f, off, fields, claim).Ok?
    ensures var (numBytes, version, f1) := DecodeStructHeader(c, f, off, fields, claim).value;
      Fits(fields, version, numBytes) && version < TWO_32 && Moves(c, f, f1)
  {
    hide StructLayout, ReadLE, Claim, P.NumBytesForVersion, MaxVersion, Fits;
    var (numBytes, version, f1) := DecodeStructHeader(c, f, off, fields, claim).value;
    ReadBounded(c, off + 4, 4);
    if claim { ClaimMoves(c, f, off, numBytes); }
    FitsFrom(fields, version, numBytes);
  }

  lemma FitsFrom(fields: seq<FieldType>, version: nat, numBytes: nat)
    requires StructLayout(fields).Ok?
    requires
      if version <= MaxVersion(fields) then
        P.NumBytesForVersion(StructLayout(fields).value, version).Some? ==>
          numBytes == P.NumBytesForVersion(StructLayout(fields).value, version).value
      else numBytes >= StructLayout(fields).value.size
    ensures Fits(fields, version, numBytes)
  {
    hide StructLayout, P.NumBytesForVersion, MaxVersion;
    var packed := StructLayout(fields).value.packedFields;
    forall k | 0 <= k < |packed| && packed[k].src.minVersion <= version ensures 8 + packed[k].End() <= numBytes {
      LF.InBounds(fields, version, k);
    }
  }

  /** The struct so far: out-of-version fields are untouched, in-version ones conform. */
  ghost predicate Sound(fields: seq<FieldType>, version: nat, x: Filled, k: nat, hc: nat, room: nat) {
    && StructLayout(fields).Ok? && k <= |StructLayout(fields).value.packedFields|
    && Untouched(fields, version, x)
    && (forall j :: 0 <= j < k && StructLayout(fields).value.packedFields[j].src.minVersion <= version ==>
          Got(StructLayout(fields).value.packedFields[j], fields, x, hc, room))
  }

  ghost predicate Got(p: P.PackedField, fields: seq<FieldType>, x: Filled, hc: nat, room: nat) {
    var i := p.src.field.index;
    && i < |fields| && i < |x.scalars|
    && if fields[i].ty.NullableScalar?
       then p.src.field.kind.Bool? || BareConforms(fields[i].ty.inner, x.scalars[i], hc, room, false)
       else Conforms(fields[i].ty, x.scalars[i], hc, room, false)
  }

  lemma SoundStart(fields: seq<FieldType>, version: nat, hc: nat, room: nat)
    requires StructLayout(fields).Ok?
    ensures Sound(fields, version, Filled(Defaults(fields), seq(|fields|, _ => false)), 0, hc, room)
  {
    hide StructLayout, DefaultValue;
  }

  lemma SoundSkip(fields: seq<FieldType>, version: nat, x: Filled, k: nat, hc: nat, room: nat)
    requires Sound(fields, version, x, k, hc, room) && k < |StructLayout(fields).value.packedFields|
    requires StructLayout(fields).value.packedFields[k].src.minVersion > version
    ensures Sound(fields, version, x, k + 1, hc, room)
  {
    hide StructLayout, DefaultValue, Got;
  }

  /** Filling an in-version field in with a conforming value. */
  lemma SoundScalar(fields: seq<FieldType>, version: nat, x: Filled, k: nat, y: Value, hc: nat, room: nat)
    requires Sound(fields, version, x, k, hc, room) && k < |StructLayout(fields).value.packedFields|
    requires var p := StructLayout(fields).value.packedFields[k];
      LF.Stands(p, fields) && p.src.minVersion <= version && !(p.src.field.nullableValueKind && p.src.field.kind.Bool?)
      && var ft := fields[p.src.field.index].ty;
        BareConforms(if ft.NullableScalar? then ft.inner else ft, y, hc, room, false)
    ensures var i := StructLayout(fields).value.packedFields[k].src.field.index;
      Sound(fields, version, x.(scalars := x.scalars[i := y]), k + 1, hc, room)
  {
    hide StructLayout, DefaultValue, Conforms;
  }

  lemma SoundFlag(fields: seq<FieldType>, version: nat, x: Filled, k: nat, y: bool, hc: nat, room: nat)
    requires Sound(fields, version, x, k, hc, room) && k < |StructLayout(fields).value.packedFields|
    requires var p := StructLayout(fields).value.packedFields[k];
      LF.Stands(p, fields) && p.src.minVersion <= version
      && fields[p.src.field.index].ty.NullableScalar? && p.src.field.kind.Bool?
    ensures var i := StructLayout(fields).value.packedFields[k].src.field.index;
      Sound(fields, version, x.(presence := x.presence[i := y]), k + 1, hc, room)
  {
    hide StructLayout, DefaultValue, Conforms;
  }

  lemma FieldOk(ty: Type, i: nat)
    requires ty.Struct? && SchemaOk(ty) && i < |ty.fields|
    ensures StructLayout(ty.fields).Ok? && SchemaOk(ty.fields[i].ty)
    ensures ty.fields[i].ty.NullableScalar? ==> SchemaOk(ty.fields[i].ty.inner)
  {
  }

  lemma FitsAt(fields: seq<FieldType>, version: nat, numBytes: nat, k: nat)
    requires Fits(fields, version, numBytes) && k < |StructLayout(fields).value.packedFields|
    ensures var p := StructLayout(fields).value.packedFields[k];
      p.src.minVersion <= version ==> 8 + p.End() <= numBytes
  {
  }

  lemma LengthsOk(fields: seq<FieldType>, version: nat, x: Filled, k: nat, hc: nat, room: nat)
    requires Sound(fields, version, x, k, hc, room)
    ensures |x.scalars| == |fields| && |x.presence| == |fields|
    ensures StructLayout(fields).Ok? && k <= |StructLayout(fields).value.packedFields|
  {
  }

  lemma {:induction false} SoundPacked(c: Ctx, f: nat, d: nat, off: nat, ty: Type, numBytes: nat, version: nat,
      k: nat, x: Filled, x': Filled, f': nat)
    requires ty.Struct? && SchemaOk(ty) && d <= c.maxDepth && Fits(ty.fields, version, numBytes)
    requires Sound(ty.fields, version, x, k, c.handleCount, c.maxDepth - d)
    requires k < |StructLayout(ty.fields).value.packedFields|
    requires DecodePacked(c, f, d, off, ty, numBytes, version, k, x) == Ok((x', f'))
    ensures Sound(ty.fields, version, x', k + 1, c.handleCount, c.maxDepth - d) && Moves(c, f, f')
    decreases ty, 0, |StructLayout(ty.fields).value.packedFields| - k, 0
  {
    hide SchemaOk, Conforms, BareConforms, StructLayout, Sound, Fits, DecodeField, ReadByte;
    var fields, room := ty.fields, c.maxDepth - d;
    LengthsOk(fields, version, x, k, c.handleCount, room);
    LF.PackedStands(fields, k);
    FitsAt(fields, version, numBytes, k);
    var p := StructLayout(fields).value.packedFields[k];
    var i, at := p.src.field.index, off + 8 + p.offset;
    FieldOk(ty, i);
    if p.src.minVersion > version {
      SoundSkip(fields, version, x, k, c.handleCount, room);
    } else if p.src.field.nullableValueKind && p.src.field.kind.Bool? {
      SoundFlag(fields, version, x, k, x'.presence[i], c.handleCount, room);
    } else {
      var scalar := p.src.field.nullableValueKind;
      var bit, ft := if scalar then 0 else p.bit, if scalar then fields[i].ty.inner else fields[i].ty;
      var (y, f1) := DecodeField(c, f, d, at, bit, ft).value;
      SoundField(c, f, d, at, bit, ft, y, f1);
      SoundScalar(fields, version, x, k, y, c.handleCount, room);
    }
  }

  lemma {:induction false} SoundFields(c: Ctx, f: nat, d: nat, off: nat, ty: Type, numBytes: nat, version: nat,
      k: nat, x: Filled, x': Filled, f': nat)
    requires ty.Struct? && SchemaOk(ty) && d <= c.maxDepth && Fits(ty.fields, version, numBytes)
    requires Sound(ty.fields, version, x, k, c.handleCount, c.maxDepth - d)
    requires DecodeFields(c, f, d, off, ty, numBytes, version, k, x) == Ok((x', f'))
    ensures Sound(ty.fields, version, x', |StructLayout(ty.fields).value.packedFields|, c.handleCount, c.maxDepth - d)
    ensures Moves(c, f, f')
    decreases ty, 0, |StructLayout(ty.fields).value.packedFields| - k, 1
  {
    hide SchemaOk, StructLayout, Sound, Fits, DecodePacked;
    LengthsOk(ty.fields, version, x, k, c.handleCount, c.maxDepth - d);
    if k < |StructLayout(ty.fields).value.packedFields| {
      var (x1, f1) := DecodePacked(c, f, d, off, ty, numBytes, version, k, x).value;
      SoundPacked(c, f, d, off, ty, numBytes, version, k, x, x1, f1);
      SoundFields(c, f1, d, off, ty, numBytes, version, k + 1, x1, x', f');
    }
  }

  /** Once every packed field is done, the assembled struct conforms. */
  lemma AssembleConforms(ty: Type, version: nat, x: Filled, hc: nat, room: nat)
    requires ty.Struct? && SchemaOk(ty) && room >= 1 && version < TWO_32
    requires StructLayout(ty.fields).Ok?
    requires Sound(ty.fields, version, x, |StructLayout(ty.fields).value.packedFields|, hc, room - 1)
    ensures Conforms(ty, Value.Struct(version, Assemble(ty.fields, x)), hc, room, false)
  {
    hide SchemaOk, StructLayout, Conforms, Sound;
    LengthsOk(ty.fields, version, x, |StructLayout(ty.fields).value.packedFields|, hc, room - 1);
    var vals := Assemble(ty.fields, x);
    forall i | 0 <= i < |vals|
      ensures if ty.fields[i].Version() <= version
        then Conforms(ty.fields[i].ty, vals[i], hc, room - 1, false)
        else vals[i] == DefaultValue(ty.fields[i].ty)
    {
      AssembleAt(ty, version, x, hc, room - 1, i);
    }
    StructConformsFrom(ty, version, vals, hc, room);
  }

  lemma StructConformsFrom(ty: Type, version: nat, vals: seq<Value>, hc: nat, room: nat)
    requires ty.Struct? && room >= 1 && version < TWO_32 && |vals| == |ty.fields|
    requires forall i :: 0 <= i < |vals| ==>
      if ty.fields[i].Version() <= version
      then Conforms(ty.fields[i].ty, vals[i], hc, room - 1, false)
      else vals[i] == DefaultValue(ty.fields[i].ty)
    ensures Conforms(ty, Value.Struct(version, vals), hc, room, false)
  {
    hide StructLayout, SchemaOk, MaxVersion;
  }

  lemma AssembleAt(ty: Type, version: nat, x: Filled, hc: nat, room: nat, i: nat)
    requires ty.Struct? && SchemaOk(ty) && i < |ty.fields| && StructLayout(ty.fields).Ok?
    requires Sound(ty.fields, version, x, |StructLayout(ty.fields).value.packedFields|, hc, room)
    ensures |x.scalars| == |ty.fields| && |x.presence| == |ty.fields|
    ensures if ty.fields[i].Version() <= version
      then Conforms(ty.fields[i].ty, Assemble(ty.fields, x)[i], hc, room, false)
      else Assemble(ty.fields, x)[i] == DefaultValue(ty.fields[i].ty)
  {
    hide SchemaOk, StructLayout, Conforms;
    var k := LF.FieldCovered(ty.fields, i, false);
    LF.PackedStands(ty.fields, k);
    FieldOk(ty, i);
    var ft := ty.fields[i].ty;
    if ty.fields[i].Version() <= version {
      assert Got(StructLayout(ty.fields).value.packedFields[k], ty.fields, x, hc, room);
      if ft.NullableScalar? {
        WrapConforms(ft, x.presence[i], x.scalars[i], hc, room);
      }
    }
  }

  lemma WrapConforms(ty: Type, present: bool, v: Value, hc: nat, room: nat)
    requires ty.NullableScalar?
    requires if ty.NullableBool() then v == DefaultValue(ty) else BareConforms(ty.inner, v, hc, room, false)
    ensures Conforms(ty, Value.NullableScalar(present, if present then v else Value.Null), hc, room, false)
  {
  }

  lemma {:induction false} SoundStruct(c: Ctx, f: nat, d: nat, off: nat, ty: Type, claim: bool, v: Value, f': nat)
    requires ty.Struct? && SchemaOk(ty) && d <= c.maxDepth && DecodeStruct(c, f, d, off, ty, claim) == Ok((v, f'))
    ensures Conforms(ty, v, c.handleCount, c.maxDepth - d, false) && Moves(c, f, f') && v.Struct?
    decreases ty, 1, 0
  {
    hide SchemaOk, Conforms, StructLayout, Sound, Fits, DecodeStructHeader, DecodeFields, Assemble;
    HeaderFits(c, f, off, ty.fields, claim);
    var (numBytes, version, f1) := DecodeStructHeader(c, f, off, ty.fields, claim).value;
    LayoutIsOk(ty);
    SoundStart(ty.fields, version, c.handleCount, c.maxDepth - d - 1);
    var start := Filled(Defaults(ty.fields), seq(|ty.fields|, _ => false));
    var x := DecodeFields(c, f1, d + 1, off, ty, numBytes, version, 0, start).value.0;
    SoundFields(c, f1, d + 1, off, ty, numBytes, version, 0, start, x, f');
    AssembleConforms(ty, version, x, c.handleCount, c.maxDepth - d);
  }

  lemma LayoutIsOk(ty: Type)
    requires ty.Struct? && SchemaOk(ty)
    ensures StructLayout(ty.fields).Ok?
  {
  }

  /** A string, array, map, struct or pointed-to union field that is not nullable is never null in a
      decoded struct, whatever the struct's version: the packer allows it only from version 0. */
  lemma NonNullableNeverNull(ty: Type, v: Value, hc: nat, room: nat, i: nat)
    requires ty.Struct? && v.Struct? && SchemaOk(ty) && Conforms(ty, v, hc, room, false) && i < |ty.fields|
    requires var ft := ty.fields[i].ty;
      (ft.String? || ft.Array? || ft.Map? || ft.Struct? || (ft.Union? && !ft.inlined)) && !ft.IsNullable()
    ensures |v.fields| == |ty.fields| && v.fields[i] != Value.Null
  {
    LF.NewerIsNullable(ty.fields, i);
    hide SchemaOk, StructLayout;
  }

  /** An inlined union is no reference to the packer, so it may be newer than version 0 even when
      it is not nullable: in a decoded struct it is null exactly when it is newer than the struct. */
  lemma InlinedUnionNullIffNewer(c: Ctx, f: nat, d: nat, off: nat, ty: Type, claim: bool, v: Value, f': nat, i: nat)
    requires ty.Struct? && SchemaOk(ty) && d <= c.maxDepth && DecodeStruct(c, f, d, off, ty, claim) == Ok((v, f'))
    requires i < |ty.fields| && ty.fields[i].ty.Union? && ty.fields[i].ty.inlined
    ensures v.Struct? && |v.fields| == |ty.fields|
    ensures v.fields[i] == Value.Null <==> ty.fields[i].Version() > v.version
  {
    hide SchemaOk, StructLayout, DecodeStruct;
    SoundStruct(c, f, d, off, ty, claim, v, f');
  }
}
