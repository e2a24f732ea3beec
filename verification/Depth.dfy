/** How deeply a value nests, as the decoder counts: structs, maps and arrays, but not arrays
    directly in arrays. */
module Depth {
  import opened Bytes
  import opened Schema

  function DepthOf(v: Value): nat
    decreases v
  {
    match v
    case Array(items) => 1 + Deepest(items, true)
    case Map(keys, values) => 1 + Max(Deepest(keys, true), Deepest(values, true))
    case Struct(_, vals) => 1 + Deepest(vals, false)
    case Union(_, w) => DepthOf(w)
    case NullableScalar(_, w) => DepthOf(w)
    case _ => 0
  }

  /** The most of any of them, as elements of an array or a map or as fields. */
  function Deepest(items: seq<Value>, elements: bool): nat
    decreases items
  {
    if |items| == 0 then 0
    else
      var last := items[|items| - 1];
      var rest := Deepest(items[..|items| - 1], elements);
      Max(rest, if elements && last.Array? then Deepest(last.items, true) else DepthOf(last))
  }

  function ElementDepth(v: Value): nat {
    if v.Array? then Deepest(v.items, true) else DepthOf(v)
  }

  lemma {:induction false} DeepestElements(items: seq<Value>, room: nat)
    ensures Deepest(items, true) <= room <==> forall i :: 0 <= i < |items| ==> ElementDepth(items[i]) <= room
  {
    hide DepthOf;
    if |items| > 0 {
      var n := |items| - 1;
      DeepestElements(items[..n], room);
      assert Deepest(items, true) == Max(Deepest(items[..n], true), ElementDepth(items[n]));
      assert forall i :: 0 <= i < n ==> items[..n][i] == items[i];
    }
  }

  lemma {:induction false} DeepestFields(vals: seq<Value>, room: nat)
    ensures Deepest(vals, false) <= room <==> forall i :: 0 <= i < |vals| ==> DepthOf(vals[i]) <= room
  {
    hide DepthOf;
    if |vals| > 0 {
      var n := |vals| - 1;
      DeepestFields(vals[..n], room);
      assert forall i :: 0 <= i < n ==> vals[..n][i] == vals[i];
    }
  }

  // ---------------------------------------------------------------- what conforms nests no deeper

  lemma {:induction false} DepthBound(ty: Type, v: Value, hc: nat, room: nat, sent: bool)
    requires Conforms(ty, v, hc, room, sent)
    ensures DepthOf(v) <= room
    decreases ty, 1
  {
    hide ValidUtf8, SizeExpected, NoOverlap, ZeroReads;
    match v
    case Array(items) => ElementsBound(ty.element, items, hc, room - 1, sent);
    case Map(keys, values) =>
      ElementsBound(ty.key, keys, hc, room - 1, sent);
      ElementsBound(ty.value, values, hc, room - 1, sent);
    case Struct(version, vals) => FieldsBound(ty, version, vals, hc, room, sent);
    case Union(tag, w) => BareBound(ty.members[tag], w, hc, room, sent);
    case NullableScalar(present, w) =>
      if present && !ty.NullableBool() { BareBound(ty.inner, w, hc, room, sent); }
    case _ =>
  }

  lemma {:induction false} BareBound(ty: Type, v: Value, hc: nat, room: nat, sent: bool)
    requires BareConforms(ty, v, hc, room, sent)
    ensures DepthOf(v) <= room
    decreases ty, 2
  {
    hide Conforms, DepthOf;
    if ty.NullableScalar? { BareBound(ty.inner, v, hc, room, sent); } else { DepthBound(ty, v, hc, room, sent); }
  }

  lemma {:induction false} FieldsBound(ty: Type, version: nat, vals: seq<Value>, hc: nat, room: nat, sent: bool)
    requires ty.Struct? && Conforms(ty, Value.Struct(version, vals), hc, room, sent)
    ensures room >= 1 && Deepest(vals, false) <= room - 1
    decreases ty, 0
  {
    hide SizeExpected, NoOverlap, ZeroReads;
    forall i | 0 <= i < |vals| ensures DepthOf(vals[i]) <= room - 1 {
      if ty.fields[i].Version() <= version {
        DepthBound(ty.fields[i].ty, vals[i], hc, room - 1, sent);
      }
    }
    DeepestFields(vals, room - 1);
  }

  lemma {:induction false} ElementsBound(ty: Type, items: seq<Value>, hc: nat, room: nat, sent: bool)
    requires forall i :: 0 <= i < |items| ==> ElementConforms(ty, items[i], hc, room, sent)
    ensures Deepest(items, true) <= room
    decreases ty, 3
  {
    hide ElementConforms, ElementDepth;
    forall i | 0 <= i < |items| ensures ElementDepth(items[i]) <= room {
      ElementBound(ty, items[i], hc, room, sent);
    }
    DeepestElements(items, room);
  }

  lemma {:induction false} ElementBound(ty: Type, v: Value, hc: nat, room: nat, sent: bool)
    requires ElementConforms(ty, v, hc, room, sent)
    ensures ElementDepth(v) <= room
    decreases ty, 2
  {
    hide ValidUtf8, SizeExpected, NoOverlap, ZeroReads;
    if !v.Null? || ty.IsPod() {
      if ty.Array? && v.Array? {
        ElementsBound(ty.element, v.items, hc, room, sent);
      } else {
        DepthBound(ty, v, hc, room, sent);
      }
    }
  }

  // ---------------------------------------------------------------- and needs no more room

  lemma {:induction false} RoomEnough(ty: Type, v: Value, hc: nat, room: nat, m: nat, sent: bool)
    requires Conforms(ty, v, hc, room, sent) && DepthOf(v) <= m
    ensures Conforms(ty, v, hc, m, sent)
    decreases ty, 1
  {
    hide Conforms, DepthOf;
    if v.Struct? {
      ListsTyped(ty, v, hc, room, sent);
      RoomForFields(ty, v.version, v.fields, hc, room, m, sent);
    } else if v.Array? || v.Map? {
      RoomForList(ty, v, hc, room, m, sent);
    } else if v.Union? || v.NullableScalar? {
      RoomForHeld(ty, v, hc, room, m, sent);
    } else {
      RoomForLeaf(ty, v, hc, room, m, sent);
    }
  }

  lemma ListsTyped(ty: Type, v: Value, hc: nat, room: nat, sent: bool)
    requires Conforms(ty, v, hc, room, sent)
    ensures (v.Struct? ==> ty.Struct?) && (v.Array? ==> ty.Array?)
  {
  }

  lemma RoomForLeaf(ty: Type, v: Value, hc: nat, room: nat, m: nat, sent: bool)
    requires Conforms(ty, v, hc, room, sent)
    requires !v.Struct? && !v.Array? && !v.Map? && !v.Union? && !v.NullableScalar?
    ensures Conforms(ty, v, hc, m, sent)
  {
  }

  lemma {:induction false} RoomForList(ty: Type, v: Value, hc: nat, room: nat, m: nat, sent: bool)
    requires Conforms(ty, v, hc, room, sent) && DepthOf(v) <= m && (v.Array? || v.Map?)
    ensures Conforms(ty, v, hc, m, sent)
    decreases ty, 0
  {
    hide ElementConforms, Deepest;
    if v.Array? {
      RoomForElements(ty.element, v.items, hc, room - 1, m - 1, sent);
    } else {
      RoomForElements(ty.key, v.keys, hc, room - 1, m - 1, sent);
      RoomForElements(ty.value, v.values, hc, room - 1, m - 1, sent);
    }
  }

  lemma {:induction false} RoomForHeld(ty: Type, v: Value, hc: nat, room: nat, m: nat, sent: bool)
    requires Conforms(ty, v, hc, room, sent) && DepthOf(v) <= m && (v.Union? || v.NullableScalar?)
    ensures Conforms(ty, v, hc, m, sent)
    decreases ty, 0
  {
    hide BareConforms, ZeroReads;
    if v.Union? {
      BareRoom(ty.members[v.tag], v.value, hc, room, m, sent);
    } else if v.present && !ty.NullableBool() {
      BareRoom(ty.inner, v.value, hc, room, m, sent);
    }
  }

  lemma {:induction false} BareRoom(ty: Type, v: Value, hc: nat, room: nat, m: nat, sent: bool)
    requires BareConforms(ty, v, hc, room, sent) && DepthOf(v) <= m
    ensures BareConforms(ty, v, hc, m, sent)
    decreases ty, 2
  {
    hide Conforms, DepthOf;
    if ty.NullableScalar? { BareRoom(ty.inner, v, hc, room, m, sent); } else { RoomEnough(ty, v, hc, room, m, sent); }
  }

  lemma {:induction false} RoomForFields(ty: Type, version: nat, vals: seq<Value>, hc: nat, room: nat, m: nat,
      sent: bool)
    requires ty.Struct? && Conforms(ty, Value.Struct(version, vals), hc, room, sent)
    requires DepthOf(Value.Struct(version, vals)) <= m
    ensures Conforms(ty, Value.Struct(version, vals), hc, m, sent)
    decreases ty, 0
  {
    hide SizeExpected, NoOverlap, ZeroReads, DefaultValue;
    DeepestFields(vals, m - 1);
    forall i | 0 <= i < |vals| && ty.fields[i].Version() <= version
      ensures Conforms(ty.fields[i].ty, vals[i], hc, m - 1, sent)
    {
      RoomEnough(ty.fields[i].ty, vals[i], hc, room - 1, m - 1, sent);
    }
  }

  lemma {:induction false} RoomForElements(ty: Type, items: seq<Value>, hc: nat, room: nat, m: nat, sent: bool)
    requires forall i :: 0 <= i < |items| ==> ElementConforms(ty, items[i], hc, room, sent)
    requires Deepest(items, true) <= m
    ensures forall i :: 0 <= i < |items| ==> ElementConforms(ty, items[i], hc, m, sent)
    decreases ty, 3
  {
    hide ElementConforms, ElementDepth;
    DeepestElements(items, m);
    forall i | 0 <= i < |items| ensures ElementConforms(ty, items[i], hc, m, sent) {
      RoomForElement(ty, items[i], hc, room, m, sent);
    }
  }

  lemma {:induction false} RoomForElement(ty: Type, v: Value, hc: nat, room: nat, m: nat, sent: bool)
    requires ElementConforms(ty, v, hc, room, sent) && ElementDepth(v) <= m
    ensures ElementConforms(ty, v, hc, m, sent)
    decreases ty, 2
  {
    hide Conforms, DepthOf, Deepest;
    if !v.Null? || ty.IsPod() {
      if ty.Array? && v.Array? {
        RoomForElements(ty.element, v.items, hc, room, m, sent);
      } else {
        ListsTyped(ty, v, hc, room, sent);
        RoomEnough(ty, v, hc, room, m, sent);
      }
    }
  }

  /** A value that conforms with some room conforms with any other exactly when it nests no deeper. */
  lemma DepthExact(ty: Type, v: Value, hc: nat, room: nat, m: nat, sent: bool)
    requires Conforms(ty, v, hc, room, sent)
    ensures Conforms(ty, v, hc, m, sent) <==> DepthOf(v) <= m
  {
    hide Conforms, DepthOf;
    if Conforms(ty, v, hc, m, sent) { DepthBound(ty, v, hc, m, sent); }
    if DepthOf(v) <= m { RoomEnough(ty, v, hc, room, m, sent); }
  }
}
