/** Version stability of the layout: what a struct looked like at an older version is what
    the packer makes of the fields it had then, and the version table gives its size. */
module PackVersions {
  import opened Results
  import opened Bytes
  import opened Pack
  import opened PackLayout

  function FieldsUpTo(fields: seq<Field>, v: nat): seq<Field> {
    if |fields| == 0 then []
    else
      var rest := FieldsUpTo(fields[..|fields| - 1], v);
      if fields[|fields| - 1].Version() <= v then rest + [fields[|fields| - 1]] else rest
  }

  function SourcesUpTo(src: seq<Source>, v: nat): seq<Source> {
    if |src| == 0 then []
    else
      var rest := SourcesUpTo(src[..|src| - 1], v);
      if src[|src| - 1].minVersion <= v then rest + [src[|src| - 1]] else rest
  }

  function UpTo(dst: seq<PackedField>, v: nat): seq<PackedField> {
    if |dst| == 0 then []
    else if dst[0].src.minVersion <= v then [dst[0]] + UpTo(dst[1..], v)
    else UpTo(dst[1..], v)
  }

  lemma {:induction false} UpToAppend(a: seq<PackedField>, b: seq<PackedField>, v: nat)
    ensures UpTo(a + b, v) == UpTo(a, v) + UpTo(b, v)
  {
    if |a| == 0 {
      assert a + b == b;
    } else {
      assert (a + b)[1..] == a[1..] + b;
      UpToAppend(a[1..], b, v);
    }
  }

  lemma {:induction false} UpToMembers(dst: seq<PackedField>, v: nat)
    ensures forall p :: p in UpTo(dst, v) <==> p in dst && p.src.minVersion <= v
    ensures (forall p :: p in dst ==> p.src.minVersion <= v) ==> UpTo(dst, v) == dst
  {
    if |dst| > 0 {
      UpToMembers(dst[1..], v);
      assert dst == [dst[0]] + dst[1..];
    }
  }

  lemma {:induction false} UpToNone(dst: seq<PackedField>, v: nat)
    requires forall i :: 0 <= i < |dst| ==> v < dst[i].src.minVersion
    ensures UpTo(dst, v) == []
  {
    if |dst| > 0 {
      UpToNone(dst[1..], v);
    }
  }

  ghost predicate Rising(src: seq<Source>) {
    forall i, j :: 0 <= i < j < |src| ==> src[i].minVersion <= src[j].minVersion
  }

  lemma {:induction false} SourcesUpToAll(src: seq<Source>, v: nat)
    requires forall i :: 0 <= i < |src| ==> src[i].minVersion <= v
    ensures SourcesUpTo(src, v) == src
  {
    if |src| > 0 {
      SourcesUpToAll(src[..|src| - 1], v);
      assert src == src[..|src| - 1] + [src[|src| - 1]];
    }
  }

  lemma SourceOf(dst: seq<PackedField>, src: seq<Source>, p: PackedField)
    requires multiset(Sources(dst)) == multiset(src) && p in dst
    ensures p.src in src
  {
    var i :| 0 <= i < |dst| && dst[i] == p;
    assert Sources(dst)[i] == p.src;
    assert p.src in multiset(Sources(dst));
  }

  /** Dropping the later fields from the layout is laying out without them. */
  lemma {:induction false} PlacementStable(src: seq<Source>, v: nat)
    requires Rising(src)
    ensures UpTo(PlaceAll(src), v) == PlaceAll(SourcesUpTo(src, v))
  {
    if |src| > 0 {
      var init, s := src[..|src| - 1], src[|src| - 1];
      if s.minVersion <= v {
        SourcesUpToAll(src, v);
        PlaceAllLaid(src);
        forall p | p in PlaceAll(src) ensures p.src.minVersion <= v {
          SourceOf(PlaceAll(src), src, p);
        }
        UpToMembers(PlaceAll(src), v);
      } else {
        PlaceAllLaid(init);
        var d := PlaceAll(init);
        var k, x := PlaceInserts(d, s);
        assert PlaceAll(src) == d[..k] + ([x] + d[k..]);
        assert d == d[..k] + d[k..];
        UpToAppend(d[..k], [x] + d[k..], v);
        UpToAppend([x], d[k..], v);
        UpToAppend(d[..k], d[k..], v);
        assert UpTo([x], v) == [];
        PlacementStable(init, v);
      }
    }
  }

  // ---------------------------------------------------------------- the version table

  function MaxPayload(s: seq<PackedField>, base: nat): nat {
    if |s| == 0 then base else MaxPayload(s[1..], Max(base, PayloadUpTo(s[0])))
  }

  lemma {:induction false} MaxPayloadIsMax(s: seq<PackedField>, base: nat)
    ensures MaxPayload(s, base) >= base
    ensures forall p :: p in s ==> PayloadUpTo(p) <= MaxPayload(s, base)
    ensures MaxPayload(s, base) == base || exists p :: p in s && PayloadUpTo(p) == MaxPayload(s, base)
  {
    if |s| > 0 {
      MaxPayloadIsMax(s[1..], Max(base, PayloadUpTo(s[0])));
      if MaxPayload(s, base) != base && MaxPayload(s, base) == Max(base, PayloadUpTo(s[0])) {
        assert s[0] in s;
      }
    }
  }

  ghost predicate RisingPacked(s: seq<PackedField>) {
    forall i, j :: 0 <= i < j < |s| ==> s[i].src.minVersion <= s[j].src.minVersion
  }

  lemma {:induction false} RowsFrom(order: seq<PackedField>, version: nat, payload: nat, v: nat)
    requires RisingPacked(order) && v < version
    requires forall i :: 0 <= i < |order| ==> version <= order[i].src.minVersion
    ensures MaxUpTo(VersionInfo(order, version, payload), v) == None
  {
    if |order| > 0 {
      RowsFrom(order[1..], order[0].src.minVersion, Max(payload, PayloadUpTo(order[0])), v);
    }
  }

  lemma {:induction false} TableRow(order: seq<PackedField>, version: nat, payload: nat, v: nat)
    requires RisingPacked(order) && version <= v
    requires forall i :: 0 <= i < |order| ==> version <= order[i].src.minVersion
    ensures MaxUpTo(VersionInfo(order, version, payload), v)
      == Some(STRUCT_HEADER_SIZE + MaxPayload(UpTo(order, v), payload))
  {
    if |order| > 0 {
      var w, more := order[0].src.minVersion, Max(payload, PayloadUpTo(order[0]));
      if w <= v {
        TableRow(order[1..], w, more, v);
        MaxPayloadIsMax(UpTo(order[1..], v), more);
        assert UpTo(order, v)[1..] == UpTo(order[1..], v);
      } else {
        RowsFrom(order[1..], w, more, v);
        UpToNone(order, v);
      }
      var info := VersionInfo(order, version, payload);
      if w != version {
        assert info[1..] == VersionInfo(order[1..], w, more);
      }
    }
  }

  lemma LaidUpTo(src: seq<Source>, v: nat)
    requires Rising(src)
    ensures Laid(UpTo(PlaceAll(src), v))
  {
    PlacementStable(src, v);
    PlaceAllLaid(SourcesUpTo(src, v));
  }

  lemma MaxPayloadOfLayout(dst: seq<PackedField>, order: seq<PackedField>)
    requires Laid(dst) && (forall p :: p in dst <==> p in order)
    ensures STRUCT_HEADER_SIZE + MaxPayload(order, 0) == TotalSize(dst)
  {
    MaxPayloadIsMax(order, 0);
    if |dst| > 0 {
      var last := dst[|dst| - 1];
      assert last in order;
      forall p | p in order ensures PayloadUpTo(p) <= PayloadUpTo(last) {
        var i :| 0 <= i < |dst| && dst[i] == p;
        InsideSize(dst, i);
      }
    }
  }

  lemma SameMembers(a: seq<PackedField>, b: seq<PackedField>)
    requires multiset(a) == multiset(b)
    ensures forall p :: p in a <==> p in b
  {
    forall p ensures p in a <==> p in b {
      assert p in a <==> p in multiset(a);
      assert p in b <==> p in multiset(b);
    }
  }

  // ---------------------------------------------------------------- main results

  lemma OrderedRises(fields: seq<Field>)
    requires Accepted(fields)
    ensures Rising(Ordered(fields))
  {
    ExpandedVersions(fields);
  }

  /** A source's version is its field's, so rising keys mean rising versions. */
  lemma OrderRises(fields: seq<Field>, order: seq<PackedField>)
    requires Accepted(fields) && SortedBy(order, PackedKey)
    requires forall p :: p in order ==> p.src in Ordered(fields)
    ensures RisingPacked(order)
  {
    hide Expand, Ordered, IsPartOf;
    forall i, j | 0 <= i < j < |order|
      ensures order[i].src.minVersion <= order[j].src.minVersion
    {
      OrderedSource(fields, order[i].src);
      OrderedSource(fields, order[j].src);
      assert PackedKey(order[i]) <= PackedKey(order[j]);
      PartBounds(fields, order[i].src);
      PartBounds(fields, order[j].src);
    }
  }

  lemma PartBounds(fields: seq<Field>, s: Source)
    requires IsPartOf(s, fields, s.ordinal)
    ensures s.ordinal < |fields| && 3 * s.ordinal <= s.Key() < 3 * s.ordinal + 3
  {
  }

  /** Every source stands for the declared field its ordinal names. */
  lemma OrderedSource(fields: seq<Field>, s: Source)
    requires s in Ordered(fields)
    ensures IsPartOf(s, fields, s.ordinal) && s.minVersion == fields[s.ordinal].Version()
  {
    ExpandParts(fields);
    var k :| 0 <= k < |Ordered(fields)| && Ordered(fields)[k] == s;
    assert Expand(fields)[k] in Expand(fields);
  }

  /** The ordinal order has the fields of the layout, at rising versions. */
  lemma OrdinalOrder(fields: seq<Field>)
    requires PackFields(fields).Ok?
    ensures var p := PackFields(fields).value;
      && (forall q :: q in p.packedFields <==> q in p.ordinalOrder)
      && RisingPacked(p.ordinalOrder)
  {
    PackIsLayout(fields);
    var p := PackFields(fields).value;
    SortByKeySorts(p.packedFields, PackedKey);
    SameMembers(p.packedFields, p.ordinalOrder);
    forall q | q in p.ordinalOrder ensures q.src in Ordered(fields) {
      SourceOf(p.packedFields, Ordered(fields), q);
    }
    OrderRises(fields, p.ordinalOrder);
  }

  /** The version table gives, for every version, the size of the layout cut to it. */
  lemma TableIsExact(fields: seq<Field>, v: nat)
    requires PackFields(fields).Ok?
    ensures var p := PackFields(fields).value;
      NumBytesForVersion(p, v) == Some(TotalSize(UpTo(p.packedFields, v)))
  {
    var p := PackFields(fields).value;
    OrdinalOrder(fields);
    assert Laid(UpTo(p.packedFields, v)) by {
      PackIsLayout(fields);
      OrderedRises(fields);
      LaidUpTo(Ordered(fields), v);
    }
    TableOfCut(p.packedFields, p.ordinalOrder, v);
    assert p.versionInfo == VersionInfo(p.ordinalOrder, 0, 0);
  }

  lemma TableOfCut(dst: seq<PackedField>, order: seq<PackedField>, v: nat)
    requires Laid(UpTo(dst, v)) && RisingPacked(order)
    requires forall p :: p in dst <==> p in order
    ensures MaxUpTo(VersionInfo(order, 0, 0), v) == Some(TotalSize(UpTo(dst, v)))
  {
    var a, b := UpTo(dst, v), UpTo(order, v);
    TableRow(order, 0, 0, v);
    assert forall p :: p in a <==> p in b by {
      UpToMembers(dst, v);
      UpToMembers(order, v);
    }
    MaxPayloadOfLayout(a, b);
  }

  lemma OrderedLast(fields: seq<Field>)
    requires |fields| > 0
    ensures var init, f := fields[..|fields| - 1], fields[|fields| - 1];
      var parts := ExpandField(f, |fields| - 1);
      Ordered(fields) == Ordered(init) + seq(|parts|, i requires 0 <= i < |parts| => WithVersion(parts[i]))
  {
  }

  lemma SourcesUpToDrop(front: seq<Source>, last: Source, v: nat)
    requires v < last.minVersion
    ensures SourcesUpTo(front + [last], v) == SourcesUpTo(front, v)
  {
    assert (front + [last])[..|front|] == front;
  }

  lemma {:induction false} FieldsUpToIsPrefix(fields: seq<Field>, v: nat)
    requires Accepted(fields)
    ensures Accepted(FieldsUpTo(fields, v))
    ensures FieldsUpTo(fields, v) <= fields
    ensures Ordered(FieldsUpTo(fields, v)) == SourcesUpTo(Ordered(fields), v)
  {
    if |fields| > 0 {
      var init, f := fields[..|fields| - 1], fields[|fields| - 1];
      var whole, front := Ordered(fields), Ordered(init);
      if f.Version() <= v {
        forall i | 0 <= i < |whole| ensures whole[i].minVersion <= v {
          OrderedSource(fields, whole[i]);
        }
        SourcesUpToAll(whole, v);
        FieldsUpToAll(fields, v);
      } else {
        FieldsUpToIsPrefix(init, v);
        OrderedLast(fields);
        var parts := ExpandField(f, |fields| - 1);
        var a := WithVersion(parts[0]);
        SourcesUpToDrop(front, a, v);
        if f.nullableValueKind {
          var b := WithVersion(parts[1]);
          SourcesUpToDrop(front + [a], b, v);
          assert whole == front + [a] + [b];
        } else {
          assert whole == front + [a];
        }
      }
    }
  }

  lemma {:induction false} FieldsUpToAll(fields: seq<Field>, v: nat)
    requires forall i :: 0 <= i < |fields| ==> fields[i].Version() <= v
    ensures FieldsUpTo(fields, v) == fields
  {
    if |fields| > 0 {
      FieldsUpToAll(fields[..|fields| - 1], v);
    }
  }

  /** Packing only the fields of version v gives the same offsets and bits as packing all of
      them and dropping the later ones, and the version table holds that packing's size. */
  lemma LayoutIsVersionStable(fields: seq<Field>, v: nat)
    requires PackFields(fields).Ok?
    ensures var whole, part := PackFields(fields).value, PackFields(FieldsUpTo(fields, v));
      && part.Ok?
      && part.value.packedFields == UpTo(whole.packedFields, v)
      && NumBytesForVersion(whole, v) == Some(part.value.size)
  {
    PackIsLayout(fields);
    FieldsUpToIsPrefix(fields, v);
    PackIsLayout(FieldsUpTo(fields, v));
    OrderedRises(fields);
    PlacementStable(Ordered(fields), v);
    TableIsExact(fields, v);
  }

  /** An in-version field always lies inside the size its version has on the wire. */
  lemma InVersionInBounds(fields: seq<Field>, v: nat, p: PackedField)
    requires PackFields(fields).Ok? && p in PackFields(fields).value.packedFields
    requires p.src.minVersion <= v
    ensures var whole := PackFields(fields).value;
      && NumBytesForVersion(whole, v).Some?
      && STRUCT_HEADER_SIZE + p.End() <= NumBytesForVersion(whole, v).value <= whole.size
  {
    hide Expand, PackFields, Ordered, Accepted, SortByKey, NumBytesForVersion;
    PackIsLayout(fields);
    TableIsExact(fields, v);
    OrderedRises(fields);
    LaidUpTo(Ordered(fields), v);
    var dst := PackFields(fields).value.packedFields;
    UpToMembers(dst, v);
    var cut := UpTo(dst, v);
    assert p in cut;
    var i :| 0 <= i < |cut| && cut[i] == p;
    InsideSize(cut, i);
    var last := cut[|cut| - 1];
    assert last in cut;
    var j :| 0 <= j < |dst| && dst[j] == last;
    InsideSize(dst, j);
  }

  /** From the largest MinVersion on, the table gives the full size. */
  lemma FullSizeAtMax(fields: seq<Field>, v: nat)
    requires PackFields(fields).Ok?
    requires forall i :: 0 <= i < |fields| ==> fields[i].Version() <= v
    ensures NumBytesForVersion(PackFields(fields).value, v) == Some(PackFields(fields).value.size)
  {
    LayoutIsVersionStable(fields, v);
    FieldsUpToAll(fields, v);
  }
}
