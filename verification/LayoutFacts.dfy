/** The packer's results in the terms the codec uses: which declared field each packed field
    stands for, where its slot lies, and that no field is missed. */
module LayoutFacts {
  import opened Results
  import opened Schema
  import P = Pack
  import L = PackLayout
  import V = PackVersions

  /** `p` is field `p.Index()` of the struct, its presence flag, or its nullable value. */
  ghost predicate Stands(p: P.PackedField, fields: seq<FieldType>) {
    var i := p.src.field.index;
    && i < |fields|
    && p.bit < 8
    && p.src.field.nullableValueKind == fields[i].ty.NullableScalar?
    && p.src.minVersion == fields[i].Version()
    && (p.src.field.kind == fields[i].ty.PackKind() ||
        (fields[i].ty.NullableScalar? && p.src.field.kind == P.Kind.Bool))
  }

  lemma InputVersions(fields: seq<FieldType>, i: nat)
    requires i < |fields|
    ensures PackInput(fields)[i].Version() == fields[i].Version()
  {
  }

  lemma PackedStands(fields: seq<FieldType>, k: nat)
    requires StructLayout(fields).Ok? && k < |StructLayout(fields).value.packedFields|
    ensures var s := StructLayout(fields).value;
      Stands(s.packedFields[k], fields) && P.STRUCT_HEADER_SIZE + s.packedFields[k].End() <= s.size
  {
    var input := PackInput(fields);
    L.PackIsLayout(input);
    var dst := StructLayout(fields).value.packedFields;
    V.SourceOf(dst, L.Ordered(input), dst[k]);
    V.OrderedSource(input, dst[k].src);
    InputVersions(fields, dst[k].src.ordinal);
    assert L.WellPlaced(dst[k]);
  }

  /** The source of a declared field: the field itself, or a nullable scalar's value or flag. */
  lemma SourceCovered(input: seq<P.Field>, i: nat, flag: bool) returns (j: nat)
    requires i < |input| && (flag ==> input[i].nullableValueKind)
    ensures j < |P.Expand(input)| && P.Expand(input)[j].field.index == input[i].index
    ensures P.Expand(input)[j].field.kind == if flag then P.Kind.Bool else input[i].kind
  {
    hide P.Expand;
    L.ExpandCovers(input, i);
    var parts := P.ExpandField(input[i], i);
    var part := if flag then parts[0] else parts[|parts| - 1];
    assert part in P.Expand(input);
    j :| 0 <= j < |P.Expand(input)| && P.Expand(input)[j] == part;
  }

  /** Every declared field has its packed field; a nullable scalar has its value and flag. */
  lemma FieldCovered(fields: seq<FieldType>, i: nat, flag: bool) returns (k: nat)
    requires StructLayout(fields).Ok? && i < |fields| && (flag ==> fields[i].ty.NullableScalar?)
    ensures var dst := StructLayout(fields).value.packedFields;
      k < |dst| && dst[k].src.field.index == i &&
      dst[k].src.field.kind == if flag then P.Kind.Bool else fields[i].ty.PackKind()
  {
    hide P.Expand, P.PackFields, L.Accepted, L.Laid;
    var input := PackInput(fields);
    L.PackIsLayout(input);
    var j := SourceCovered(input, i, flag);
    var s := L.Ordered(input)[j];
    var dst := StructLayout(fields).value.packedFields;
    assert s in multiset(L.Ordered(input));
    assert s in L.Sources(dst);
    k :| 0 <= k < |dst| && L.Sources(dst)[k] == s;
  }

  /** Only a nullable scalar stands for two packed fields. */
  lemma IndexOnce(fields: seq<FieldType>, j: nat, k: nat)
    requires StructLayout(fields).Ok? && j < k < |StructLayout(fields).value.packedFields|
    ensures var dst := StructLayout(fields).value.packedFields; var i := dst[j].src.field.index;
      i < |fields| && (dst[k].src.field.index == i ==> fields[i].ty.NullableScalar?)
  {
    hide P.PackFields, P.Expand, L.Laid, L.Accepted;
    var input := PackInput(fields);
    L.PackIsLayout(input);
    L.PackedOnce(input, j, k);
    var dst := StructLayout(fields).value.packedFields;
    V.SourceOf(dst, L.Ordered(input), dst[j]);
    V.SourceOf(dst, L.Ordered(input), dst[k]);
    V.OrderedSource(input, dst[j].src);
    V.OrderedSource(input, dst[k].src);
  }

  lemma Disjoint(fields: seq<FieldType>, i: nat, j: nat)
    requires StructLayout(fields).Ok? && i < j < |StructLayout(fields).value.packedFields|
    ensures var dst := StructLayout(fields).value.packedFields; L.Before(dst[i], dst[j])
  {
    L.PackIsLayout(PackInput(fields));
  }

  /** A last field that ends on an 8-byte boundary ends the struct. */
  lemma LastEnds(fields: seq<FieldType>, k: nat)
    requires StructLayout(fields).Ok? && k + 1 == |StructLayout(fields).value.packedFields|
    requires var p := StructLayout(fields).value.packedFields[k]; p.src.field.kind.Struct? || p.src.field.kind.Union?
    ensures 8 + StructLayout(fields).value.packedFields[k].End() == StructLayout(fields).value.size
  {
    L.LastFills(PackInput(fields));
  }

  /** A field newer than version 0 that is a reference is nullable, or the packer refuses it. */
  lemma NewerIsNullable(fields: seq<FieldType>, i: nat)
    requires StructLayout(fields).Ok? && i < |fields| && fields[i].ty.PackKind().IsReference()
    requires !fields[i].ty.IsNullable()
    ensures fields[i].Version() == 0
  {
    hide P.PackFields;
    var input := PackInput(fields);
    L.PackIsLayout(input);
    assert input[i].IsNonNullableReference();
    InputVersions(fields, i);
  }

  /** Without fields a struct is its header. */
  lemma EmptyLayout()
    ensures StructLayout([]).Ok? && StructLayout([]).value.packedFields == [] && StructLayout([]).value.size == 8
  {
    assert PackInput([]) == [];
  }

  lemma SizeIsRounded(fields: seq<FieldType>)
    requires StructLayout(fields).Ok?
    ensures StructLayout(fields).value.size >= 8 && StructLayout(fields).value.size % 8 == 0
  {
    L.PackIsLayout(PackInput(fields));
  }

  /** At or past the newest field the expected size is the full size. */
  lemma CurrentSize(fields: seq<FieldType>, version: nat)
    requires StructLayout(fields).Ok? && MaxVersion(fields) <= version
    ensures P.NumBytesForVersion(StructLayout(fields).value, version) == Some(StructLayout(fields).value.size)
  {
    forall i | 0 <= i < |fields| ensures PackInput(fields)[i].Version() <= version {
      InputVersions(fields, i);
    }
    V.FullSizeAtMax(PackInput(fields), version);
  }

  /** The size the decoder expects holds every in-version field. */
  lemma InBounds(fields: seq<FieldType>, version: nat, k: nat)
    requires StructLayout(fields).Ok? && k < |StructLayout(fields).value.packedFields|
    requires StructLayout(fields).value.packedFields[k].src.minVersion <= version
    ensures var s := StructLayout(fields).value; var n := P.NumBytesForVersion(s, version);
      n.Some? && P.STRUCT_HEADER_SIZE + s.packedFields[k].End() <= n.value <= s.size
  {
    V.InVersionInBounds(PackInput(fields), version, StructLayout(fields).value.packedFields[k]);
  }
}
