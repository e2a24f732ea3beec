/** What the packer's output is: a correct layout of exactly the expanded fields. */
module PackLayout {
  import opened Results
  import opened Bytes
  import opened Pack

  // ---------------------------------------------------------------- sorting

  ghost predicate SortedBy<T>(s: seq<T>, key: T -> nat) {
    forall i, j :: 0 <= i < j < |s| ==> key(s[i]) <= key(s[j])
  }

  lemma {:induction false} InsertByKeySorts<T>(s: seq<T>, x: T, key: T -> nat)
    requires SortedBy(s, key)
    ensures SortedBy(InsertByKey(s, x, key), key)
    ensures forall y :: y in InsertByKey(s, x, key) ==> y in s || y == x
  {
    if |s| > 0 && key(s[|s| - 1]) > key(x) {
      var init, last := s[..|s| - 1], s[|s| - 1];
      InsertByKeySorts(init, x, key);
      var r := InsertByKey(init, x, key);
      forall i | 0 <= i < |r| ensures key(r[i]) <= key(last) {
        assert r[i] in r;
        if r[i] in init {
          var k :| 0 <= k < |init| && init[k] == r[i];
          assert key(s[k]) <= key(s[|s| - 1]);
        }
      }
    }
  }

  lemma {:induction false} InsertByKeyKeeps<T>(s: seq<T>, x: T, key: T -> nat)
    ensures multiset(InsertByKey(s, x, key)) == multiset(s) + multiset{x}
  {
    if |s| > 0 && key(s[|s| - 1]) > key(x) {
      InsertByKeyKeeps(s[..|s| - 1], x, key);
      assert s == s[..|s| - 1] + [s[|s| - 1]];
    }
  }

  lemma {:induction false} SortByKeySorts<T>(s: seq<T>, key: T -> nat)
    ensures SortedBy(SortByKey(s, key), key)
    ensures multiset(SortByKey(s, key)) == multiset(s)
  {
    if |s| > 0 {
      var init := s[..|s| - 1];
      SortByKeySorts(init, key);
      InsertByKeySorts(SortByKey(init, key), s[|s| - 1], key);
      InsertByKeyKeeps(SortByKey(init, key), s[|s| - 1], key);
      assert s == init + [s[|s| - 1]];
    }
  }

  lemma {:induction false} SortedIsFixed<T>(s: seq<T>, key: T -> nat)
    requires SortedBy(s, key)
    ensures SortByKey(s, key) == s
  {
    if |s| > 0 {
      var init := s[..|s| - 1];
      SortedIsFixed(init, key);
      assert |init| > 0 ==> key(init[|init| - 1]) <= key(s[|s| - 1]);
      assert s == init + [s[|s| - 1]];
    }
  }

  // ---------------------------------------------------------------- expansion

  /** `s` stands for field `i` of the list: the field itself, its flag or its value. */
  ghost predicate IsPartOf(s: Source, fields: seq<Field>, i: nat) {
    && i < |fields|
    && s.ordinal == i
    && (if fields[i].nullableValueKind then
          (s.sub == Some(0) && s.field == fields[i].(kind := Kind.Bool)) ||
          (s.sub == Some(1) && s.field == fields[i])
        else
          s.sub == None && s.field == fields[i])
  }

  lemma {:induction false} ExpandParts(fields: seq<Field>)
    ensures SortedBy(Expand(fields), SourceKey)
    ensures forall s :: s in Expand(fields) ==>
      IsPartOf(s, fields, s.ordinal) && s.minVersion == 0
  {
    hide ExpandField;
    if |fields| > 0 {
      var n := |fields| - 1;
      var init := fields[..n];
      ExpandParts(init);
      var a, b := Expand(init), ExpandField(fields[n], n);
      FieldParts(fields, n);
      assert Expand(fields) == a + b;
      forall s | s in a ensures IsPartOf(s, fields, s.ordinal) && SourceKey(s) < 3 * n {
        assert IsPartOf(s, init, s.ordinal);
      }
    }
  }

  /** The one or two sources of field `n`, in the order of their keys. */
  lemma FieldParts(fields: seq<Field>, n: nat)
    requires n < |fields|
    ensures var b := ExpandField(fields[n], n);
      && SortedBy(b, SourceKey) && forall s :: s in b ==>
        IsPartOf(s, fields, n) && s.minVersion == 0 && SourceKey(s) >= 3 * n
  {
  }

  lemma {:induction false} ExpandCovers(fields: seq<Field>, i: nat)
    requires i < |fields|
    ensures forall s :: s in ExpandField(fields[i], i) ==> s in Expand(fields)
  {
    var n := |fields| - 1;
    if i < n {
      ExpandCovers(fields[..n], i);
    }
  }

  // ---------------------------------------------------------------- versions

  /** What the packer accepts: versions that never decrease, no unversioned field after a
      versioned one, and no versioned field that is a non-nullable reference. */
  ghost predicate Accepted(fields: seq<Field>) {
    && (forall i, j :: 0 <= i < j < |fields| ==> fields[i].Version() <= fields[j].Version())
    && (forall i :: 0 <= i < |fields| && fields[i].Version() != 0 ==>
          !fields[i].IsNonNullableReference())
  }

  ghost predicate VersionsFrom(src: seq<Source>, next: nat) {
    && (forall i :: 0 <= i < |src| ==> next <= src[i].field.Version())
    && (forall i, j :: 0 <= i < j < |src| ==>
          src[i].field.Version() <= src[j].field.Version())
    && (forall i :: 0 <= i < |src| && src[i].field.Version() != 0 ==>
          !src[i].field.IsNonNullableReference())
  }

  function WithVersion(s: Source): Source {
    s.(minVersion := s.field.Version())
  }

  lemma {:induction false} AssignVersionsExact(src: seq<Source>, next: nat)
    ensures AssignVersions(src, next).Ok? <==> VersionsFrom(src, next)
    ensures AssignVersions(src, next).Ok? ==>
      var r := AssignVersions(src, next).value;
      |r| == |src| && forall i :: 0 <= i < |src| ==> r[i] == WithVersion(src[i])
  {
    if |src| > 0 {
      var v := src[0].field.Version();
      AssignVersionsExact(src[1..], v);
      assert forall i :: 0 <= i < |src[1..]| ==> src[1..][i] == src[i + 1];
      if VersionsFrom(src, next) {
        assert VersionsFrom(src[1..], v);
      }
      if AssignVersions(src, next).Ok? {
        assert VersionsFrom(src[1..], v);
        forall i | 0 <= i < |src| ensures v <= src[i].field.Version() {
          if i > 0 { assert src[i] == src[1..][i - 1]; }
        }
        forall i, j | 0 <= i < j < |src|
          ensures src[i].field.Version() <= src[j].field.Version()
        {
          if i > 0 { assert src[i] == src[1..][i - 1]; assert src[j] == src[1..][j - 1]; }
        }
        forall i | 0 <= i < |src| && src[i].field.Version() != 0
          ensures !src[i].field.IsNonNullableReference()
        {
          if i > 0 { assert src[i] == src[1..][i - 1]; }
        }
      }
    }
  }

  // ---------------------------------------------------------------- first fit

  /** `a` ends before `b` begins, or both are booleans in one byte at rising bits. */
  ghost predicate Before(a: PackedField, b: PackedField) {
    || a.End() <= b.offset
    || (a.src.field.kind.Bool? && b.src.field.kind.Bool? && a.offset == b.offset && a.bit < b.bit)
  }

  ghost predicate WellPlaced(p: PackedField) {
    && p.offset % p.src.field.kind.Alignment() == 0
    && p.bit < 8
    && (p.bit != 0 ==> p.src.field.kind.Bool?)
  }

  ghost predicate Laid(dst: seq<PackedField>) {
    && (forall i, j :: 0 <= i < j < |dst| ==> Before(dst[i], dst[j]))
    && (forall i :: 0 <= i < |dst| ==> WellPlaced(dst[i]))
    && (|dst| > 0 ==> dst[0].offset == 0)
  }

  lemma PadAligns(offset: nat, alignment: nat)
    requires alignment in {1, 2, 4, 8}
    ensures (offset + Pad(offset, alignment)) % alignment == 0
    ensures Pad(offset, alignment) < alignment
  {
    var q, r := offset / alignment, offset % alignment;
    if r == 0 {
      ModUnique(alignment, alignment, 1, 0);
    } else {
      ModUnique(alignment - r, alignment, 0, alignment - r);
      assert offset + (alignment - r) == (q + 1) * alignment;
      ModUnique(offset + (alignment - r), alignment, q + 1, 0);
    }
  }

  lemma FieldOffsetFits(s: Source, last: PackedField)
    requires WellPlaced(last)
    ensures var (offset, bit) := FieldOffset(s, last);
      WellPlaced(PackedField(s, offset, bit)) && Before(last, PackedField(s, offset, bit))
  {
    PadAligns(last.End(), s.field.kind.Alignment());
  }

  /** `r` is `dst` with `x`, placing `s`, put in at position `k`. */
  ghost predicate Inserted(dst: seq<PackedField>, r: seq<PackedField>, s: Source, k: nat, x: PackedField) {
    k <= |dst| && x.src == s && r == dst[..k] + [x] + dst[k..]
  }

  lemma {:induction false} PlaceFromLaid(dst: seq<PackedField>, s: Source, i: nat)
    requires Laid(dst) && 1 <= i <= |dst|
    ensures Laid(PlaceFrom(dst, s, i))
    ensures exists k, x: PackedField :: Inserted(dst, PlaceFrom(dst, s, i), s, k, x)
    decreases |dst| - i
  {
    var (offset, bit) := FieldOffset(s, dst[i - 1]);
    if i == |dst| || offset + s.field.kind.Size() <= dst[i].offset {
      FitsHere(dst, s, i);
      assert Inserted(dst, PlaceFrom(dst, s, i), s, i, PackedField(s, offset, bit));
    } else {
      hide Laid, Inserted, FieldOffset;
      PlaceFromLaid(dst, s, i + 1);
    }
  }

  /** Placing into the hole before position `i` keeps the layout correct. */
  lemma FitsHere(dst: seq<PackedField>, s: Source, i: nat)
    requires Laid(dst) && 1 <= i <= |dst|
    requires var (offset, bit) := FieldOffset(s, dst[i - 1]);
      i == |dst| || offset + s.field.kind.Size() <= dst[i].offset
    ensures var (offset, bit) := FieldOffset(s, dst[i - 1]);
      Laid(dst[..i] + [PackedField(s, offset, bit)] + dst[i..])
  {
    hide FieldOffset;
    var (offset, bit) := FieldOffset(s, dst[i - 1]);
    var x := PackedField(s, offset, bit);
    FieldOffsetFits(s, dst[i - 1]);
    forall k | 0 <= k < i ensures Before(dst[k], x) {
      if k < i - 1 { assert Before(dst[k], dst[i - 1]); }
    }
    forall k | i <= k < |dst| ensures Before(x, dst[k]) {
      if i < k { assert Before(dst[i], dst[k]); }
    }
  }

  /** Placing keeps the layout correct and inserts one field without moving any other. */
  lemma PlaceInserts(dst: seq<PackedField>, s: Source) returns (k: nat, x: PackedField)
    requires Laid(dst)
    ensures Inserted(dst, Place(dst, s), s, k, x)
    ensures Laid(Place(dst, s))
  {
    if |dst| == 0 {
      k, x := 0, PackedField(s, 0, 0);
      assert Pad(0, 1) == 0;
    } else {
      PlaceFromLaid(dst, s, 1);
      k, x :| Inserted(dst, PlaceFrom(dst, s, 1), s, k, x);
    }
  }

  function Sources(dst: seq<PackedField>): (r: seq<Source>)
    ensures |r| == |dst|
  {
    seq(|dst|, i requires 0 <= i < |dst| => dst[i].src)
  }

  lemma SourcesInserted(dst: seq<PackedField>, r: seq<PackedField>, s: Source, k: nat, x: PackedField)
    requires Inserted(dst, r, s, k, x)
    ensures multiset(Sources(r)) == multiset(Sources(dst)) + multiset{s}
  {
    var d := Sources(dst);
    assert Sources(r) == d[..k] + [s] + d[k..];
    assert d == d[..k] + d[k..];
  }

  lemma {:induction false} PlaceAllLaid(src: seq<Source>)
    ensures Laid(PlaceAll(src))
    ensures multiset(Sources(PlaceAll(src))) == multiset(src)
  {
    if |src| > 0 {
      hide Place, PlaceFrom, Laid, Inserted, Sources;
      var init, s := src[..|src| - 1], src[|src| - 1];
      PlaceAllLaid(init);
      var k, x := PlaceInserts(PlaceAll(init), s);
      SourcesInserted(PlaceAll(init), PlaceAll(src), s, k, x);
      assert src == init + [s];
    }
  }

  lemma RoundUpMonotone(a: nat, b: nat)
    requires a <= b
    ensures a <= a + Pad(a, 8) <= b + Pad(b, 8)
  {
  }

  lemma BeforeEnds(a: PackedField, b: PackedField)
    requires Before(a, b)
    ensures a.End() <= b.End() && a.offset <= b.offset
  {
  }

  /** Every field of a correct layout lies inside the size computed from the last one. */
  lemma InsideSize(dst: seq<PackedField>, i: nat)
    requires Laid(dst) && i < |dst|
    ensures STRUCT_HEADER_SIZE + dst[i].End() <= TotalSize(dst)
    ensures PayloadUpTo(dst[i]) <= PayloadUpTo(dst[|dst| - 1])
  {
    var last := dst[|dst| - 1];
    if i < |dst| - 1 {
      assert Before(dst[i], last);
      BeforeEnds(dst[i], last);
    }
    RoundUpMonotone(dst[i].End(), last.End());
  }

  // ---------------------------------------------------------------- main results

  /** The sources in the order the packer places them. */
  ghost function Ordered(fields: seq<Field>): (r: seq<Source>)
    ensures |r| == |Expand(fields)|
  {
    seq(|Expand(fields)|, i requires 0 <= i < |Expand(fields)| => WithVersion(Expand(fields)[i]))
  }

  lemma PartVersions(fields: seq<Field>, a: Source, b: Source)
    requires Accepted(fields) && IsPartOf(a, fields, a.ordinal) && IsPartOf(b, fields, b.ordinal)
    requires SourceKey(a) <= SourceKey(b)
    ensures a.field.Version() <= b.field.Version()
    ensures a.field.Version() != 0 ==> !a.field.IsNonNullableReference()
  {
    assert a.ordinal <= b.ordinal;
    assert a.field.Version() == fields[a.ordinal].Version();
    assert b.field.Version() == fields[b.ordinal].Version();
  }

  lemma ExpandedVersions(fields: seq<Field>)
    requires Accepted(fields)
    ensures VersionsFrom(Expand(fields), 0)
  {
    hide Expand, Accepted, IsPartOf, SourceKey;
    ExpandParts(fields);
    var e := Expand(fields);
    forall i, j | 0 <= i <= j < |e|
      ensures e[i].field.Version() <= e[j].field.Version()
      ensures e[i].field.Version() != 0 ==> !e[i].field.IsNonNullableReference()
    {
      assert e[i] in e && e[j] in e;
      PartVersions(fields, e[i], e[j]);
    }
  }

  lemma DeclaredVersions(fields: seq<Field>)
    requires VersionsFrom(Expand(fields), 0)
    ensures Accepted(fields)
  {
    ExpandParts(fields);
    var e := Expand(fields);
    forall i, j | 0 <= i < j < |fields| ensures fields[i].Version() <= fields[j].Version() {
      var a := PartIndex(fields, i);
      var b := PartIndex(fields, j);
      assert SourceKey(e[a]) < SourceKey(e[b]);
    }
    forall i | 0 <= i < |fields| && fields[i].Version() != 0
      ensures !fields[i].IsNonNullableReference()
    {
      var a := PartIndex(fields, i);
    }
  }

  /** Where the value (or the field itself) of field `i` stands in the expansion. */
  lemma PartIndex(fields: seq<Field>, i: nat) returns (k: nat)
    requires i < |fields|
    ensures k < |Expand(fields)| && Expand(fields)[k].field == fields[i]
      && Expand(fields)[k].ordinal == i
  {
    ExpandCovers(fields, i);
    var parts := ExpandField(fields[i], i);
    var s := parts[|parts| - 1];
    assert s in Expand(fields);
    k :| 0 <= k < |Expand(fields)| && Expand(fields)[k] == s;
  }

  /** The packer accepts exactly the `Accepted` lists, and then lays out exactly the
      expanded fields: correctly placed, in bounds, in a multiple of 8 bytes. */
  lemma PackIsLayout(fields: seq<Field>)
    ensures PackFields(fields).Ok? <==> Accepted(fields)
    ensures Accepted(fields) ==>
      var p := PackFields(fields).value;
      && p.packedFields == PlaceAll(Ordered(fields))
      && p.size == TotalSize(p.packedFields)
      && multiset(Sources(p.packedFields)) == multiset(Ordered(fields))
      && Laid(p.packedFields)
      && p.size % 8 == 0
      && (forall i :: 0 <= i < |p.packedFields| ==>
            STRUCT_HEADER_SIZE + p.packedFields[i].End() <= p.size)
  {
    SourcesAssigned(fields);
    if Accepted(fields) {
      PlaceAllLaid(Ordered(fields));
      AllInside(PlaceAll(Ordered(fields)));
    }
  }

  /** A last field of whole 8-byte words leaves no padding behind it. */
  lemma LastFills(fields: seq<Field>)
    requires PackFields(fields).Ok? && |PackFields(fields).value.packedFields| > 0
    requires var dst := PackFields(fields).value.packedFields; var kind := dst[|dst| - 1].src.field.kind;
      kind.Struct? || kind.Union?
    ensures var dst := PackFields(fields).value.packedFields;
      STRUCT_HEADER_SIZE + dst[|dst| - 1].End() == PackFields(fields).value.size
  {
    hide AssignVersions, PlaceAll, VersionInfo, SortByKey, Expand;
    PackIsLayout(fields);
    var dst := PackFields(fields).value.packedFields;
    NoPadding(dst[|dst| - 1]);
  }

  lemma NoPadding(p: PackedField)
    requires WellPlaced(p) && (p.src.field.kind.Struct? || p.src.field.kind.Union?)
    ensures PayloadUpTo(p) == p.End()
  {
  }

  lemma AllInside(dst: seq<PackedField>)
    requires Laid(dst)
    ensures TotalSize(dst) % 8 == 0
    ensures forall i :: 0 <= i < |dst| ==> STRUCT_HEADER_SIZE + dst[i].End() <= TotalSize(dst)
  {
    hide Laid, PackedField.End, Pad;
    forall i | 0 <= i < |dst| ensures STRUCT_HEADER_SIZE + dst[i].End() <= TotalSize(dst) {
      InsideSize(dst, i);
    }
    if |dst| > 0 {
      PadAligns(dst[|dst| - 1].End(), 8);
    }
  }

  lemma SourcesAssigned(fields: seq<Field>)
    ensures var src := AssignVersions(SortByKey(Expand(fields), SourceKey), 0);
      if Accepted(fields) then src == Ok(Ordered(fields)) else src.Err?
  {
    hide Expand, SortByKey, AssignVersions, Accepted, VersionsFrom, IsPartOf;
    ExpandParts(fields);
    SortedIsFixed(Expand(fields), SourceKey);
    AssignVersionsExact(Expand(fields), 0);
    if Accepted(fields) {
      ExpandedVersions(fields);
      assert AssignVersions(Expand(fields), 0).value == Ordered(fields);
    } else if VersionsFrom(Expand(fields), 0) {
      DeclaredVersions(fields);
    }
  }

  /** Strictly rising (offset, bit), and no two fields share a bit of the payload. */
  lemma LayoutIsDisjoint(dst: seq<PackedField>, i: nat, j: nat)
    requires Laid(dst) && i < j < |dst|
    ensures dst[i].offset < dst[j].offset || (dst[i].offset == dst[j].offset && dst[i].bit < dst[j].bit)
    ensures dst[i].End() <= dst[j].offset ||
      (dst[i].src.field.kind.Bool? && dst[j].src.field.kind.Bool? && dst[i].bit != dst[j].bit)
  {
    assert Before(dst[i], dst[j]);
  }

  // ---------------------------------------------------------------- no field twice

  /** Each source of the expansion has its own key. */
  lemma {:induction false} ExpandDistinct(fields: seq<Field>)
    ensures forall j, k :: 0 <= j < k < |Expand(fields)| ==> SourceKey(Expand(fields)[j]) < SourceKey(Expand(fields)[k])
  {
    if |fields| > 0 {
      var n := |fields| - 1;
      var a, b := Expand(fields[..n]), ExpandField(fields[n], n);
      ExpandDistinct(fields[..n]);
      ExpandParts(fields[..n]);
      assert Expand(fields) == a + b;
      forall j | 0 <= j < |a| ensures SourceKey(a[j]) < 3 * n {
        assert a[j] in a;
      }
    }
  }

  lemma {:induction false} CountedOnce(s: seq<Source>, x: Source)
    requires forall j, k :: 0 <= j < k < |s| ==> s[j] != s[k]
    ensures multiset(s)[x] <= 1
  {
    if |s| > 0 {
      var init, last := s[..|s| - 1], s[|s| - 1];
      CountedOnce(init, x);
      assert s == init + [last];
      assert last !in init;
    }
  }

  lemma CountedTwice(s: seq<Source>, j: nat, k: nat)
    requires j < k < |s| && s[j] == s[k]
    ensures multiset(s)[s[j]] >= 2
  {
    assert s == s[..k] + s[k..];
    assert s[..k][j] in multiset(s[..k]) && s[k..][0] in multiset(s[k..]);
  }

  /** No source is placed twice. */
  lemma PackedOnce(fields: seq<Field>, j: nat, k: nat)
    requires PackFields(fields).Ok? && j < k < |PackFields(fields).value.packedFields|
    ensures PackFields(fields).value.packedFields[j].src != PackFields(fields).value.packedFields[k].src
  {
    hide PackFields, Expand, Laid, Accepted;
    PackIsLayout(fields);
    ExpandDistinct(fields);
    var dst := PackFields(fields).value.packedFields;
    if dst[j].src == dst[k].src {
      CountedTwice(Sources(dst), j, k);
      CountedOnce(Ordered(fields), dst[j].src);
    }
  }
}
