/** The packer is first fit: a field goes into the first hole that it fits, and every aligned
    place before that is taken. Stated on layouts alone, and this determines them. */
module FirstFit {
  import opened Bytes
  import opened Pack
  import opened PackLayout

  /** The first place behind `last` that suits: a boolean behind a boolean takes its next bit, and
      anything else the first aligned offset. */
  ghost predicate FirstBehind(last: PackedField, x: PackedField) {
    if x.src.field.kind.Bool? && last.src.field.kind.Bool? && last.bit < 7 then
      x.offset == last.offset && x.bit == last.bit + 1
    else
      var alignment := x.src.field.kind.Alignment();
      x.bit == 0 && x.offset % alignment == 0 && last.End() <= x.offset < last.End() + alignment
  }

  /** The first place behind `last` does not end by `next`. */
  ghost predicate NoRoom(last: PackedField, next: PackedField, s: Source) {
    forall x: PackedField :: x.src == s && FirstBehind(last, x) ==> x.End() > next.offset
  }

  /** `x` is put in at position `k`, right behind the field before it, where it fits, and there is no
      room at any position before. */
  ghost predicate Fits(dst: seq<PackedField>, s: Source, k: nat, x: PackedField) {
    && x.src == s && k <= |dst| && (k == 0 <==> |dst| == 0)
    && if k == 0 then x.offset == 0 && x.bit == 0
       else
         && FirstBehind(dst[k - 1], x) && (k < |dst| ==> x.End() <= dst[k].offset)
         && forall j :: 1 <= j < k ==> NoRoom(dst[j - 1], dst[j], s)
  }

  ghost predicate FirstFitStep(dst: seq<PackedField>, s: Source, r: seq<PackedField>) {
    exists k: nat, x: PackedField :: Fits(dst, s, k, x) && Inserted(dst, r, s, k, x)
  }

  // ---------------------------------------------------------------- it determines the layout

  lemma AlignedOnce(a: nat, x: nat, y: nat, alignment: nat)
    requires alignment in {1, 2, 4, 8} && x % alignment == 0 && y % alignment == 0
    requires a <= x < a + alignment && a <= y
    ensures x <= y && (y < a + alignment ==> x == y)
  {
    var p, q := x / alignment, y / alignment;
    assert x == p * alignment && y == q * alignment;
    if p < q { MulGap(p, q, alignment); }
  }

  lemma BehindOnce(last: PackedField, x: PackedField, y: PackedField)
    requires FirstBehind(last, x) && FirstBehind(last, y) && x.src == y.src
    ensures x == y
  {
    var kind := x.src.field.kind;
    if !(kind.Bool? && last.src.field.kind.Bool? && last.bit < 7) {
      AlignedOnce(last.End(), x.offset, y.offset, kind.Alignment());
    }
  }

  lemma FitsOnce(dst: seq<PackedField>, s: Source, k: nat, x: PackedField, k': nat, x': PackedField)
    requires Fits(dst, s, k, x) && Fits(dst, s, k', x')
    ensures k == k' && x == x'
  {
    hide FirstBehind;
    if 0 < k < k' {
      NoRoomBefore(dst, s, k', x', k);
    } else if 0 < k' < k {
      NoRoomBefore(dst, s, k, x, k');
    } else if 0 < k == k' {
      BehindOnce(dst[k - 1], x, x');
    }
  }

  lemma NoRoomBefore(dst: seq<PackedField>, s: Source, k: nat, x: PackedField, j: nat)
    requires Fits(dst, s, k, x) && 1 <= j < k
    ensures NoRoom(dst[j - 1], dst[j], s)
  {
  }

  // ---------------------------------------------------------------- and fills every place before

  /** How many fields end by `o`: in a correct layout they are the first ones. */
  lemma {:induction false} EndedBy(dst: seq<PackedField>, o: nat, n: nat) returns (j: nat)
    requires Laid(dst) && n <= |dst|
    ensures j <= n && (j > 0 ==> dst[j - 1].End() <= o) && (j < n ==> dst[j].End() > o)
  {
    if n == 0 || dst[n - 1].End() <= o {
      j := n;
    } else {
      j := EndedBy(dst, o, n - 1);
    }
  }

  /** Every aligned offset before the one a field gets overlaps a field placed already. */
  lemma NothingBefore(dst: seq<PackedField>, s: Source, k: nat, x: PackedField, o: nat)
    requires Laid(dst) && Fits(dst, s, k, x) && o < x.offset && o % s.field.kind.Alignment() == 0
    ensures exists i :: 0 <= i < |dst| && dst[i].offset < o + s.field.kind.Size() && o < dst[i].End()
  {
    hide FirstBehind, NoRoom;
    var size := s.field.kind.Size();
    if forall i :: 0 <= i < |dst| ==> dst[i].offset >= o + size || dst[i].End() <= o {
      var j := EndedBy(dst, o, |dst|);
      assert dst[0].offset == 0;
      assert j > 0;
      if j < k {
        NoRoomBefore(dst, s, k, x, j);
        RoomThere(dst[j - 1], dst[j], s, o);
      } else {
        if k < j { assert Before(dst[k - 1], dst[j - 1]); BeforeEnds(dst[k - 1], dst[j - 1]); }
        BehindEarly(dst[k - 1], x, o);
      }
    }
  }

  /** The first place behind `last` is no later than any aligned place behind it. */
  lemma BehindEarly(last: PackedField, x: PackedField, o: nat)
    requires FirstBehind(last, x) && last.End() <= o && o % x.src.field.kind.Alignment() == 0
    ensures x.offset <= o
  {
    if !(x.src.field.kind.Bool? && last.src.field.kind.Bool? && last.bit < 7) {
      AlignedOnce(last.End(), x.offset, o, x.src.field.kind.Alignment());
    }
  }

  lemma RoomThere(last: PackedField, next: PackedField, s: Source, o: nat)
    requires last.End() <= o && o + s.field.kind.Size() <= next.offset && o % s.field.kind.Alignment() == 0
    ensures !NoRoom(last, next, s)
  {
    var x := TheBehind(last, s);
    BehindEarly(last, x, o);
  }

  lemma TheBehind(last: PackedField, s: Source) returns (x: PackedField)
    ensures x.src == s && FirstBehind(last, x)
  {
    var (offset, bit) := FieldOffset(s, last);
    x := PackedField(s, offset, bit);
    PadAligns(last.End(), s.field.kind.Alignment());
  }

  // ---------------------------------------------------------------- the packer does it

  lemma {:induction false} PlaceFromFits(dst: seq<PackedField>, s: Source, i: nat) returns (k: nat, x: PackedField)
    requires Laid(dst) && 1 <= i <= |dst| && forall j :: 1 <= j < i ==> NoRoom(dst[j - 1], dst[j], s)
    ensures Fits(dst, s, k, x) && Inserted(dst, PlaceFrom(dst, s, i), s, k, x)
    decreases |dst| - i
  {
    hide FirstBehind, NoRoom, Laid;
    x := Behind(dst[i - 1], s);
    if i == |dst| || x.End() <= dst[i].offset {
      k := i;
      assert dst[..|dst|] == dst && dst[|dst|..] == [];
    } else {
      NoRoomThere(dst[i - 1], dst[i], x);
      k, x := PlaceFromFits(dst, s, i + 1);
    }
  }

  /** What the packer computes is that first place. */
  lemma Behind(last: PackedField, s: Source) returns (x: PackedField)
    ensures x.src == s && FirstBehind(last, x) && (x.offset, x.bit) == FieldOffset(s, last)
  {
    var (offset, bit) := FieldOffset(s, last);
    x := PackedField(s, offset, bit);
    PadAligns(last.End(), s.field.kind.Alignment());
  }

  lemma NoRoomThere(last: PackedField, next: PackedField, x: PackedField)
    requires FirstBehind(last, x) && x.End() > next.offset
    ensures NoRoom(last, next, x.src)
  {
    forall y: PackedField | y.src == x.src && FirstBehind(last, y) ensures y.End() > next.offset {
      BehindOnce(last, x, y);
    }
  }

  lemma PlaceIsFirstFit(dst: seq<PackedField>, s: Source)
    requires Laid(dst)
    ensures FirstFitStep(dst, s, Place(dst, s))
  {
    hide Laid, Fits;
    if |dst| == 0 {
      var x := PackedField(s, 0, 0);
      assert Fits(dst, s, 0, x) by { FitsEmpty(dst, s, x); }
      assert Inserted(dst, Place(dst, s), s, 0, x);
    } else {
      var k, x := PlaceFromFits(dst, s, 1);
    }
  }

  lemma FitsEmpty(dst: seq<PackedField>, s: Source, x: PackedField)
    requires |dst| == 0 && x == PackedField(s, 0, 0)
    ensures Fits(dst, s, 0, x)
  {
  }

  /** The layouts on the way, one for each field placed. */
  ghost predicate FirstFitRun(src: seq<Source>, stages: seq<seq<PackedField>>) {
    && |stages| == |src| + 1 && stages[0] == []
    && forall i :: 0 <= i < |src| ==> Laid(stages[i]) && FirstFitStep(stages[i], src[i], stages[i + 1])
  }

  lemma {:induction false} PlaceAllRuns(src: seq<Source>) returns (stages: seq<seq<PackedField>>)
    ensures FirstFitRun(src, stages) && stages[|src|] == PlaceAll(src)
  {
    hide Laid, FirstFitStep, Place;
    stages := [[]];
    if |src| > 0 {
      var n := |src| - 1;
      var before := PlaceAllRuns(src[..n]);
      PlaceAllLaid(src[..n]);
      PlaceIsFirstFit(PlaceAll(src[..n]), src[n]);
      stages := before + [PlaceAll(src)];
      forall i | 0 <= i < |src| ensures Laid(stages[i]) && FirstFitStep(stages[i], src[i], stages[i + 1]) {
        if i < n { assert src[..n][i] == src[i] && stages[i] == before[i] && stages[i + 1] == before[i + 1]; }
      }
    }
  }

  lemma StepOnce(dst: seq<PackedField>, s: Source, r: seq<PackedField>, r': seq<PackedField>)
    requires FirstFitStep(dst, s, r) && FirstFitStep(dst, s, r')
    ensures r == r'
  {
    hide Fits;
    var k: nat, x: PackedField :| Fits(dst, s, k, x) && Inserted(dst, r, s, k, x);
    var k': nat, x': PackedField :| Fits(dst, s, k', x') && Inserted(dst, r', s, k', x');
    FitsOnce(dst, s, k, x, k', x');
  }

  lemma {:induction false} RunOnce(src: seq<Source>, a: seq<seq<PackedField>>, b: seq<seq<PackedField>>, n: nat)
    requires FirstFitRun(src, a) && FirstFitRun(src, b) && n <= |src|
    ensures a[n] == b[n]
  {
    hide Laid, FirstFitStep;
    if n > 0 {
      RunOnce(src, a, b, n - 1);
      StepOnce(a[n - 1], src[n - 1], a[n], b[n]);
    }
  }

  /** The packer's layout of every list it accepts is the first-fit one, field by field in their
      order, and there is no other. */
  lemma PackIsFirstFit(fields: seq<Field>, layout: seq<PackedField>)
    requires Accepted(fields)
    ensures PackFields(fields).Ok?
    ensures layout == PackFields(fields).value.packedFields <==>
      exists stages :: FirstFitRun(Ordered(fields), stages) && stages[|Ordered(fields)|] == layout
  {
    hide Laid, FirstFitStep;
    PackIsLayout(fields);
    var src := Ordered(fields);
    var stages := PlaceAllRuns(src);
    if other :| FirstFitRun(src, other) && other[|src|] == layout {
      RunOnce(src, stages, other, |src|);
    }
  }
}
