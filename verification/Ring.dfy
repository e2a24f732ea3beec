/** The ring buffer: a circular byte queue over memory it may share with another view. */
module Ring {
  import opened Bytes

  // ---------------------------------------------------------------- circular arithmetic

  /** A position less than one lap past the end, brought back into the buffer. */
  function Wrap(x: nat, cap: nat): (r: nat)
    requires x < 2 * cap
    ensures r < cap
  {
    if x >= cap then x - cap else x
  }

  /** How far `i` lies past `at`, going forward round the buffer. */
  function Past(at: nat, i: nat, cap: nat): (d: nat)
    requires at < cap && i < cap
    ensures d < cap && Wrap(at + d, cap) == i
  {
    if i >= at then i - at else i + cap - at
  }

  lemma PastWrap(at: nat, d: nat, cap: nat)
    requires at < cap && d < cap
    ensures Past(at, Wrap(at + d, cap), cap) == d
  {
  }

  lemma WrapWithin(x: nat, cap: nat)
    requires x < cap
    ensures Wrap(x, cap) == x
  {
  }

  /** Two steps round the buffer are one step, as long as they stay within a lap. */
  lemma WrapTwice(x: nat, a: nat, b: nat, cap: nat)
    requires x < cap && a + b <= cap
    ensures Wrap(Wrap(x + a, cap) + b, cap) == Wrap(x + a + b, cap)
  {
  }

  /** `n` bytes from `offset` on, going round. */
  function Slice(mem: seq<byte>, offset: nat, n: nat): (r: seq<byte>)
    requires offset < |mem| && n <= |mem|
    ensures |r| == n
  {
    seq(n, i requires 0 <= i < n => mem[Wrap(offset + i, |mem|)])
  }

  /** `mem` with `data` written from `at` on, going round. */
  function PutAt(mem: seq<byte>, at: nat, data: seq<byte>): (r: seq<byte>)
    requires at < |mem| && |data| <= |mem|
    ensures |r| == |mem|
  {
    seq(|mem|, i requires 0 <= i < |mem| =>
      if Past(at, i, |mem|) < |data| then data[Past(at, i, |mem|)] else mem[i])
  }

  lemma SliceOfPut(mem: seq<byte>, at: nat, data: seq<byte>)
    requires at < |mem| && |data| <= |mem|
    ensures Slice(PutAt(mem, at, data), at, |data|) == data
  {
    forall d | 0 <= d < |data| ensures Slice(PutAt(mem, at, data), at, |data|)[d] == data[d] {
      PastWrap(at, d, |mem|);
    }
  }

  /** Writing behind a range leaves it alone as long as the two fit in the buffer together. */
  lemma SliceBesidePut(mem: seq<byte>, o: nat, n: nat, data: seq<byte>)
    requires o < |mem| && n + |data| <= |mem|
    ensures Slice(PutAt(mem, Wrap(o + n, |mem|), data), o, n) == Slice(mem, o, n)
  {
    var at, m' := Wrap(o + n, |mem|), PutAt(mem, Wrap(o + n, |mem|), data);
    forall i | 0 <= i < n ensures Slice(m', o, n)[i] == Slice(mem, o, n)[i] {
      assert Past(at, Wrap(o + i, |mem|), |mem|) >= |data|;
    }
  }

  lemma SliceJoin(mem: seq<byte>, o: nat, n: nat, m: nat)
    requires o < |mem| && n + m <= |mem|
    ensures Slice(mem, o, n + m) == Slice(mem, o, n) + Slice(mem, Wrap(o + n, |mem|), m)
  {
    var a, b := Slice(mem, o, n), Slice(mem, Wrap(o + n, |mem|), m);
    forall i | 0 <= i < n + m ensures Slice(mem, o, n + m)[i] == (a + b)[i] {
      if i >= n { WrapTwice(o, n, i - n, |mem|); }
    }
  }

  lemma SliceDrop(mem: seq<byte>, o: nat, n: nat, k: nat)
    requires o < |mem| && k <= n <= |mem|
    ensures Slice(mem, o, n)[k..] == Slice(mem, Wrap(o + k, |mem|), n - k)
    ensures Slice(mem, o, n)[..k] == Slice(mem, o, k)
  {
    SliceJoin(mem, o, k, n - k);
  }

  /** Appending: what stands behind a range after writing there continues it. */
  lemma SliceExtends(mem: seq<byte>, o: nat, n: nat, data: seq<byte>)
    requires o < |mem| && n + |data| <= |mem|
    ensures Slice(PutAt(mem, Wrap(o + n, |mem|), data), o, n + |data|) == Slice(mem, o, n) + data
  {
    var m' := PutAt(mem, Wrap(o + n, |mem|), data);
    SliceJoin(m', o, n, |data|);
    SliceBesidePut(mem, o, n, data);
    SliceOfPut(mem, Wrap(o + n, |mem|), data);
  }

  lemma PutNothing(mem: seq<byte>, at: nat)
    requires at < |mem|
    ensures PutAt(mem, at, []) == mem
  {
  }

  // ---------------------------------------------------------------- the buffer

  /** A contiguous stretch of the buffer captured for a two-phase operation. */
  datatype Span = Span(start: nat, len: nat)

  /** The serialized range: offset and size as 32-bit numbers. */
  datatype SerializedState = SerializedState(offset: nat, size: nat)

  class RingBuffer {
    const mapping: array<byte>
    /** The data range: its first byte and its size. */
    var offset: nat
    var size: nat

    ghost predicate Valid()
      reads this
    {
      mapping.Length > 0 && offset < mapping.Length && size <= mapping.Length
    }

    function Capacity(): nat { mapping.Length }

    function DataSize(): nat
      reads this
    {
      size
    }

    function AvailableCapacity(): nat
      requires Valid()
      reads this
    {
      mapping.Length - size
    }

    /** The position just past the data. */
    function End(): (e: nat)
      requires Valid()
      reads this
      ensures e < mapping.Length
    {
      Wrap(offset + size, mapping.Length)
    }

    /** The bytes in the buffer, oldest first. */
    ghost function Contents(): seq<byte>
      requires Valid()
      reads this, mapping
    {
      Slice(mapping[..], offset, size)
    }

    constructor (mapping: array<byte>)
      requires mapping.Length > 0
      ensures Valid() && this.mapping == mapping && offset == 0 && size == 0
    {
      this.mapping := mapping;
      offset, size := 0, 0;
    }

    /** Append the longest prefix of `source` that fits, in at most two pieces. */
    method Write(source: seq<byte>) returns (written: nat)
      requires Valid()
      modifies this`size, mapping
      ensures Valid() && written == Min(|source|, mapping.Length - old(size))
      ensures size == old(size) + written
      ensures mapping[..] == PutAt(old(mapping[..]), old(End()), source[..written])
      ensures Contents() == old(Contents()) + source[..written]
    {
      var free := End();
      var cap, room := mapping.Length, mapping.Length - size;
      var first := Min(|source|, Min(room, cap - free));
      var second := Min(|source| - first, room - first);
      written := first + second;
      ghost var was := mapping[..];
      forall i | 0 <= i < first { mapping[free + i] := source[i]; }
      forall i | 0 <= i < second { mapping[i] := source[first + i]; }
      assert mapping[..] == PutAt(was, free, source[..written]);
      SliceExtends(was, offset, size, source[..written]);
      var ok := ExtendDataRange(written);
    }

    /** Write all of `source` or nothing. */
    method WriteAll(source: seq<byte>) returns (ok: bool)
      requires Valid()
      modifies this`size, mapping
      ensures Valid() && ok == (|source| <= mapping.Length - old(size))
      ensures ok ==> size == old(size) + |source| && mapping[..] == PutAt(old(mapping[..]), old(End()), source)
      ensures ok ==> Contents() == old(Contents()) + source
      ensures !ok ==> size == old(size) && mapping[..] == old(mapping[..])
    {
      if |source| > AvailableCapacity() { return false; }
      var n := Write(source);
      assert source[..n] == source;
      ok := true;
    }

    /** Copy up to `n` bytes from the front, leaving them in the buffer. */
    method Peek(n: nat) returns (data: seq<byte>)
      requires Valid()
      ensures data == Contents()[..Min(n, size)]
    {
      var cap := mapping.Length;
      var first := Min(n, Min(size, cap - offset));
      var second := Min(n - first, size - first);
      data := mapping[offset..offset + first] + mapping[..second];
      forall i | 0 <= i < |data| ensures data[i] == Contents()[i] {
        assert Contents()[i] == mapping[..][Wrap(offset + i, cap)];
        if i < first {
          assert data[i] == mapping[offset + i];
        } else {
          assert first == cap - offset;
          assert data[i] == mapping[i - first];
        }
      }
    }

    method PeekAll(n: nat) returns (ok: bool, data: seq<byte>)
      requires Valid()
      ensures ok == (n <= size) && data == (if ok then Contents()[..n] else [])
    {
      if n > size { return false, []; }
      data := Peek(n);
      ok := true;
    }

    /** Take up to `n` bytes from the front. */
    method Read(n: nat) returns (data: seq<byte>)
      requires Valid()
      modifies this
      ensures Valid() && data == old(Contents())[..Min(n, old(size))]
      ensures Contents() == old(Contents())[Min(n, old(size))..]
      ensures offset == Wrap(old(offset) + |data|, mapping.Length) && size == old(size) - |data|
    {
      data := Peek(n);
      var ok := DiscardAll(|data|);
    }

    method ReadAll(n: nat) returns (ok: bool, data: seq<byte>)
      requires Valid()
      modifies this
      ensures Valid() && ok == (n <= old(size)) && data == (if ok then old(Contents())[..n] else [])
      ensures Contents() == old(Contents())[|data|..]
      ensures offset == Wrap(old(offset) + |data|, mapping.Length) && size == old(size) - |data|
    {
      if n > size { return false, []; }
      data := Read(n);
      ok := true;
    }

    method Discard(n: nat) returns (discarded: nat)
      requires Valid()
      modifies this
      ensures Valid() && discarded == Min(n, old(size)) && Contents() == old(Contents())[discarded..]
      ensures offset == Wrap(old(offset) + discarded, mapping.Length) && size == old(size) - discarded
    {
      discarded := Min(n, size);
      var ok := DiscardAll(discarded);
    }

    /** Drop `n` bytes from the front, or nothing when there are fewer. */
    method DiscardAll(n: nat) returns (ok: bool)
      requires Valid()
      modifies this
      ensures Valid() && ok == (n <= old(size))
      ensures ok ==> Contents() == old(Contents())[n..]
      ensures ok ==> offset == Wrap(old(offset) + n, mapping.Length) && size == old(size) - n
      ensures !ok ==> offset == old(offset) && size == old(size)
    {
      if n > size { return false; }
      SliceDrop(mapping[..], offset, size, n);
      offset, size := Wrap(offset + n, mapping.Length), size - n;
      ok := true;
    }

    /** Take in `n` bytes already written behind the data, or nothing when they cannot fit. */
    method ExtendDataRange(n: nat) returns (ok: bool)
      requires Valid()
      modifies this`size
      ensures Valid() && ok == (n <= mapping.Length - old(size))
      ensures size == old(size) + (if ok then n else 0)
      ensures ok ==> Contents() == old(Contents()) + Slice(mapping[..], old(End()), n)
    {
      if n > AvailableCapacity() { return false; }
      SliceJoin(mapping[..], offset, size, n);
      size := size + n;
      ok := true;
    }

    /** The first contiguous stretch of free space, right behind the data. */
    function AvailableCapacityView(): (s: Span)
      requires Valid()
      reads this
      ensures s.start == End() && s.start + s.len <= mapping.Length && s.len <= AvailableCapacity()
      ensures s.len == 0 <==> AvailableCapacity() == 0
    {
      Span(End(), Min(mapping.Length - size, mapping.Length - End()))
    }

    /** The first contiguous stretch of data. */
    function ReadableDataView(): (s: Span)
      requires Valid()
      reads this
      ensures s.start == offset && s.start + s.len <= mapping.Length && s.len <= size
      ensures s.len == 0 <==> size == 0
    {
      Span(offset, Min(size, mapping.Length - offset))
    }

    function Serialize(): SerializedState
      reads this
    {
      SerializedState(offset % 0x1_0000_0000, size % 0x1_0000_0000)
    }

    /** Adopt a serialized range, unless it does not belong to a buffer of this capacity. */
    method Deserialize(s: SerializedState) returns (ok: bool)
      requires Valid()
      modifies this
      ensures Valid() && ok == (s.offset < mapping.Length && s.size <= mapping.Length)
      ensures ok ==> Contents() == Slice(mapping[..], s.offset, s.size)
      ensures ok ==> offset == s.offset && size == s.size
      ensures !ok ==> offset == old(offset) && size == old(size)
    {
      if s.offset >= mapping.Length || s.size > mapping.Length { return false; }
      offset, size := s.offset, s.size;
      ok := true;
    }
  }

  /** Another view over the same bytes that adopts a serialized range holds the same data,
      when the capacity fits in 32 bits. */
  method TransferView(from: RingBuffer, to: RingBuffer) returns (ok: bool)
    requires from.Valid() && to.Valid() && from != to && from.mapping == to.mapping
    requires from.mapping.Length < 0x1_0000_0000
    modifies to
    ensures ok && to.Valid() && to.Contents() == from.Contents()
  {
    var s := from.Serialize();
    ok := to.Deserialize(s);
  }
}
