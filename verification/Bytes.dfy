/** Byte buffers as the wire codec sees them: little-endian integers, single bits, and
    writes that first grow the buffer with zeros. */
module Bytes {

  type byte = x: int | 0 <= x < 256

  const TWO_32: nat := 0x1_0000_0000
  const TWO_64: nat := 0x1_0000_0000_0000_0000

  function Max(a: int, b: int): int {
    if a < b then b else a
  }

  function Min(a: int, b: int): int {
    if a < b then a else b
  }

  // ---------------------------------------------------------------- little-endian integers

  function Pow256(k: nat): (r: nat)
    ensures r >= 1
  {
    if k == 0 then 1 else 256 * Pow256(k - 1)
  }

  /** The low `k` bytes of `n`, least significant first (so wider numbers are truncated). */
  function LE(n: nat, k: nat): (s: seq<byte>)
    ensures |s| == k
  {
    if k == 0 then [] else [n % 256] + LE(n / 256, k - 1)
  }

  function FromLE(s: seq<byte>): nat {
    if |s| == 0 then 0 else s[0] + 256 * FromLE(s[1..])
  }

  lemma {:induction false} FromLERound(n: nat, k: nat)
    ensures FromLE(LE(n, k)) == n % Pow256(k)
    ensures n < Pow256(k) ==> FromLE(LE(n, k)) == n
  {
    if k > 0 {
      FromLERound(n / 256, k - 1);
      var m := Pow256(k - 1);
      assert LE(n, k)[1..] == LE(n / 256, k - 1);
      ModSplit(n, m);
    }
  }

  lemma ModSplit(n: nat, m: nat)
    requires m >= 1
    ensures n % (256 * m) == n % 256 + 256 * ((n / 256) % m)
    ensures n < 256 * m ==> n % 256 + 256 * ((n / 256) % m) == n
  {
    var q, r := (n / 256) / m, (n / 256) % m;
    assert n / 256 == q * m + r;
    var low := n % 256 + 256 * r;
    assert n == q * (256 * m) + low;
    assert 0 <= low < 256 * m;
    ModUnique(n, 256 * m, q, low);
    if n < 256 * m {
      assert n / 256 < m;
    }
  }

  lemma ModUnique(n: nat, m: nat, q: nat, r: nat)
    requires n == q * m + r && r < m
    ensures n % m == r && n / m == q
  {
    var q', r' := n / m, n % m;
    assert n == q' * m + r';
    if q' < q {
      MulGap(q', q, m);
    } else if q < q' {
      MulGap(q, q', m);
    }
  }

  lemma MulGap(a: nat, b: nat, m: nat)
    requires a < b
    ensures b * m >= a * m + m
  {
    var d := b - a - 1;
    assert b * m == (a + 1 + d) * m == a * m + m + d * m;
  }

  lemma {:induction false} FromLEBound(s: seq<byte>)
    ensures FromLE(s) < Pow256(|s|)
  {
    if |s| > 0 {
      FromLEBound(s[1..]);
    }
  }

  lemma Pow256Values()
    ensures Pow256(1) == 0x100
    ensures Pow256(2) == 0x1_0000
    ensures Pow256(4) == 0x1_0000_0000
    ensures Pow256(8) == 0x1_0000_0000_0000_0000
  {
    assert Pow256(3) == 0x100_0000;
    assert Pow256(5) == 0x100_0000_0000;
    assert Pow256(6) == 0x1_0000_0000_0000;
    assert Pow256(7) == 0x100_0000_0000_0000;
  }

  // ---------------------------------------------------------------- bits

  function Pow2(i: nat): (r: nat)
    requires i < 8
    ensures r >= 1
  {
    match i
    case 0 => 1
    case 1 => 2
    case 2 => 4
    case 3 => 8
    case 4 => 16
    case 5 => 32
    case 6 => 64
    case 7 => 128
  }

  /** `(b >> i) & 1 != 0`. */
  predicate Bit(b: byte, i: nat)
    requires i < 8
  {
    (b / Pow2(i)) % 2 == 1
  }

  /** `b | (1 << i)` when `on`, `b & !(1 << i)` otherwise. */
  function SetBit(b: byte, i: nat, on: bool): byte
    requires i < 8
  {
    if on == Bit(b, i) then b
    else if on then
      SetBitRange(b, i);
      b + Pow2(i)
    else
      SetBitRange(b, i);
      b - Pow2(i)
  }

  lemma SetBitRange(b: byte, i: nat)
    requires i < 8
    ensures if Bit(b, i) then Pow2(i) <= b else b + Pow2(i) < 256
  {
  }

  /** Setting one bit sets that bit and no other. */
  lemma SetBitExact(b: byte, i: nat, on: bool, j: nat)
    requires i < 8 && j < 8
    ensures Bit(SetBit(b, i, on), j) == if i == j then on else Bit(b, j)
  {
    if on != Bit(b, i) {
      SetBitRange(b, i);
      if on {
        AddBit(b, b + Pow2(i), i, j);
      } else {
        var low: byte := b - Pow2(i);
        AddUpper(low, i, i);
        AddBit(low, b, i, j);
      }
    }
  }

  lemma AddBit(low: byte, high: byte, i: nat, j: nat)
    requires i < 8 && j < 8 && high == low + Pow2(i) && (low / Pow2(i)) % 2 == 0
    ensures Bit(high, j) == if i == j then true else Bit(low, j)
  {
    if i < j {
      AddLower(low, i, j);
    } else {
      AddUpper(low, i, j);
      var x, e := low / Pow2(j), Pow2(i - j);
      assert high / Pow2(j) == x + e;
      ParityAdd(x, e);
    }
  }

  lemma ParityAdd(x: nat, e: nat)
    ensures (x + e) % 2 == if e % 2 == 0 then x % 2 else 1 - x % 2
  {
  }

  lemma HalveMore(x: nat, j: nat)
    requires j < 7
    ensures x / Pow2(j + 1) == (x / Pow2(j)) / 2
  {
    match j
    case 0 => {} case 1 => {} case 2 => {} case 3 => {} case 4 => {} case 5 => {} case 6 => {}
  }

  /** Adding a clear bit leaves every higher bit alone. */
  lemma {:induction false} AddLower(b: byte, i: nat, j: nat)
    requires i < j < 8 && (b / Pow2(i)) % 2 == 0
    ensures (b + Pow2(i)) / Pow2(j) == b / Pow2(j)
  {
    HalveMore(b, j - 1);
    HalveMore(b + Pow2(i), j - 1);
    if j == i + 1 {
      AddUpper(b, i, i);
    } else {
      AddLower(b, i, j - 1);
    }
  }

  /** Adding bit `i` adds a power of two to what lies at and above any lower bit. */
  lemma AddUpper(b: byte, i: nat, j: nat)
    requires j <= i < 8
    ensures (b + Pow2(i)) / Pow2(j) == b / Pow2(j) + Pow2(i - j)
    ensures j < i ==> Pow2(i - j) % 2 == 0
  {
    match j
    case 0 => {} case 1 => {} case 2 => {} case 3 => {} case 4 => {} case 5 => {} case 6 => {} case 7 => {}
  }

  // ---------------------------------------------------------------- buffers

  /** `if n > buf.len() { buf.resize(n, 0) }`. */
  function Grow(buf: seq<byte>, n: nat): (r: seq<byte>)
    ensures |r| == Max(|buf|, n)
    ensures buf <= r
  {
    if n <= |buf| then buf else buf + seq(n - |buf|, _ => 0)
  }

  function WriteAt(buf: seq<byte>, off: nat, data: seq<byte>): (r: seq<byte>)
    ensures |r| == Max(|buf|, off + |data|)
    ensures r[off..off + |data|] == data
    ensures forall i :: 0 <= i < |buf| && !(off <= i < off + |data|) ==> r[i] == buf[i]
  {
    var b := Grow(buf, off + |data|);
    b[..off] + data + b[off + |data|..]
  }

  /** `a` and `b` hold the same bytes at positions lo..hi. */
  ghost predicate Agree(a: seq<byte>, b: seq<byte>, lo: nat, hi: nat) {
    hi <= |a| && hi <= |b| && forall i :: lo <= i < hi ==> a[i] == b[i]
  }

  /** `b` extends `a` and differs from it, among the positions `a` has, only inside lo..hi. */
  ghost predicate Frame(a: seq<byte>, b: seq<byte>, lo: nat, hi: nat) {
    |a| <= |b| && forall i :: 0 <= i < |a| && !(lo <= i < hi) ==> a[i] == b[i]
  }

  lemma AgreeSlice(a: seq<byte>, b: seq<byte>, lo: nat, hi: nat, from: nat, to: nat)
    requires Agree(a, b, lo, hi) && lo <= from <= to <= hi
    ensures a[from..to] == b[from..to]
  {
  }
}
