/** Machine integers and byte strings shared by every other module.

    The widths are subset types of `int` (bytes: a newtype), so an addition that could leave its width is a
    proof obligation; wherever the Go code relies on wrap-around the `%` is written out. */
module Bytes {
  newtype byte = x: int | 0 <= x < 0x100
  type uint32 = x: int | 0 <= x < 0x1_0000_0000
  type uint64 = x: int | 0 <= x < 0x1_0000_0000_0000_0000
  type int64 = x: int | -0x8000_0000_0000_0000 <= x < 0x8000_0000_0000_0000

  type bytes = seq<byte>

  /** The uint32 that Go's arithmetic keeps of v. */
  function Wrap32(v: int): uint32 {
    v % 0x1_0000_0000
  }

  /** The uint64 that Go's arithmetic keeps of v. */
  function Wrap64(v: int): uint64 {
    v % 0x1_0000_0000_0000_0000
  }

  const MAX_UINT64: uint64 := 0xFFFF_FFFF_FFFF_FFFF
  const MAX_INT64: int64 := 0x7FFF_FFFF_FFFF_FFFF

  datatype Option<+T> = None | Some(value: T)

  datatype Result<+T, +E> = Ok(value: T) | Err(error: E)

  /** n zero bytes. */
  function Zeros(n: nat): (s: bytes)
    ensures |s| == n && forall k :: 0 <= k < n ==> s[k] == 0
  {
    seq(n, _ => 0)
  }

  function Min(a: int, b: int): int {
    if a < b then a else b
  }

  /** d with x written at lo. */
  function Spliced(d: bytes, lo: nat, x: bytes): (r: bytes)
    requires lo + |x| <= |d|
    ensures |r| == |d|
  {
    d[..lo] + x + d[lo + |x|..]
  }

  lemma SplicedAt(d: bytes, lo: nat, x: bytes, p: nat)
    requires lo + |x| <= |d| && p < |d|
    ensures Spliced(d, lo, x)[p] == if lo <= p < lo + |x| then x[p - lo] else d[p]
  {
  }

  /** 256 to the power n. */
  function Pow256(n: nat): (p: nat)
    ensures p > 0
  {
    if n == 0 then 1 else 256 * Pow256(n - 1)
  }

  /** The little-endian value of a byte string (binary.LittleEndian). */
  function LE(s: bytes): nat {
    if s == [] then 0 else s[0] as int + 256 * LE(s[1..])
  }

  /** The low n bytes of v, least significant first. */
  function ToLE(v: nat, n: nat): (s: bytes)
    ensures |s| == n
  {
    if n == 0 then [] else [(v % 256) as byte] + ToLE(v / 256, n - 1)
  }

  lemma {:induction false} LEBound(s: bytes)
    ensures LE(s) < Pow256(|s|)
  {
    if s != [] {
      LEBound(s[1..]);
    }
  }

  /** Reading back n written bytes gives the value modulo 256^n. */
  lemma {:induction false} ToLEValue(v: nat, n: nat)
    ensures LE(ToLE(v, n)) == v % Pow256(n)
  {
    if n > 0 {
      ToLEValue(v / 256, n - 1);
      assert ToLE(v, n)[1..] == ToLE(v / 256, n - 1);
      DivModSplit(v, Pow256(n - 1));
    }
  }

  lemma DivModSplit(v: nat, p: nat)
    requires p > 0
    ensures v % (256 * p) == v % 256 + 256 * ((v / 256) % p)
  {
    var q, r := v / 256 / p, (v / 256) % p;
    assert v == 256 * (p * q + r) + v % 256;
    assert v == (256 * p) * q + (256 * r + v % 256);
    assert 256 * r + v % 256 < 256 * p;
    ModUnique(v, 256 * p, q, 256 * r + v % 256);
  }

  lemma MulAtLeast(d: int, k: int)
    requires d > 0 && k >= 1
    ensures d * k >= d
  {
    assert d * k == d + d * (k - 1);
  }

  /** Euclidean division has one answer. */
  lemma ModUnique(v: int, d: int, q: int, r: int)
    requires d > 0 && v == d * q + r && 0 <= r < d
    ensures v % d == r && v / d == q
  {
    var k := v / d - q;
    assert d * k == d * (v / d) - d * q;
    if k >= 1 {
      MulAtLeast(d, k);
    } else if k <= -1 {
      MulAtLeast(d, -k);
    }
  }

  /** Writing the value of a byte string restores it. */
  lemma {:induction false} LEToLE(s: bytes)
    ensures ToLE(LE(s), |s|) == s
  {
    if s != [] {
      LEToLE(s[1..]);
      assert LE(s) % 256 == s[0] as int && LE(s) / 256 == LE(s[1..]);
    }
  }

  lemma {:induction false} LEAppend(s: bytes, b: byte)
    ensures LE(s + [b]) == LE(s) + Pow256(|s|) * b as int
  {
    if s == [] {
      assert s + [b] == [b];
      assert LE([b]) == b as int + 256 * LE([b][1..]);
    } else {
      LEAppend(s[1..], b);
      assert (s + [b])[1..] == s[1..] + [b];
    }
  }

  /** The first m of n written bytes are the value modulo 256^m. */
  lemma {:induction false} ToLETake(v: nat, n: nat, m: nat)
    requires m <= n
    ensures ToLE(v, n)[..m] == ToLE(v % Pow256(m), m)
  {
    if m > 0 {
      var p := Pow256(m - 1);
      DivModSplit(v, p);
      ToLETake(v / 256, n - 1, m - 1);
      ModUnique(v % (256 * p), 256, (v / 256) % p, v % 256);
      assert ToLE(v, n)[..m] == [(v % 256) as byte] + ToLE(v / 256, n - 1)[..m - 1];
    }
  }

  /** The three pieces of a concatenation. */
  lemma Pieces(a: byte, b: bytes, c: bytes)
    ensures var r := [a] + b + c;
      r[0] == a && r[1..1 + |b|] == b && r[1 + |b|..] == c
  {
    var r := [a] + b + c;
    assert r[1 + |b|..] == c;
  }

  /** A written prefix grows by one token of the specification. */
  lemma Regroup(out: bytes, p: nat, rest: bytes)
    requires p < |out|
    ensures out[..p] + ([out[p]] + out[p + 1..] + rest) == out + rest
  {
    assert out == out[..p] + ([out[p]] + out[p + 1..]);
  }

  lemma SmallPowers()
    ensures Pow256(0) == 1 && Pow256(1) == 0x100 && Pow256(2) == 0x1_0000
    ensures Pow256(3) == 0x100_0000 && Pow256(4) == 0x1_0000_0000
  {
    assert Pow256(2) == 256 * Pow256(1);
    assert Pow256(3) == 256 * Pow256(2);
    assert Pow256(4) == 256 * Pow256(3);
  }

  lemma EightBytes()
    ensures Pow256(8) == 0x1_0000_0000_0000_0000
  {
    SmallPowers();
    assert Pow256(5) == 256 * Pow256(4);
    assert Pow256(6) == 256 * Pow256(5);
    assert Pow256(7) == 256 * Pow256(6);
    assert Pow256(8) == 256 * Pow256(7);
  }

  /** A written word is read back. */
  lemma WordBack(x: nat, n: nat)
    requires (n == 4 && x < 0x1_0000_0000) || (n == 8 && x <= MAX_UINT64)
    ensures LE(ToLE(x, n)) == x
  {
    SmallPowers();
    EightBytes();
    if n == 4 {
      ToLEValue(x, 4);
    } else {
      ToLEValue(x, 8);
    }
  }

  /** Concatenation is associative, stated for a caller that keeps "done + to do". */
  lemma Emit(whole: bytes, done: bytes, token: bytes, rest: bytes)
    requires whole == done + (token + rest)
    ensures whole == (done + token) + rest
  {
  }

  /** One more element of s behind `before`. */
  lemma AppendNext<T>(before: seq<T>, s: seq<T>, k: nat)
    requires k < |s|
    ensures before + s[..k + 1] == before + s[..k] + [s[k]]
  {
    assert s[..k + 1] == s[..k] + [s[k]];
  }

  lemma NothingAdded<T>(s: seq<T>)
    ensures s + [] == s && [] + s == s
  {
  }

  /** A byte string is what stands in front of position k and what stands behind it. */
  lemma Halves(s: bytes, k: nat)
    requires k <= |s|
    ensures s[..k] + s[k..] == s
  {
  }

  /** A byte string is its first byte, the next k, and the others. */
  lemma Rejoin(t: bytes, k: nat)
    requires 1 + k <= |t|
    ensures [t[0]] + t[1..1 + k] + t[1 + k..] == t
  {
  }
}
