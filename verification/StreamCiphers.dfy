/** Stream ciphers: a state that steps, and a key byte after each step.

    What follows holds for any step function, and so for every cipher that the decrypting reader
    of internal/stream/stream.go is given. */
module StreamCiphers {
  import opened Bytes
  import opened ExclusiveOr

  datatype Cipher<!S> = Cipher(next: S -> S, output: S -> byte)

  function After<S>(c: Cipher<S>, st: S, n: nat): S {
    if n == 0 then st else c.next(After(c, st, n - 1))
  }

  function KeyStream<S>(c: Cipher<S>, st: S, n: nat): (k: bytes)
    ensures |k| == n
  {
    if n == 0 then [] else KeyStream(c, st, n - 1) + [c.output(After(c, st, n))]
  }

  // ---------------------------------------------------------------- calls

  function Crypted<S>(c: Cipher<S>, st: S, x: bytes): (y: bytes)
    ensures |y| == |x|
  {
    XorBytes(x, KeyStream(c, st, |x|))
  }

  lemma {:induction false} KeyStreamAt<S>(c: Cipher<S>, st: S, n: nat, i: nat)
    requires i < n
    ensures KeyStream(c, st, n)[i] == c.output(After(c, st, i + 1))
  {
    if i < n - 1 {
      KeyStreamAt(c, st, n - 1, i);
    }
  }

  /** Byte i is combined with the key byte after i + 1 steps. */
  lemma CryptedAt<S>(c: Cipher<S>, st: S, x: bytes, i: nat)
    requires i < |x|
    ensures Crypted(c, st, x)[i] == XorByte(x[i], c.output(After(c, st, i + 1)))
  {
    KeyStreamAt(c, st, |x|, i);
    XorBytesAt(x, KeyStream(c, st, |x|), i);
  }

  lemma {:induction false} AfterSum<S>(c: Cipher<S>, st: S, m: nat, n: nat)
    ensures After(c, st, m + n) == After(c, After(c, st, m), n)
  {
    if n > 0 {
      AfterSum(c, st, m, n - 1);
    }
  }

  lemma {:induction false} KeyStreamSum<S>(c: Cipher<S>, st: S, m: nat, n: nat)
    ensures KeyStream(c, st, m + n) == KeyStream(c, st, m) + KeyStream(c, After(c, st, m), n)
  {
    if n > 0 {
      var k1, k2 := KeyStream(c, st, m), KeyStream(c, After(c, st, m), n - 1);
      var last := [c.output(After(c, After(c, st, m), n))];
      KeyStreamSum(c, st, m, n - 1);
      AfterSum(c, st, m, n);
      assert KeyStream(c, st, m + n) == KeyStream(c, st, m + n - 1) + last;
      Emit(k1 + (k2 + last), k1, k2, last);
    }
  }

  /** Two calls in a row do what one call on the joined input does. */
  lemma TwoCallsAreOne<S>(c: Cipher<S>, st: S, x: bytes, y: bytes)
    ensures Crypted(c, st, x + y) == Crypted(c, st, x) + Crypted(c, After(c, st, |x|), y)
  {
    var k, k1, k2 := KeyStream(c, st, |x + y|), KeyStream(c, st, |x|), KeyStream(c, After(c, st, |x|), |y|);
    assert k == k1 + k2 by {
      KeyStreamSum(c, st, |x|, |y|);
    }
    XorBytesAppend(x, y, k1, k2);
  }

  function Joined(xs: seq<bytes>): bytes {
    if xs == [] then [] else xs[0] + Joined(xs[1..])
  }

  /** The pieces, each crypted where the one before it left the cipher. */
  function CryptedPieces<S>(c: Cipher<S>, st: S, xs: seq<bytes>): bytes
    decreases |xs|
  {
    if xs == [] then [] else Crypted(c, st, xs[0]) + CryptedPieces(c, After(c, st, |xs[0]|), xs[1..])
  }

  /** However the input is cut, the output is the same. */
  lemma {:induction false} CutsDoNotMatter<S>(c: Cipher<S>, st: S, xs: seq<bytes>)
    ensures CryptedPieces(c, st, xs) == Crypted(c, st, Joined(xs))
    decreases |xs|
  {
    if xs != [] {
      CutsDoNotMatter(c, After(c, st, |xs[0]|), xs[1..]);
      TwoCallsAreOne(c, st, xs[0], Joined(xs[1..]));
    }
  }

  // ---------------------------------------------------------------- shared memory

  /** n bytes at lo, crypted one by one into the same memory at hi. */
  function CryptedWithin<S>(c: Cipher<S>, st: S, d: bytes, hi: nat, lo: nat, n: nat): (r: bytes)
    requires lo + n <= |d| && hi + n <= |d|
    ensures |r| == |d|
  {
    if n == 0 then d
    else
      var r := CryptedWithin(c, st, d, hi, lo, n - 1);
      r[hi + n - 1 := XorByte(r[lo + n - 1], c.output(After(c, st, n)))]
  }

  lemma WithinOneMore<S>(c: Cipher<S>, st: S, d: bytes, hi: nat, lo: nat, n: nat)
    requires lo + n < |d| && hi + n < |d|
    ensures var r := CryptedWithin(c, st, d, hi, lo, n);
      CryptedWithin(c, st, d, hi, lo, n + 1) == r[hi + n := XorByte(r[lo + n], c.output(After(c, st, n + 1)))]
  {
  }

  lemma SpliceOne(d: bytes, lo: nat, x: bytes, b: byte)
    requires lo + |x| < |d|
    ensures Spliced(d, lo, x)[lo + |x| := b] == Spliced(d, lo, x + [b])
  {
  }

  lemma OneByteMore<S>(c: Cipher<S>, st: S, x: bytes, i: nat)
    requires i < |x|
    ensures Crypted(c, st, x[..i + 1]) == Crypted(c, st, x[..i]) + [XorByte(x[i], c.output(After(c, st, i + 1)))]
  {
    XorBytesAppend(x[..i], [x[i]], KeyStream(c, st, i), [c.output(After(c, st, i + 1))]);
    assert x[..i + 1] == x[..i] + [x[i]];
  }

  /** In place, or with the output wholly in front of unread input, the result is the same as
      with separate buffers. */
  lemma {:induction false} AliasingIsHarmless<S>(c: Cipher<S>, st: S, d: bytes, hi: nat, lo: nat, n: nat)
    requires lo + n <= |d| && hi + n <= |d| && (hi <= lo || lo + n <= hi)
    ensures CryptedWithin(c, st, d, hi, lo, n) == Spliced(d, hi, Crypted(c, st, d[lo..lo + n]))
  {
    if n > 0 {
      var x, last := d[lo..lo + n], n - 1;
      var y := Crypted(c, st, x[..last]);
      AliasingIsHarmless(c, st, d, hi, lo, last);
      assert d[lo..lo + last] == x[..last];
      SpliceReads(d, hi, y, lo + last);
      WithinOneMore(c, st, d, hi, lo, last);
      SpliceOne(d, hi, y, XorByte(x[last], c.output(After(c, st, n))));
      OneByteMore(c, st, x, last);
      assert x[..n] == x;
    }
  }

  /** The memory of the output after n bytes, when it is shared with the input and when not. */
  function Progress<S>(c: Cipher<S>, st: S, d: bytes, hi: nat, shared: bool, lo: nat, input: bytes, n: nat): (r: bytes)
    requires n <= |input| && hi + n <= |d| && (shared ==> lo + n <= |d|)
    ensures |r| == |d|
  {
    if shared then CryptedWithin(c, st, d, hi, lo, n) else Spliced(d, hi, Crypted(c, st, input[..n]))
  }

  lemma ProgressOneMore<S>(c: Cipher<S>, st: S, d: bytes, hi: nat, shared: bool, lo: nat, input: bytes, n: nat)
    requires n < |input| && hi + n < |d| && (shared ==> lo + n < |d|)
    ensures var r := Progress(c, st, d, hi, shared, lo, input, n);
      var x := if shared then r[lo + n] else input[n];
      Progress(c, st, d, hi, shared, lo, input, n + 1) == r[hi + n := XorByte(x, c.output(After(c, st, n + 1)))]
  {
    if shared {
      WithinOneMore(c, st, d, hi, lo, n);
    } else {
      OneByteMore(c, st, input, n);
      SpliceOne(d, hi, Crypted(c, st, input[..n]), XorByte(input[n], c.output(After(c, st, n + 1))));
    }
  }

  lemma SpliceReads(d: bytes, lo: nat, x: bytes, k: nat)
    requires lo + |x| <= |d| && k < |d| && !(lo <= k < lo + |x|)
    ensures Spliced(d, lo, x)[k] == d[k]
  {
  }

  /** What a read leaves in its buffer, from the bytes of the source. */
  lemma InPlace<S>(c: Cipher<S>, start: S, src: bytes, pos: nat, n: nat, next: nat,
                   was: bytes, before: bytes, after: bytes)
    requires n <= |was| && next == pos + n <= |src| && before == Spliced(was, 0, src[pos..next])
    requires after == Spliced(was, 0, Crypted(c, start, src)[pos..next])
    ensures CryptedWithin(c, After(c, start, pos), before, 0, 0, n) == after
  {
    var x := src[pos..next];
    AliasingIsHarmless(c, After(c, start, pos), before, 0, 0, n);
    assert before[0..n] == x;
    PieceOfWhole(c, start, src, pos, n);
    SpliceTwice(was, x, Crypted(c, start, src)[pos..next]);
  }

  lemma SpliceTwice(d: bytes, x: bytes, y: bytes)
    requires |x| == |y| <= |d|
    ensures Spliced(Spliced(d, 0, x), 0, y) == Spliced(d, 0, y)
  {
  }

  lemma Middle(a: bytes, b: bytes, c: bytes)
    ensures (a + (b + c))[|a|..|a| + |b|] == b
  {
  }

  /** A part of the input, crypted where the bytes in front of it leave the cipher, is that part
      of the output. */
  lemma PieceOfWhole<S>(c: Cipher<S>, st: S, x: bytes, pos: nat, n: nat)
    requires pos + n <= |x|
    ensures Crypted(c, st, x)[pos..pos + n] == Crypted(c, After(c, st, pos), x[pos..pos + n])
  {
    var w, y, z := x[..pos], x[pos..pos + n], x[pos + n..];
    assert |w| == pos && x == w + (y + z);
    TwoCallsAreOne(c, st, w, y + z);
    TwoCallsAreOne(c, After(c, st, pos), y, z);
    var a, b, c := Crypted(c, st, w), Crypted(c, After(c, st, pos), y), Crypted(c, After(c, After(c, st, pos), n), z);
    Middle(a, b, c);
  }
}
