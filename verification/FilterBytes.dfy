/** What the two filters of internal/stream/stream.go make of each byte.

    Which opcodes start a word is said without the walk over the byte string: an E8 or E9 does,
    unless it lies in the word of an earlier one (or, for 5.2.0, too close to the end of its
    64 KiB block).  From that the decoded bytes are given one by one. */
module FilterBytes {
  import opened Bytes
  import opened Filters

  /** The little-endian values of short words, digit by digit. */
  lemma LEDigits(s: bytes)
    requires 0 < |s| <= 4
    ensures LE(s) == s[0] as int + (if |s| > 1 then 0x100 * s[1] as int else 0)
                     + (if |s| > 2 then 0x1_0000 * s[2] as int else 0)
                     + (if |s| > 3 then 0x100_0000 * s[3] as int else 0)
  {
    if |s| > 1 {
      LEDigits(s[1..]);
    } else {
      assert s[1..] == [];
    }
  }

  // ---------------------------------------------------------------- Inno Setup 4.1.8

  /** The opcode at p has a word of its own. */
  predicate Starts4108(src: bytes, p: nat)
    requires p < |src|
    decreases p, 1
  {
    (src[p] == 0xe8 || src[p] == 0xe9) && Outside4108(src, p)
  }

  /** Position p lies in no word. */
  predicate Outside4108(src: bytes, p: nat)
    requires p <= |src|
    decreases p, 0
  {
    forall q :: 0 <= q < p <= q + 4 ==> !Starts4108(src, q)
  }

  /** Between words, the rest of the output is the walk over the rest of the input. */
  lemma {:induction false} Visited4108(src: bytes, p: nat)
    requires p <= |src| && Outside4108(src, p)
    ensures Decoded4108(src)[p..] == Walk4108(src[p..], p, false)
  {
    if p == 0 {
      assert src[0..] == src && Decoded4108(src)[0..] == Decoded4108(src);
    } else {
      var q := if Outside4108(src, p - 1) then p - 1 else p - 5;
      assert !Starts4108(src, p - 1);
      assert q < p - 1 ==> Starts4108(src, q);
      Visited4108(src, q);
      Behind(Decoded4108(src), q, p - q);
      Behind(src, q, p - q);
      StepsOver4108(src[q..], q);
    }
  }

  lemma Behind(s: bytes, p: nat, k: nat)
    requires p + k <= |s|
    ensures s[p..][k..] == s[p + k..]
  {
  }

  lemma Within(s: bytes, p: nat, i: nat, k: nat)
    requires p + i + k <= |s|
    ensures s[p..][i..i + k] == s[p + i..p + i + k]
  {
  }

  /** The walk at the front of t: an ordinary byte, or an opcode with its word. */
  lemma StepsOver4108(t: bytes, n: nat)
    requires t != []
    ensures var k := if t[0] == 0xe8 || t[0] == 0xe9 then Min(4, |t| - 1) else 0;
      var r := Walk4108(t, n, false);
      && r[0] == t[0] && r[1..1 + k] == Shifted(t[1..1 + k], -(n + 5))
      && r[1 + k..] == Walk4108(t[1 + k..], n + 1 + k, false)
  {
    var k := if t[0] == 0xe8 || t[0] == 0xe9 then Min(4, |t| - 1) else 0;
    if k > 0 || t[0] == 0xe8 || t[0] == 0xe9 {
      UnfoldOpcode4108(t, n, false);
      Pieces(t[0], Shifted(t[1..1 + k], -(n + 5)), Walk4108(t[1 + k..], n + 1 + k, false));
    }
  }

  lemma ModTwice(v: int, m: nat)
    requires m > 0
    ensures (v % m) % m == v % m
  {
  }

  lemma TruncatedIs(v: int, k: nat)
    requires k <= 4
    ensures Truncated(v, k) == v % Pow256(k)
  {
    SmallPowers();
  }

  lemma ValueOf(v: int, k: nat)
    requires k <= 4
    ensures LE(ToLE(Truncated(v, k), k)) == v % Pow256(k)
  {
    TruncatedIs(v, k);
    ToLEValue(Truncated(v, k), k);
    ModTwice(v, Pow256(k));
  }

  /** The 4.1.8 filter byte by byte.  What lies in no word stays; the word of the opcode at p,
      four bytes or what is left of them at the end, becomes its value less p + 5, modulo the
      power of 256 that its length allows. */
  lemma Bytes4108(src: bytes, p: nat)
    requires p < |src|
    ensures Outside4108(src, p) ==> Decoded4108(src)[p] == src[p]
    ensures Starts4108(src, p) ==>
      var k := Min(4, |src| - p - 1);
      LE(Decoded4108(src)[p + 1..p + 1 + k]) == (LE(src[p + 1..p + 1 + k]) - (p + 5)) % Pow256(k)
  {
    if Outside4108(src, p) {
      var t, out := src[p..], Decoded4108(src);
      Visited4108(src, p);
      StepsOver4108(t, p);
      assert out[p..][0] == out[p];
      if Starts4108(src, p) {
        var k := Min(4, |src| - p - 1);
        Within(src, p, 1, k);
        Within(out, p, 1, k);
        var word := src[p + 1..p + 1 + k];
        ShiftedIs(word, -(p + 5), LE(word) - (p + 5), out[p + 1..p + 1 + k]);
        ValueOf(LE(word) - (p + 5), k);
      }
    }
  }

  lemma ShiftedIs(word: bytes, delta: int, v: int, r: bytes)
    requires |word| <= 4 && v == LE(word) + delta && r == Shifted(word, delta)
    ensures r == ToLE(Truncated(v, |word|), |word|)
  {
  }

  // ---------------------------------------------------------------- Inno Setup 5.2.0 and 5.3.9

  /** The opcode at p has a word of its own: opcode and word lie in one block of 64 KiB. */
  predicate Starts5200(src: bytes, p: nat)
    requires p < |src|
    decreases p, 1
  {
    (src[p] == 0xe8 || src[p] == 0xe9) && p % 0x1_0000 + 5 <= 0x1_0000 && Outside5200(src, p)
  }

  predicate Outside5200(src: bytes, p: nat)
    requires p <= |src|
    decreases p, 0
  {
    forall q :: 0 <= q < p <= q + 4 ==> !Starts5200(src, q)
  }

  lemma {:induction false} Visited5200(src: bytes, flip: bool, p: nat)
    requires p <= |src| && Outside5200(src, p)
    ensures Decoded5200(src, flip)[p..] == Walk5200(src[p..], p, flip, false)
  {
    var out := Decoded5200(src, flip);
    if p == 0 {
      assert src[0..] == src && out[0..] == out;
    } else {
      var q := if Outside5200(src, p - 1) then p - 1 else p - 5;
      assert !Starts5200(src, p - 1);
      assert q < p - 1 ==> Starts5200(src, q);
      Visited5200(src, flip, q);
      Behind(out, q, p - q);
      Behind(src, q, p - q);
      StepsOver5200(src[q..], q, flip);
    }
  }

  /** The walk at the front of t: an ordinary byte, an opcode with its word, or an opcode whose
      word is cut off. */
  lemma StepsOver5200(t: bytes, n: nat, flip: bool)
    requires t != []
    ensures var r := Walk5200(t, n, flip, false);
      if !((t[0] == 0xe8 || t[0] == 0xe9) && n % 0x1_0000 + 5 <= 0x1_0000) then
        r[0] == t[0] && r[1..] == Walk5200(t[1..], n + 1, flip, false)
      else if |t| < 5 then r == t
      else
        && r[0] == t[0] && r[1..5] == DecodedWord(t[1..5], n + 5, flip)
        && r[5..] == Walk5200(t[5..], n + 5, flip, false)
  {
  }

  /** A word that stays as it is, unless its last byte is 0 or FF; then the low three bytes lose
      the position behind the word, modulo 2^24, and the last one is inverted exactly if that is
      asked for and the difference has bit 23 set. */
  lemma WordBytes(w: bytes, n: nat, flip: bool)
    requires |w| == 4
    ensures var r := DecodedWord(w, n, flip);
      var rel := (w[0] as int + 0x100 * w[1] as int + 0x1_0000 * w[2] as int - n) % 0x100_0000;
      if w[3] != 0 && w[3] != 0xff then r == w
      else
        && r[0] as int + 0x100 * r[1] as int + 0x1_0000 * r[2] as int == rel
        && r[3] == if flip && rel >= 0x80_0000 then 0xff - w[3] else w[3]
  {
    LEDigits(w[..3]);
    if w[3] == 0 || w[3] == 0xff {
      var rel := (LE(w[..3]) - n) % 0x100_0000;
      WordValue(rel, 3);
      LEDigits(ToLE(rel, 3));
    }
  }

  /** The word of the opcode at p, decoded. */
  predicate Decodes5200(src: bytes, out: bytes, p: nat, flip: bool)
    requires p + 5 <= |src| == |out|
  {
    var low := src[p + 1] as int + 0x100 * src[p + 2] as int + 0x1_0000 * src[p + 3] as int;
    var rel := (low - (p + 5)) % 0x100_0000;
    var high := src[p + 4];
    if high != 0 && high != 0xff then out[p + 1..p + 5] == src[p + 1..p + 5]
    else
      && out[p + 1] as int + 0x100 * out[p + 2] as int + 0x1_0000 * out[p + 3] as int == rel
      && out[p + 4] == if flip && rel >= 0x80_0000 then 0xff - high else high
  }

  /** The 5.2.0 filter, and the 5.3.9 filter with the flip, byte by byte.  What lies in no word
      stays, and so does a word that the end of the stream cuts off. */
  lemma Bytes5200(src: bytes, flip: bool, p: nat)
    requires p < |src|
    ensures Outside5200(src, p) ==> Decoded5200(src, flip)[p] == src[p]
    ensures Starts5200(src, p) && p + 5 > |src| ==> Decoded5200(src, flip)[p..] == src[p..]
    ensures Starts5200(src, p) && p + 5 <= |src| ==> Decodes5200(src, Decoded5200(src, flip), p, flip)
  {
    if Outside5200(src, p) {
      var t, out := src[p..], Decoded5200(src, flip);
      Visited5200(src, flip, p);
      StepsOver5200(t, p, flip);
      assert out[p..][0] == out[p];
      if Starts5200(src, p) && p + 5 <= |src| {
        var w, r := src[p + 1..p + 5], out[p + 1..p + 5];
        Within(src, p, 1, 4);
        Within(out, p, 1, 4);
        WordBytes(w, p + 5, flip);
        assert r[0] == out[p + 1] && r[1] == out[p + 2] && r[2] == out[p + 3] && r[3] == out[p + 4];
      }
    }
  }
}
