/** The two x86 call/jump filters of internal/stream/stream.go.

    A compiler-friendly executable stores the target of an E8 (call) or E9 (jump) as an
    address; the filters turn it back into a displacement.  Each filter is a method with the
    loop of the source, proved equal to a walk over the byte string (`Walk4108`,
    `Walk5200`).  The same walk run the other way is the encoder, which the repository
    does not have, and the two are proved inverse on every byte string. */
module Filters {
  import opened Bytes

  predicate IsOpcode(b: byte) {
    b == 0xe8 || b == 0xe9
  }

  /** v modulo 256^n, for the at most four bytes of a word. */
  function Truncated(v: int, n: nat): (r: nat)
    requires n <= 4
  {
    if n == 0 then 0
    else if n == 1 then v % 0x100
    else if n == 2 then v % 0x1_0000
    else if n == 3 then v % 0x100_0000
    else v % 0x1_0000_0000
  }

  /** v times 256^n. */
  function Scaled(v: int, n: nat): int
    requires n <= 4
  {
    if n == 0 then v
    else if n == 1 then 0x100 * v
    else if n == 2 then 0x1_0000 * v
    else if n == 3 then 0x100_0000 * v
    else 0x1_0000_0000 * v
  }

  lemma WordValue(v: nat, n: nat)
    requires n <= 4
    ensures LE(ToLE(v, n)) == Truncated(v, n)
  {
    SmallPowers();
    ToLEValue(v, n);
  }

  lemma WordBound(w: bytes)
    requires |w| <= 4
    ensures LE(w) < Scaled(1, |w|)
  {
    SmallPowers();
    LEBound(w);
  }

  lemma WordAppend(w: bytes, b: byte)
    requires |w| <= 3
    ensures LE(w + [b]) == LE(w) + Scaled(b as int, |w|)
  {
    SmallPowers();
    LEAppend(w, b);
  }

  /** The word w with delta added to its little-endian value, modulo 256^|w|. */
  function Shifted(w: bytes, delta: int): (r: bytes)
    requires |w| <= 4
    ensures |r| == |w|
  {
    ToLE(Truncated(LE(w) + delta, |w|), |w|)
  }

  /** Adding and then subtracting, both modulo p, gives a value below p back. */
  lemma AddBack(a: int, delta: int, p: int)
    requires 0 <= a < p
    ensures ((a + delta) % p) % p == (a + delta) % p
    ensures ((a + delta) % p - delta) % p == a
  {
    var q, r := (a + delta) / p, (a + delta) % p;
    ModUnique(r, p, 0, r);
    assert p * (-q) == -(p * q);
    ModUnique(r - delta, p, -q, a);
  }

  lemma TruncatedBack(a: int, delta: int, n: nat)
    requires n <= 4 && 0 <= a < Scaled(1, n)
    ensures Truncated(Truncated(a + delta, n), n) == Truncated(a + delta, n)
    ensures Truncated(Truncated(a + delta, n) - delta, n) == a
  {
    if n == 1 {
      AddBack(a, delta, 0x100);
    } else if n == 2 {
      AddBack(a, delta, 0x1_0000);
    } else if n == 3 {
      AddBack(a, delta, 0x100_0000);
    } else if n == 4 {
      AddBack(a, delta, 0x1_0000_0000);
    }
  }

  lemma ShiftBack(w: bytes, delta: int)
    requires |w| <= 4
    ensures Shifted(Shifted(w, delta), -delta) == w
  {
    WordBound(w);
    WordValue(Truncated(LE(w) + delta, |w|), |w|);
    TruncatedBack(LE(w), delta, |w|);
    LEToLE(w);
  }

  // ---------------------------------------------------------------- Inno Setup 4.1.8

  /** What decoding (or encoding) adds to the word after an opcode at position n. */
  function Displacement(n: nat, encode: bool): int {
    if encode then n + 5 else -(n + 5)
  }

  /** The 4.1.8 filter from stream position n on, for the remaining bytes t.  An opcode at
      position n is followed by a four-byte word (or by what is left of it, at the end),
      and opcodes inside the word are not looked at. */
  function Walk4108(t: bytes, n: nat, encode: bool): (r: bytes)
    ensures |r| == |t|
    decreases |t|
  {
    if t == [] then []
    else if !IsOpcode(t[0]) then [t[0]] + Walk4108(t[1..], n + 1, encode)
    else
      var k := Min(4, |t| - 1);
      [t[0]] + Shifted(t[1..1 + k], Displacement(n, encode)) + Walk4108(t[1 + k..], n + 1 + k, encode)
  }

  function Decoded4108(src: bytes): (r: bytes)
    ensures |r| == |src|
  {
    Walk4108(src, 0, false)
  }

  function Encoded4108(src: bytes): (r: bytes)
    ensures |r| == |src|
  {
    Walk4108(src, 0, true)
  }

  lemma {:induction false} WalkBack4108(t: bytes, n: nat, encode: bool)
    ensures Walk4108(Walk4108(t, n, encode), n, !encode) == t
    decreases |t|
  {
    if t == [] {
    } else if !IsOpcode(t[0]) {
      var rest := Walk4108(t[1..], n + 1, encode);
      WalkBack4108(t[1..], n + 1, encode);
      assert ([t[0]] + rest)[1..] == rest;
    } else {
      var k := Min(4, |t| - 1);
      var b, word, rest := t[0], t[1..1 + k], t[1 + k..];
      WalkBack4108(rest, n + 1 + k, encode);
      Rejoin(t, k);
      WalkOpcode4108(b, word, rest, n, encode);
      WordBack4108(word, n, encode);
      WalkOpcode4108(b, Shifted(word, Displacement(n, encode)), Walk4108(rest, n + 1 + k, encode), n, !encode);
    }
  }

  /** The walk over an opcode, its word and the rest. */
  lemma WalkOpcode4108(b: byte, word: bytes, rest: bytes, n: nat, encode: bool)
    requires IsOpcode(b) && |word| == Min(4, |word| + |rest|)
    ensures Walk4108([b] + word + rest, n, encode)
         == [b] + Shifted(word, Displacement(n, encode)) + Walk4108(rest, n + 1 + |word|, encode)
  {
    Pieces(b, word, rest);
    UnfoldOpcode4108([b] + word + rest, n, encode);
  }

  lemma WordBack4108(word: bytes, n: nat, encode: bool)
    requires |word| <= 4
    ensures Shifted(Shifted(word, Displacement(n, encode)), Displacement(n, !encode)) == word
  {
    ShiftBack(word, Displacement(n, encode));
    assert Displacement(n, !encode) == -Displacement(n, encode);
  }

  lemma UnfoldOpcode4108(r: bytes, n: nat, encode: bool)
    requires r != [] && IsOpcode(r[0])
    ensures var k := Min(4, |r| - 1);
      Walk4108(r, n, encode)
      == [r[0]] + Shifted(r[1..1 + k], Displacement(n, encode)) + Walk4108(r[1 + k..], n + 1 + k, encode)
  {
  }

  /** The 4.1.8 filter is a bijection on byte strings: the encoder undoes it and it undoes
      the encoder, whatever the bytes. */
  lemma Bijection4108(x: bytes)
    ensures Encoded4108(Decoded4108(x)) == x
    ensures Decoded4108(Encoded4108(x)) == x
  {
    WalkBack4108(x, 0, false);
    WalkBack4108(x, 0, true);
  }

  // The byte-at-a-time loop keeps a running 32-bit `addr`.  With m bytes of the current word
  // done, low + 256^m * addr differs from the wanted word only by a multiple of 2^32, where
  // low is the value of the bytes written: a carry out of bit 31 drops one more 2^32.
  // `CarryStep` is one turn of the loop and `CarryDone` what the loop leaves behind.

  ghost predicate Carried(written: bytes, read: bytes, addr: int, delta: int, lost: int)
    requires |written| == |read| <= 4
  {
    LE(written) + Scaled(addr, |read|) == LE(read) + delta + 0x1_0000_0000 * lost
  }

  lemma CarryStep(written: bytes, read: bytes, addr: uint32, b: byte, delta: int, lost: int) returns (lost': int)
    requires |written| == |read| <= 3 && Carried(written, read, addr, delta, lost)
    ensures var sum := Wrap32(addr + b as int);
      Carried(written + [(sum % 256) as byte], read + [b], sum / 256, delta, lost')
  {
    var sum := Wrap32(addr + b as int);
    var carry := (addr + b as int) / 0x1_0000_0000;
    WordAppend(written, (sum % 256) as byte);
    WordAppend(read, b);
    lost' := lost - Scaled(carry, |read|);
    SplitByte(sum, |read|);
    assert addr + b as int == 0x1_0000_0000 * carry + sum;
  }

  lemma SplitByte(sum: uint32, m: nat)
    requires m <= 3
    ensures Scaled(sum % 256, m) + Scaled(sum / 256, m + 1) == Scaled(sum, m)
  {
    var low, high := sum % 256, sum / 256;
    assert sum == low + 256 * high;
  }

  lemma CarryDone(written: bytes, read: bytes, addr: uint32, delta: int, lost: int)
    requires |written| == |read| <= 4 && Carried(written, read, addr, delta, lost)
    ensures written == Shifted(read, delta)
  {
    WordBound(written);
    LEToLE(written);
    Remainder(LE(written), LE(read) + delta, |read|, addr, lost);
  }

  /** A value known up to a multiple of 2^32 is known modulo a smaller power of 256. */
  lemma Remainder(w: int, v: int, n: nat, addr: int, lost: int)
    requires n <= 4 && 0 <= w < Scaled(1, n)
    requires w + Scaled(addr, n) == v + 0x1_0000_0000 * lost
    ensures Truncated(v, n) == w
  {
    if n == 1 {
      ModUnique(v, 0x100, addr - 0x100_0000 * lost, w);
    } else if n == 2 {
      ModUnique(v, 0x1_0000, addr - 0x1_0000 * lost, w);
    } else if n == 3 {
      ModUnique(v, 0x100_0000, addr - 0x100 * lost, w);
    } else if n == 4 {
      ModUnique(v, 0x1_0000_0000, addr - lost, w);
    }
  }

  /** What holds of the loop when the bytes `out` have been written, the instruction being
      read starts at p, and `left` bytes of its word are still to come (none if left is 0). */
  ghost predicate Carrying(src: bytes, out: bytes, p: nat, addr: uint32, left: nat, lost: int) {
    var i := |out|;
    && p <= i <= |src|
    && left <= 4
    && Decoded4108(src) == out[..p] + Walk4108(src[p..], p, false)
    && (left == 0 ==> p == i)
    && (left > 0 ==>
         && p < i == p + 5 - left
         && IsOpcode(src[p])
         && out[p] == src[p]
         && Carried(out[p + 1..], src[p + 1..i], addr, -(p + 5), lost))
  }

  /** ^v + 1, the two's complement of a uint32. */
  function Negated(v: uint32): uint32 {
    Wrap32((0xFFFF_FFFF - v) + 1)
  }

  /** A byte outside any word. */
  lemma PlainByte(src: bytes, out: bytes, addr: uint32, lost: int)
    requires Carrying(src, out, |out|, addr, 0, lost) && |out| < |src| && !IsOpcode(src[|out|])
    ensures Carrying(src, out + [src[|out|]], |out| + 1, addr, 0, lost)
  {
    var i := |out|;
    var t, next := src[i..], out + [src[i]];
    assert t[1..] == src[i + 1..];
    assert next[..i + 1] == out[..i] + [src[i]];
  }

  /** The two's complement of the offset is -(i + 5) up to a multiple of 2^32. */
  lemma NegatedOffset(i: nat, start: uint32) returns (lost: int)
    requires start == Negated(Wrap32(i + 5))
    ensures start == -(i + 5) + 0x1_0000_0000 * lost
  {
    var q, r := (i + 5) / 0x1_0000_0000, Wrap32(i + 5);
    lost := if r == 0 then q else q + 1;
    assert i + 5 == 0x1_0000_0000 * q + r;
    assert start == if r == 0 then 0 else 0x1_0000_0000 - r;
  }

  /** An opcode: the next four bytes are its word, and addr starts as the two's complement
      of the offset. */
  lemma Opcode(src: bytes, out: bytes, addr: uint32, lost: int, start: uint32) returns (lost': int)
    requires Carrying(src, out, |out|, addr, 0, lost) && |out| < |src| && IsOpcode(src[|out|])
    requires start == Negated(Wrap32(|out| + 5))
    ensures Carrying(src, out + [src[|out|]], |out|, start, 4, lost')
  {
    var i := |out|;
    var next := out + [src[i]];
    lost' := NegatedOffset(i, start);
    assert next[..i] == out[..i];
    assert next[i + 1..] == [] && src[i + 1..i + 1] == [];
  }

  /** One byte of a word; the word is still being read, or ends here. */
  lemma WordByte(src: bytes, out: bytes, p: nat, addr: uint32, left: nat, lost: int) returns (lost': int)
    requires Carrying(src, out, p, addr, left, lost) && left > 0 && |out| < |src|
    ensures var sum := Wrap32(addr + src[|out|] as int);
      var next := out + [(sum % 256) as byte];
      && Carried(next[p + 1..], src[p + 1..|next|], sum / 256, -(p + 5), lost')
      && (left > 1 ==> Carrying(src, next, p, sum / 256, left - 1, lost'))
      && (left == 1 ==> Carrying(src, next, |next|, sum / 256, 0, lost'))
  {
    var i := |out|;
    var sum := Wrap32(addr + src[i] as int);
    var next := out + [(sum % 256) as byte];
    lost' := CarryStep(out[p + 1..], src[p + 1..i], addr, src[i], -(p + 5), lost);
    assert next[p + 1..] == out[p + 1..] + [(sum % 256) as byte];
    assert src[p + 1..i + 1] == src[p + 1..i] + [src[i]];
    assert next[..p] == out[..p];
    if left == 1 {
      CarryDone(next[p + 1..], src[p + 1..i + 1], sum / 256, -(p + 5), lost');
      WordEnd(src, next, p);
      assert next[..|next|] == next;
    }
  }

  /** A word that is complete, or cut off by the end of the stream. */
  lemma WordEnd(src: bytes, out: bytes, p: nat)
    requires p < |out| <= |src| && IsOpcode(src[p]) && out[p] == src[p]
    requires |out| == p + 1 + Min(4, |src| - p - 1)
    requires Decoded4108(src) == out[..p] + Walk4108(src[p..], p, false)
    requires out[p + 1..] == Shifted(src[p + 1..|out|], -(p + 5))
    ensures Decoded4108(src) == out + Walk4108(src[|out|..], |out|, false)
  {
    var i := |out|;
    var b, word, rest := src[p], src[p + 1..i], src[i..];
    var behind := Walk4108(rest, i, false);
    Front(src, p, i);
    DecodesWord4108(b, word, rest, out[p + 1..], behind, p);
    RegroupWord(Decoded4108(src), out, p, Walk4108(src[p..], p, false), behind);
  }

  lemma Front(src: bytes, p: nat, i: nat)
    requires p < i <= |src|
    ensures src[p..] == [src[p]] + src[p + 1..i] + src[i..]
  {
  }

  lemma DecodesWord4108(b: byte, word: bytes, rest: bytes, decoded: bytes, behind: bytes, n: nat)
    requires IsOpcode(b) && |word| == Min(4, |word| + |rest|) && decoded == Shifted(word, -(n + 5))
    requires behind == Walk4108(rest, n + 1 + |word|, false)
    ensures Walk4108([b] + word + rest, n, false) == [b] + decoded + behind
  {
    assert Displacement(n, false) == -(n + 5);
    WalkOpcode4108(b, word, rest, n, false);
  }

  lemma RegroupWord(whole: bytes, out: bytes, p: nat, walk: bytes, behind: bytes)
    requires p < |out| && whole == out[..p] + walk && walk == [out[p]] + out[p + 1..] + behind
    ensures whole == out + behind
  {
    Regroup(out, p, behind);
  }

  /** When the bytes run out, what has been written is the whole answer. */
  lemma Finished(src: bytes, out: bytes, p: nat, addr: uint32, left: nat, lost: int)
    requires Carrying(src, out, p, addr, left, lost) && |out| == |src|
    ensures out == Decoded4108(src)
  {
    if left > 0 {
      CarryDone(out[p + 1..], src[p + 1..|src|], addr, -(p + 5), lost);
      WordEnd(src, out, p);
    }
    assert out[..|out|] == out;
  }

  lemma WrapNext(n: nat, k: nat)
    ensures Wrap32(Wrap32(n) + k) == Wrap32(n + k)
  {
  }

  /** One turn of the loop, from (addr, left) to (addr', left') while writing o. */
  lemma Turn(src: bytes, out: bytes, p: nat, addr: uint32, left: nat, lost: int,
             o: byte, addr': uint32, left': nat) returns (p': nat, lost': int)
    requires Carrying(src, out, p, addr, left, lost) && |out| < |src|
    requires var b := src[|out|];
      var sum := Wrap32(addr + b as int);
      if left > 0 then o == (sum % 256) as byte && addr' == sum / 256 && left' == left - 1
      else o == b &&
           if IsOpcode(b) then addr' == Negated(Wrap32(|out| + 5)) && left' == 4
           else addr' == addr && left' == 0
    ensures Carrying(src, out + [o], p', addr', left', lost')
  {
    p', lost' := p, lost;
    if left > 0 {
      lost' := WordByte(src, out, p, addr, left, lost);
      p' := if left == 1 then |out| + 1 else p;
    } else if IsOpcode(src[|out|]) {
      lost' := Opcode(src, out, addr, lost, addr');
    } else {
      PlainByte(src, out, addr, lost);
      p' := |out| + 1;
    }
  }

  /** The body of the loop: one byte, and the state for the next. */
  method NextByte4108(b: byte, offset: uint32, addr: uint32, left: nat) returns (out: byte, addr': uint32, left': nat)
    ensures var sum := Wrap32(addr + b as int);
      if left > 0 then out == (sum % 256) as byte && addr' == sum / 256 && left' == left - 1
      else out == b && if IsOpcode(b) then addr' == Negated(offset) && left' == 4 else addr' == addr && left' == 0
  {
    out, addr', left' := b, addr, left;
    if left == 0 {
      if b == 0xe8 || b == 0xe9 {
        addr' := Negated(offset);
        left' := 4;
      }
    } else {
      addr' := Wrap32(addr + b as int);
      out := (addr' % 256) as byte;
      addr' := addr' / 256;
      left' := left - 1;
    }
  }

  /** The body of the loop on byte i, into dst. */
  method Step4108(src: bytes, dst: array<byte>, i: nat, offset: uint32, addr: uint32, left: nat,
                  ghost p: nat, ghost lost: int)
    returns (offset': uint32, addr': uint32, left': nat, ghost p': nat, ghost lost': int)
    requires i < |src| == dst.Length && offset == Wrap32(i + 5) && Carrying(src, dst[..i], p, addr, left, lost)
    modifies dst
    ensures offset' == Wrap32(i + 1 + 5) && Carrying(src, dst[..i + 1], p', addr', left', lost')
  {
    ghost var before := dst[..i];
    var out;
    out, addr', left' := NextByte4108(src[i], offset, addr, left);
    p', lost' := Turn(src, before, p, addr, left, lost, out, addr', left');
    dst[i] := out;
    assert dst[..i + 1] == before + [out];
    WrapNext(i + 5, 1);
    offset' := Wrap32(offset + 1);
  }

  /** decodeInstruction4108, with its uint32 carry chain. */
  method DecodeInstruction4108(src: bytes) returns (decoded: bytes)
    ensures decoded == Decoded4108(src)
  {
    var dst := new byte[|src|];
    var addr: uint32 := 0;
    var left := 0;
    var offset: uint32 := 5;
    ghost var p, lost := 0, 0;
    assert src[0..] == src;
    for i := 0 to |src|
      invariant offset == Wrap32(i + 5)
      invariant Carrying(src, dst[..i], p, addr, left, lost)
    {
      offset, addr, left, p, lost := Step4108(src, dst, i, offset, addr, left, p, lost);
    }
    assert dst[..|src|] == dst[..];
    Finished(src, dst[..], p, addr, left, lost);
    decoded := dst[..];
  }

  // ---------------------------------------------------------------- Inno Setup 5.2.0 / 5.3.9

  /** Bytes from position n to the end of its 64 KiB block. */
  function LeftInBlock(n: nat): nat {
    0x1_0000 - n % 0x1_0000
  }

  function Low24(v: nat): nat {
    v % 0x100_0000
  }

  function High8(v: uint32): byte {
    (v / 0x100_0000) as byte
  }

  /** High byte of a word: flipped when the caller asks for it and bit 23 of the
      displacement is set. */
  function HighByte(high: byte, rel: nat, flip: bool): byte {
    if flip && rel >= 0x80_0000 then 255 - high else high
  }

  /** One address word whose last byte is at position n - 1, turned into a displacement. */
  function DecodedWord(w: bytes, n: nat, flip: bool): (r: bytes)
    requires |w| == 4
    ensures |r| == 4
  {
    if w[3] != 0 && w[3] != 0xff then w
    else
      var rel := (LE(w[..3]) - n) % 0x100_0000;
      ToLE(rel, 3) + [HighByte(w[3], rel, flip)]
  }

  /** The displacement word turned back into an address. */
  function EncodedWord(w: bytes, n: nat, flip: bool): (r: bytes)
    requires |w| == 4
    ensures |r| == 4
  {
    if w[3] != 0 && w[3] != 0xff then w
    else
      var rel := LE(w[..3]);
      ToLE((rel + n) % 0x100_0000, 3) + [HighByte(w[3], rel, flip)]
  }

  function Word(w: bytes, n: nat, flip: bool, encode: bool): (r: bytes)
    requires |w| == 4
    ensures |r| == 4
  {
    if encode then EncodedWord(w, n, flip) else DecodedWord(w, n, flip)
  }

  /** The 5.2.0 filter from stream position n on, for the remaining bytes t.  An opcode in the
      last four bytes of a 64 KiB block is an ordinary byte, and a word cut off by the end of
      the stream stays as it is. */
  function Walk5200(t: bytes, n: nat, flip: bool, encode: bool): (r: bytes)
    ensures |r| == |t|
    decreases |t|
  {
    if t == [] then []
    else if !IsOpcode(t[0]) || LeftInBlock(n) < 5 then [t[0]] + Walk5200(t[1..], n + 1, flip, encode)
    else if |t| < 5 then t
    else [t[0]] + Word(t[1..5], n + 5, flip, encode) + Walk5200(t[5..], n + 5, flip, encode)
  }

  function Decoded5200(src: bytes, flip: bool): (r: bytes)
    ensures |r| == |src|
  {
    Walk5200(src, 0, flip, false)
  }

  function Encoded5200(src: bytes, flip: bool): (r: bytes)
    ensures |r| == |src|
  {
    Walk5200(src, 0, flip, true)
  }

  lemma EncodesDecoded(w: bytes, n: nat, flip: bool)
    requires |w| == 4
    ensures EncodedWord(DecodedWord(w, n, flip), n, flip) == w
  {
    if w[3] == 0 || w[3] == 0xff {
      var v := LE(w[..3]);
      var down := (v - n) % 0x100_0000;
      WordBound(w[..3]);
      LEToLE(w[..3]);
      assert w == w[..3] + [w[3]];
      WordValue(down, 3);
      assert DecodedWord(w, n, flip)[..3] == ToLE(down, 3);
      TruncatedBack(v, -(n as int), 3);
    }
  }

  lemma DecodesEncoded(w: bytes, n: nat, flip: bool)
    requires |w| == 4
    ensures DecodedWord(EncodedWord(w, n, flip), n, flip) == w
  {
    if w[3] == 0 || w[3] == 0xff {
      var v := LE(w[..3]);
      var up := (v + n) % 0x100_0000;
      WordBound(w[..3]);
      LEToLE(w[..3]);
      assert w == w[..3] + [w[3]];
      WordValue(up, 3);
      assert EncodedWord(w, n, flip)[..3] == ToLE(up, 3);
      TruncatedBack(v, n, 3);
    }
  }

  lemma WordBack(w: bytes, n: nat, flip: bool)
    requires |w| == 4
    ensures EncodedWord(DecodedWord(w, n, flip), n, flip) == w
    ensures DecodedWord(EncodedWord(w, n, flip), n, flip) == w
  {
    EncodesDecoded(w, n, flip);
    DecodesEncoded(w, n, flip);
  }

  lemma {:induction false} WalkBack5200(t: bytes, n: nat, flip: bool, encode: bool)
    ensures Walk5200(Walk5200(t, n, flip, encode), n, flip, !encode) == t
    decreases |t|
  {
    var r := Walk5200(t, n, flip, encode);
    if t == [] {
    } else if !IsOpcode(t[0]) || LeftInBlock(n) < 5 {
      WalkBack5200(t[1..], n + 1, flip, encode);
      assert r[1..] == Walk5200(t[1..], n + 1, flip, encode);
    } else if |t| < 5 {
    } else {
      WalkBack5200(t[5..], n + 5, flip, encode);
      WordBack(t[1..5], n + 5, flip);
      assert r[1..5] == Word(t[1..5], n + 5, flip, encode);
      assert r[5..] == Walk5200(t[5..], n + 5, flip, encode);
      Rejoin(t, 4);
    }
  }

  /** The 5.2.0 and 5.3.9 filters are bijections on byte strings. */
  lemma Bijection5200(x: bytes, flip: bool)
    ensures Encoded5200(Decoded5200(x, flip), flip) == x
    ensures Decoded5200(Encoded5200(x, flip), flip) == x
  {
    WalkBack5200(x, 0, flip, false);
    WalkBack5200(x, 0, flip, true);
  }

  /** The 32-bit arithmetic of the source on the low 24 bits agrees with arithmetic on the
      unbounded position, also after the uint32 position has wrapped. */
  lemma Low24Agrees(addr: uint32, offset: uint32, n: nat, rel: uint32)
    requires offset == Wrap32(n)
    requires rel == Wrap32(Low24(addr) - Low24(offset))
    ensures Low24(rel) == (Low24(addr) - n) % 0x100_0000
  {
    var a := Low24(addr);
    var q := n / 0x1_0000_0000;
    assert n == 0x100_0000 * (256 * q) + offset;
    var d := (a - offset % 0x100_0000) / 0x1_0000_0000;
    assert a - n == 0x100_0000 * (256 * d - 256 * q - offset / 0x100_0000) + rel;
    var k := 256 * d - 256 * q - offset / 0x100_0000;
    ModUnique(a - n, 0x100_0000, k + rel / 0x100_0000, Low24(rel));
  }

  /** The bytes of a 32-bit word: the low three and the top one. */
  lemma Split32(w: bytes)
    requires |w| == 4
    ensures LE(w) < 0x1_0000_0000 && Low24(LE(w)) == LE(w[..3]) && High8(LE(w)) == w[3]
  {
    WordBound(w[..3]);
    WordAppend(w[..3], w[3]);
    assert w == w[..3] + [w[3]];
    ModUnique(LE(w), 0x100_0000, w[3] as int, LE(w[..3]));
  }

  lemma UnfoldTail5200(src: bytes, i: nat, flip: bool)
    requires i < |src| < i + 5 && IsOpcode(src[i]) && LeftInBlock(i) >= 5
    ensures Walk5200(src[i..], i, flip, false) == [src[i]] + src[i + 1..] + Walk5200(src[|src|..], |src|, flip, false)
  {
    assert src[i..] == [src[i]] + src[i + 1..];
  }

  /** The word that ends where the uint32 counter says `offset`; n is the true position. */
  method DecodeAddress(w: bytes, offset: uint32, flipHighByte: bool, ghost n: nat) returns (buf: bytes)
    requires |w| == 4 && offset == Wrap32(n)
    ensures buf == DecodedWord(w, n, flipHighByte)
  {
    Split32(w);
    var addr: uint32 := LE(w);
    if High8(addr) != 0 && High8(addr) != 0xff {
      return w;
    }
    var rel := Wrap32(Low24(addr) - Low24(offset));
    var high := High8(addr);
    if flipHighByte && Low24(rel) >= 0x80_0000 {
      high := 255 - high;
    }
    WordStep(w, offset, rel, n, flipHighByte);
    buf := ToLE(rel, 4)[..3] + [high];
  }

  lemma UnfoldPlain5200(src: bytes, i: nat, flip: bool)
    requires i < |src| && (!IsOpcode(src[i]) || LeftInBlock(i) < 5)
    ensures Walk5200(src[i..], i, flip, false) == [src[i]] + Walk5200(src[i + 1..], i + 1, flip, false)
  {
    assert src[i..][1..] == src[i + 1..];
  }

  lemma UnfoldWord5200(src: bytes, i: nat, flip: bool)
    requires i + 5 <= |src| && IsOpcode(src[i]) && LeftInBlock(i) >= 5
    ensures Walk5200(src[i..], i, flip, false)
         == [src[i]] + DecodedWord(src[i + 1..i + 5], i + 5, flip) + Walk5200(src[i + 5..], i + 5, flip, false)
  {
    assert src[i..][1..5] == src[i + 1..i + 5] && src[i..][5..] == src[i + 5..];
  }

  /** The body of the loop: the bytes it appends, and where the scan goes on. */
  method Step5200(src: bytes, i: nat, offset: uint32, flipHighByte: bool)
    returns (piece: bytes, next: nat, offset': uint32)
    requires i < |src| && offset == Wrap32(i)
    ensures i < next <= |src| && offset' == Wrap32(next)
    ensures Walk5200(src[i..], i, flipHighByte, false) == piece + Walk5200(src[next..], next, flipHighByte, false)
  {
    var b := src[i];
    piece, next, offset' := [b], i + 1, Wrap32(offset + 1);
    WrapNext(i, 1);
    PositionInBlock(i);
    var left := LeftInBlock(Wrap32(offset' - 1));
    if (b != 0xe8 && b != 0xe9) || left < 5 {
      UnfoldPlain5200(src, i, flipHighByte);
      return;
    }
    if |src| - next < 4 {
      UnfoldTail5200(src, i, flipHighByte);
      WrapNext(next, |src| - next);
      piece, next, offset' := [b] + src[next..], |src|, Wrap32(offset' + (|src| - next));
      return;
    }
    WrapNext(next, 4);
    next := next + 4;
    offset' := Wrap32(offset' + 4);
    UnfoldWord5200(src, i, flipHighByte);
    var buf := DecodeAddress(src[i + 1..next], offset', flipHighByte, next);
    piece := [b] + buf;
  }

  /** decodeInstruction5200; `flipHighByte` is false for 5.2.0 and true for 5.3.9. */
  method DecodeInstruction5200(src: bytes, flipHighByte: bool) returns (dst: bytes)
    ensures dst == Decoded5200(src, flipHighByte)
  {
    dst := [];
    var offset: uint32 := 0;
    var i := 0;
    ghost var whole := Decoded5200(src, flipHighByte);
    assert src[0..] == src;
    while i < |src|
      invariant i <= |src| && offset == Wrap32(i)
      invariant whole == dst + Walk5200(src[i..], i, flipHighByte, false)
    {
      var piece, next, after := Step5200(src, i, offset, flipHighByte);
      Emit(whole, dst, piece, Walk5200(src[next..], next, flipHighByte, false));
      dst := dst + piece;
      i, offset := next, after;
    }
    assert src[|src|..] == [];
  }

  /** The position counter of the source, after its own increment, locates byte n in its block. */
  lemma PositionInBlock(n: nat)
    ensures LeftInBlock(Wrap32(Wrap32(n + 1) - 1)) == LeftInBlock(n)
  {
    var q := n / 0x1_0000_0000;
    var r := n % 0x1_0000_0000;
    if r + 1 == 0x1_0000_0000 {
      ModUnique(n + 1, 0x1_0000_0000, q + 1, 0);
    } else {
      ModUnique(n + 1, 0x1_0000_0000, q, r + 1);
    }
    assert Wrap32(Wrap32(n + 1) - 1) == r;
    ModUnique(n, 0x1_0000, q * 0x1_0000 + r / 0x1_0000, r % 0x1_0000);
  }

  /** The word computed with 32-bit arithmetic is the word of the specification. */
  lemma WordStep(w: bytes, offset: uint32, rel: uint32, n: nat, flip: bool)
    requires |w| == 4 && (w[3] == 0 || w[3] == 0xff)
    requires offset == Wrap32(n)
    requires rel == Wrap32(Low24(LE(w)) - Low24(offset))
    ensures ToLE(rel, 4)[..3] + [HighByte(w[3], Low24(rel), flip)] == DecodedWord(w, n, flip)
  {
    Split32(w);
    Low24Agrees(LE(w), offset, n, rel);
    SmallPowers();
    ToLETake(rel, 4, 3);
  }

}
