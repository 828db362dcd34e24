/** The nonces of the XChaCha20 chunks (internal/crypto/crypto.go).  The cipher itself is a
    parameter: the key byte at each position, for a key and a nonce. */
module Nonces {
  import opened Bytes
  import opened ExclusiveOr

  const KEY_SIZE := 32
  const NONCE_SIZE := 24

  /** ChunkNonce: the first eight bytes are combined with the offset of the chunk, the next four
      with its first slice. */
  function ChunkNonce(keyNonce: bytes, offset: uint64, firstSlice: uint32): Option<bytes> {
    if |keyNonce| != KEY_SIZE + NONCE_SIZE then None
    else
      var base := keyNonce[KEY_SIZE..];
      Some(ToLE(Xor(LE(base[..8]), offset), 8) + ToLE(Xor(LE(base[8..12]), firstSlice), 4) + base[12..])
  }

  /** What a chunk's nonce is combined with. */
  function Mask(offset: uint64, firstSlice: uint32): (m: bytes)
    ensures |m| == NONCE_SIZE
  {
    ToLE(offset, 8) + ToLE(firstSlice, 4) + Zeros(12)
  }

  lemma MaskedWord(w: bytes, t: bytes)
    requires |w| == |t|
    ensures ToLE(Xor(LE(w), LE(t)), |w|) == XorBytes(w, t)
  {
    XorOfWords(w, t);
    LEToLE(XorBytes(w, t));
  }

  lemma WordMask(w: bytes, x: uint64)
    requires |w| == 8 || (|w| == 4 && x < 0x1_0000_0000)
    ensures ToLE(Xor(LE(w), x), |w|) == XorBytes(w, ToLE(x, |w|))
  {
    WordBack(x, |w|);
    MaskedWord(w, ToLE(x, |w|));
  }

  lemma {:induction false} ZeroMask(s: bytes, z: bytes)
    requires |s| == |z| && forall i | 0 <= i < |z| :: z[i] == 0
    ensures XorBytes(s, z) == s && XorBytes(z, s) == s
  {
    if s != [] {
      XorWithZero(s[0] as nat);
      ZeroMask(s[1..], z[1..]);
    }
  }

  /** The nonce is the base nonce combined with the mask, byte by byte; the last twelve bytes do
      not change. */
  lemma NonceIsMasked(keyNonce: bytes, offset: uint64, firstSlice: uint32)
    requires |keyNonce| == 56
    ensures ChunkNonce(keyNonce, offset, firstSlice) == Some(XorBytes(keyNonce[32..], Mask(offset, firstSlice)))
    ensures XorBytes(keyNonce[32..], Mask(offset, firstSlice))[12..] == keyNonce[44..]
  {
    var base, zeros: bytes := keyNonce[KEY_SIZE..], Zeros(12);
    var a, b, c := base[..8], base[8..12], base[12..];
    WordMask(a, offset);
    WordMask(b, firstSlice);
    ZeroMask(c, zeros);
    XorBytesAppend(a, b, ToLE(offset, 8), ToLE(firstSlice, 4));
    XorBytesAppend(a + b, c, ToLE(offset, 8) + ToLE(firstSlice, 4), zeros);
    assert base == a + b + c;
  }

  /** Deriving the nonce of the same chunk from a chunk's nonce leads back. */
  lemma NonceTwice(keyNonce: bytes, offset: uint64, firstSlice: uint32)
    requires |keyNonce| == 56
    ensures var nonce := ChunkNonce(keyNonce, offset, firstSlice);
      nonce.Some? && ChunkNonce(keyNonce[..32] + nonce.value, offset, firstSlice) == Some(keyNonce[32..])
  {
    NonceIsMasked(keyNonce, offset, firstSlice);
    var nonce := ChunkNonce(keyNonce, offset, firstSlice).value;
    NonceIsMasked(keyNonce[..KEY_SIZE] + nonce, offset, firstSlice);
    assert (keyNonce[..KEY_SIZE] + nonce)[KEY_SIZE..] == nonce;
    XorBytesTwice(keyNonce[KEY_SIZE..], Mask(offset, firstSlice));
  }

  lemma {:induction false} XorBytesCommute(s: bytes, t: bytes)
    ensures XorBytes(s, t) == XorBytes(t, s)
  {
    if s != [] && t != [] {
      XorCommutes(s[0] as nat, t[0] as nat);
      XorBytesCommute(s[1..], t[1..]);
    }
  }

  lemma {:induction false} XorCommutes(x: nat, y: nat)
    ensures Xor(x, y) == Xor(y, x)
    decreases x + y
  {
    if x > 0 || y > 0 {
      XorCommutes(x / 2, y / 2);
    }
  }

  lemma SameNonceSameMask(base: bytes, m: bytes, n: bytes)
    requires |base| == |m| == |n| && XorBytes(base, m) == XorBytes(base, n)
    ensures m == n
  {
    XorBytesCommute(base, m);
    XorBytesCommute(base, n);
    XorBytesTwice(m, base);
    XorBytesTwice(n, base);
  }

  /** Under one key, two chunks share a nonce only if they start at the same place. */
  lemma ChunksHaveTheirOwnNonce(keyNonce: bytes, offset: uint64, firstSlice: uint32,
                                offset': uint64, firstSlice': uint32)
    requires |keyNonce| == 56
    ensures ChunkNonce(keyNonce, offset, firstSlice) == ChunkNonce(keyNonce, offset', firstSlice')
       <==> offset == offset' && firstSlice == firstSlice'
  {
    var m, n := Mask(offset, firstSlice), Mask(offset', firstSlice');
    NonceIsMasked(keyNonce, offset, firstSlice);
    NonceIsMasked(keyNonce, offset', firstSlice');
    if ChunkNonce(keyNonce, offset, firstSlice) == ChunkNonce(keyNonce, offset', firstSlice') {
      SameNonceSameMask(keyNonce[KEY_SIZE..], m, n);
      WordBack(offset, 8);
      WordBack(offset', 8);
      WordBack(firstSlice, 4);
      WordBack(firstSlice', 4);
      assert m[..8] == ToLE(offset, 8) && n[..8] == ToLE(offset', 8);
      assert m[8..12] == ToLE(firstSlice, 4) && n[8..12] == ToLE(firstSlice', 4);
    }
  }

  /** Byte by byte: the first eight bytes behind the key are combined with the bytes of the offset,
      the next four with those of the first slice, least significant first, and the others stay. */
  lemma NonceBytes(keyNonce: bytes, offset: uint64, firstSlice: uint32, k: nat)
    requires |keyNonce| == 56 && k < 24
    ensures var nonce := ChunkNonce(keyNonce, offset, firstSlice);
      && nonce.Some? && |nonce.value| == 24
      && nonce.value[k]
         == if k < 8 then XorByte(keyNonce[32 + k], ByteOf(offset, k))
            else if k < 12 then XorByte(keyNonce[32 + k], ByteOf(firstSlice, k - 8))
            else keyNonce[32 + k]
  {
    var base, mask := keyNonce[32..], Mask(offset, firstSlice);
    NonceIsMasked(keyNonce, offset, firstSlice);
    XorBytesAt(base, mask, k);
    if k < 8 {
      WrittenByte(offset, 8, k);
    } else if k < 12 {
      WrittenByte(firstSlice, 4, k - 8);
    } else {
      XorWithZero(base[k] as nat);
    }
  }

  /** Byte k of a number. */
  function ByteOf(v: nat, k: nat): byte {
    if k == 0 then (v % 256) as byte else ByteOf(v / 256, k - 1)
  }

  lemma {:induction false} WrittenByte(v: nat, n: nat, k: nat)
    requires k < n
    ensures ToLE(v, n)[k] == ByteOf(v, k)
  {
    if k > 0 {
      WrittenByte(v / 256, n - 1, k - 1);
    }
  }

  // ---------------------------------------------------------------- the password test

  function Inverted(b: byte): byte {
    0xFF - b
  }

  /** The nonce of the password test: bytes 8 to 11 inverted. */
  function TestNonce(base: bytes): (nonce: bytes)
    requires |base| == NONCE_SIZE
    ensures |nonce| == NONCE_SIZE
  {
    base[..8] + [Inverted(base[8]), Inverted(base[9]), Inverted(base[10]), Inverted(base[11])] + base[12..]
  }

  lemma HalfOf(q: int, r: int)
    requires 0 <= r < 2
    ensures (2 * q + r) / 2 == q && (2 * q + r) % 2 == r
  {
  }

  /** All ones, one bit longer. */
  lemma OnesBits(x: nat, h: nat)
    requires h > 0 && x < 2 * h
    ensures (2 * h - 1) / 2 == h - 1 && (x + (2 * h - 1)) % 2 == 1 - x % 2 && x / 2 < h
  {
    var q, r := x / 2, x % 2;
    HalfOf(h - 1, 1);
    if r == 0 {
      HalfOf(q + h - 1, 1);
    } else {
      HalfOf(q + h, 0);
    }
  }

  lemma OnesLess(x: nat, h: nat)
    requires h > 0 && x < 2 * h
    ensures 1 - x % 2 + 2 * (h - 1 - x / 2) == 2 * h - 1 - x
  {
  }

  lemma {:induction false} XorWithOnes(x: nat, n: nat)
    requires x < Pow2(n)
    ensures Xor(x, Pow2(n) - 1) == Pow2(n) - 1 - x
  {
    if n > 0 {
      var h := Pow2(n - 1);
      OnesBits(x, h);
      XorWithOnes(x / 2, n - 1);
      XorBits(x, 2 * h - 1);
      OnesLess(x, h);
    }
  }

  lemma InvertedIsXor(b: byte)
    ensures XorByte(b, 0xFF) == Inverted(b)
  {
    TwoToTheEighth();
    XorWithOnes(b as nat, 8);
  }

  const ONES: bytes := [0xFF, 0xFF, 0xFF, 0xFF]

  /** The mask of offset 0 and the last possible slice. */
  lemma TestMask()
    ensures Mask(0, 0xFFFF_FFFF) == Zeros(8) + ONES + Zeros(12)
  {
    assert ToLE(0xFFFF_FFFF, 4) == ONES;
    assert ToLE(0, 8) == Zeros(8);
  }

  lemma TestNonceIsMasked(a: bytes, b: bytes, c: bytes)
    requires |a| == 8 && |b| == 4 && |c| == 12
    ensures XorBytes(a + b + c, Zeros(8) + ONES + Zeros(12)) == TestNonce(a + b + c)
  {
    var z8, z12 := Zeros(8), Zeros(12);
    ZeroMask(a, z8);
    ZeroMask(c, z12);
    XorBytesAppend(a, b, z8, ONES);
    XorBytesAppend(a + b, c, z8 + ONES, z12);
    var flipped := XorBytes(b, ONES);
    FourInverted(b);
    TestNonceParts(a, b, c, flipped);
  }

  lemma TestNonceParts(a: bytes, b: bytes, c: bytes, flipped: bytes)
    requires |a| == 8 && |b| == 4 && |c| == 12
    requires flipped == [Inverted(b[0]), Inverted(b[1]), Inverted(b[2]), Inverted(b[3])]
    ensures TestNonce(a + b + c) == a + flipped + c
  {
    var base := a + b + c;
    assert base[..8] == a && base[12..] == c;
    assert base[8] == b[0] && base[9] == b[1] && base[10] == b[2] && base[11] == b[3];
  }

  lemma TestNonceOfChunk(keyNonce: bytes)
    requires |keyNonce| == 56
    ensures ChunkNonce(keyNonce, 0, 0xFFFF_FFFF) == Some(TestNonce(keyNonce[32..]))
  {
    var base := keyNonce[KEY_SIZE..];
    var a, b, c := base[..8], base[8..12], base[12..];
    NonceIsMasked(keyNonce, 0, 0xFFFF_FFFF);
    TestMask();
    TestNonceIsMasked(a, b, c);
    assert base == a + b + c;
  }

  /** The password test uses the nonce of a chunk at offset 0 of the last possible slice, and so
      no chunk that starts anywhere else shares it. */
  lemma TestNonceIsAChunkNonce(keyNonce: bytes, offset: uint64, firstSlice: uint32)
    requires |keyNonce| == 56
    ensures ChunkNonce(keyNonce, offset, firstSlice) == Some(TestNonce(keyNonce[32..]))
       <==> offset == 0 && firstSlice == 0xFFFF_FFFF
  {
    TestNonceOfChunk(keyNonce);
    ChunksHaveTheirOwnNonce(keyNonce, offset, firstSlice, 0, 0xFFFF_FFFF);
  }

  lemma AtInverted(b: bytes, ones: bytes, i: nat)
    requires i < |b| && i < |ones| && ones[i] == 0xFF
    ensures XorBytes(b, ones)[i] == Inverted(b[i])
  {
    XorBytesAt(b, ones, i);
    InvertedIsXor(b[i]);
  }

  lemma FourInverted(b: bytes)
    requires |b| == 4
    ensures XorBytes(b, ONES) == [Inverted(b[0]), Inverted(b[1]), Inverted(b[2]), Inverted(b[3])]
  {
    var x := XorBytes(b, ONES);
    AtInverted(b, ONES, 0);
    AtInverted(b, ONES, 1);
    AtInverted(b, ONES, 2);
    AtInverted(b, ONES, 3);
    FourBytes(x);
  }

  lemma FourBytes(x: bytes)
    requires |x| == 4
    ensures x == [x[0], x[1], x[2], x[3]]
  {
  }

  /** The key bytes of the cipher under this key and nonce, from position 0 on. */
  function KeyBytes(chacha: (bytes, bytes, nat) -> byte, key: bytes, nonce: bytes, n: nat): (k: bytes)
    ensures |k| == n
  {
    seq(n, i requires i >= 0 => chacha(key, nonce, i))
  }

  method VerifyXChaChaPassword(chacha: (bytes, bytes, nat) -> byte, keyNonce: bytes, expected: bytes)
    returns (ok: bool)
    ensures ok <==>
      && |keyNonce| == 56 && |expected| >= 4
      && forall i :: 0 <= i < 4 ==> expected[i] == chacha(keyNonce[..32], TestNonce(keyNonce[32..]), i)
  {
    if |keyNonce| != KEY_SIZE + NONCE_SIZE || |expected| < 4 {
      return false;
    }
    var base := keyNonce[KEY_SIZE..];
    var nonce := new byte[NONCE_SIZE](i requires 0 <= i < NONCE_SIZE => base[i]);
    for i := 8 to 12
      invariant forall k | 0 <= k < NONCE_SIZE :: nonce[k] == if 8 <= k < i then Inverted(base[k]) else base[k]
    {
      nonce[i] := Inverted(nonce[i]);
    }
    assert nonce[..] == TestNonce(base);
    var actual: bytes := [0, 0, 0, 0];
    var k := KeyBytes(chacha, keyNonce[..KEY_SIZE], nonce[..], 4);
    ZeroMask(k, actual);
    actual := XorBytes(actual, k);
    ok := actual == expected[..4];
  }

  method DeriveChunkNonce(keyNonce: bytes, offset: uint64, firstSlice: uint32) returns (r: Option<array<byte>>)
    ensures r.Some? == (|keyNonce| == 56)
    ensures r.Some? ==> fresh(r.value) && Some(r.value[..]) == ChunkNonce(keyNonce, offset, firstSlice)
  {
    if |keyNonce| != KEY_SIZE + NONCE_SIZE {
      return None;
    }
    var base := keyNonce[KEY_SIZE..];
    var nonce := new byte[NONCE_SIZE](i requires 0 <= i < NONCE_SIZE => base[i]);
    assert nonce[..] == base;
    PutWord(nonce, 0, 8, Xor(LE(nonce[..8]), offset));
    ghost var first := ToLE(Xor(LE(base[..8]), offset), 8);
    assert nonce[..] == first + base[8..];
    Middle(first, base);
    PutWord(nonce, 8, 4, Xor(LE(nonce[8..12]), firstSlice));
    r := Some(nonce);
  }

  lemma Middle(first: bytes, base: bytes)
    requires |first| == 8 && |base| == NONCE_SIZE
    ensures var x := first + base[8..];
      x[..8] == first && x[8..12] == base[8..12] && x[12..] == base[12..]
  {
  }

  /** PutUint64 and PutUint32. */
  method PutWord(d: array<byte>, lo: nat, n: nat, x: nat)
    requires lo + n <= d.Length
    modifies d
    ensures d[..] == old(d[..])[..lo] + ToLE(x, n) + old(d[..])[lo + n..]
  {
    var w := ToLE(x, n);
    forall k | 0 <= k < n {
      d[lo + k] := w[k];
    }
    assert d[..lo] == old(d[..lo]) && d[lo..lo + n] == w && d[lo + n..] == old(d[lo + n..]);
  }
}
