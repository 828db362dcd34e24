/** Exclusive or on numbers and byte strings, bit by bit. */
module ExclusiveOr {
  import opened Bytes

  function Xor(x: nat, y: nat): nat
    decreases x + y
  {
    if x == 0 && y == 0 then 0 else (x + y) % 2 + 2 * Xor(x / 2, y / 2)
  }

  function Pow2(n: nat): (p: nat)
    ensures p > 0
  {
    if n == 0 then 1 else 2 * Pow2(n - 1)
  }

  lemma TwoToTheEighth()
    ensures Pow2(8) == 256
  {
    assert Pow2(4) == 2 * Pow2(3) && Pow2(3) == 2 * Pow2(2) && Pow2(2) == 2 * Pow2(1) && Pow2(1) == 2;
    assert Pow2(8) == 2 * Pow2(7) && Pow2(7) == 2 * Pow2(6) && Pow2(6) == 2 * Pow2(5) && Pow2(5) == 2 * Pow2(4);
  }

  lemma {:induction false} XorBound(x: nat, y: nat, n: nat)
    requires x < Pow2(n) && y < Pow2(n)
    ensures Xor(x, y) < Pow2(n)
  {
    if n > 0 {
      XorBound(x / 2, y / 2, n - 1);
    }
  }

  lemma {:induction false} XorWithZero(x: nat)
    ensures Xor(x, 0) == x && Xor(0, x) == x && Xor(x, x) == 0
  {
    if x > 0 {
      XorWithZero(x / 2);
      assert (x + x) % 2 == 0;
    }
  }

  /** Applying the same number twice changes nothing. */
  lemma {:induction false} XorTwice(x: nat, y: nat)
    ensures Xor(Xor(x, y), y) == x
    decreases x + y
  {
    if x > 0 || y > 0 {
      var q := Xor(x / 2, y / 2);
      XorTwice(x / 2, y / 2);
      XorBits(x, y);
      Bits((x + y) % 2, q);
      XorBits(Xor(x, y), y);
      ParityBack(x, y, q);
    }
  }

  /** The lowest bit and the others. */
  lemma XorBits(x: nat, y: nat)
    ensures Xor(x, y) == (x + y) % 2 + 2 * Xor(x / 2, y / 2)
  {
  }

  lemma Bits(b: nat, q: nat)
    requires b < 2
    ensures (b + 2 * q) % 2 == b && (b + 2 * q) / 2 == q
  {
  }

  lemma ParityBack(x: nat, y: nat, q: nat)
    ensures ((x + y) % 2 + 2 * q + y) % 2 == x % 2
  {
  }

  lemma ParityOfSum(x: nat, y: nat, m: nat, k: nat)
    ensures (x + 2 * m + (y + 2 * k)) % 2 == (x + y) % 2
  {
  }

  lemma XorOneUp(x: nat, y: nat, a: nat, b: nat, c: nat)
    requires Xor(x / 2 + a, y / 2 + b) == Xor(x / 2, y / 2) + c
    ensures Xor(x + 2 * a, y + 2 * b) == Xor(x, y) + 2 * c
  {
    HalfOfSum(x, a);
    HalfOfSum(y, b);
    XorBits(x + 2 * a, y + 2 * b);
    XorBits(x, y);
    ParityOfSum(x, y, a, b);
  }

  /** Bit k of a number. */
  function BitOf(x: nat, k: nat): nat {
    if k == 0 then x % 2 else BitOf(x / 2, k - 1)
  }

  /** Bit by bit, exclusive or is addition without a carry. */
  lemma {:induction false} XorBitAt(x: nat, y: nat, k: nat)
    ensures BitOf(Xor(x, y), k) == (BitOf(x, k) + BitOf(y, k)) % 2
    decreases k
  {
    XorHalves(x, y);
    if k == 0 {
      ParityOfBits(x, y);
    } else {
      XorBitAt(x / 2, y / 2, k - 1);
    }
  }

  lemma XorHalves(x: nat, y: nat)
    ensures Xor(x, y) % 2 == (x + y) % 2 && Xor(x, y) / 2 == Xor(x / 2, y / 2)
  {
    XorBits(x, y);
    BitsOf(Xor(x, y), (x + y) % 2, Xor(x / 2, y / 2));
  }

  lemma BitsOf(z: nat, b: nat, q: nat)
    requires b < 2 && z == b + 2 * q
    ensures z % 2 == b && z / 2 == q
  {
  }

  lemma ParityOfBits(x: nat, y: nat)
    ensures (x + y) % 2 == (x % 2 + y % 2) % 2
  {
  }

  /** The low n bits and the others do not mix. */
  lemma {:induction false} XorSplit(x: nat, y: nat, a: nat, b: nat, n: nat)
    requires x < Pow2(n) && y < Pow2(n)
    ensures Xor(x + Pow2(n) * a, y + Pow2(n) * b) == Xor(x, y) + Pow2(n) * Xor(a, b)
  {
    if n > 0 {
      var h := Pow2(n - 1);
      XorSplit(x / 2, y / 2, a, b, n - 1);
      var ha := Doubled(h, a);
      var hb := Doubled(h, b);
      var hc := Doubled(h, Xor(a, b));
      XorOneUp(x, y, ha, hb, hc);
    }
  }

  lemma Doubled(h: nat, a: nat) returns (m: nat)
    ensures m == h * a && (2 * h) * a == 2 * m
  {
    m := h * a;
  }

  lemma HalfOfSum(x: nat, m: nat)
    ensures (x + 2 * m) / 2 == x / 2 + m && (x + 2 * m) % 2 == x % 2
  {
  }

  function XorByte(x: byte, y: byte): byte {
    TwoToTheEighth();
    XorBound(x as nat, y as nat, 8);
    Xor(x as nat, y as nat) as byte
  }

  lemma XorByteTwice(x: byte, y: byte)
    ensures XorByte(XorByte(x, y), y) == x
  {
    XorTwice(x as nat, y as nat);
  }

  /** Byte by byte, as far as both go. */
  function XorBytes(s: bytes, t: bytes): (r: bytes)
    ensures |r| == if |s| < |t| then |s| else |t|
  {
    if s == [] || t == [] then [] else [XorByte(s[0], t[0])] + XorBytes(s[1..], t[1..])
  }

  lemma {:induction false} XorBytesAt(s: bytes, t: bytes, i: nat)
    requires i < |s| && i < |t|
    ensures XorBytes(s, t)[i] == XorByte(s[i], t[i])
  {
    if i > 0 {
      XorBytesAt(s[1..], t[1..], i - 1);
    }
  }

  lemma {:induction false} XorBytesTwice(s: bytes, t: bytes)
    requires |s| <= |t|
    ensures XorBytes(XorBytes(s, t), t) == s
  {
    if s != [] {
      XorByteTwice(s[0], t[0]);
      XorBytesTwice(s[1..], t[1..]);
      assert XorBytes(s, t)[1..] == XorBytes(s[1..], t[1..]);
    }
  }

  lemma {:induction false} XorBytesAppend(s: bytes, s': bytes, t: bytes, t': bytes)
    requires |s| == |t|
    ensures XorBytes(s + s', t + t') == XorBytes(s, t) + XorBytes(s', t')
  {
    if s == [] {
      assert s + s' == s' && t + t' == t';
    } else {
      XorBytesAppend(s[1..], s', t[1..], t');
      assert (s + s')[1..] == s[1..] + s' && (t + t')[1..] == t[1..] + t';
    }
  }

  /** The words of two byte strings combine as their bytes do. */
  lemma {:induction false} XorOfWords(s: bytes, t: bytes)
    requires |s| == |t|
    ensures Xor(LE(s), LE(t)) == LE(XorBytes(s, t))
  {
    if s != [] {
      TwoToTheEighth();
      XorSplit(s[0] as nat, t[0] as nat, LE(s[1..]), LE(t[1..]), 8);
      XorOfWords(s[1..], t[1..]);
      assert XorBytes(s, t)[1..] == XorBytes(s[1..], t[1..]);
    }
  }
}
