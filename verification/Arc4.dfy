/** The legacy stream cipher of encrypted chunks (internal/crypto/crypto.go) and the reader that
    applies it (internal/stream/stream.go).

    The cipher's state is a table and two counters; the specification is its step.  The table
    stays a permutation of the byte values, which is part of the class invariant. */
module Arc4 {
  import opened Bytes
  import opened ExclusiveOr
  import opened StreamCiphers
  import opened Slices

  type Table = s: seq<byte> | |s| == 256 witness seq(256, i => 0)

  datatype State = State(s: Table, a: byte, b: byte)

  function ByteSum(x: byte, y: byte): byte {
    ((x as int + y as int) % 256) as byte
  }

  function Swapped(s: Table, i: byte, j: byte): Table {
    s[i as int := s[j as int]][j as int := s[i as int]]
  }

  function Step(st: State): State {
    var a := ByteSum(st.a, 1);
    var b := ByteSum(st.b, st.s[a as int]);
    State(Swapped(st.s, a, b), a, b)
  }

  function Output(st: State): byte {
    st.s[ByteSum(st.s[st.a as int], st.s[st.b as int]) as int]
  }

  const RC4: Cipher<State> := Cipher(Step, Output)

  // ---------------------------------------------------------------- the table

  /** Every byte value stands in the table once. */
  ghost predicate IsPermutation(s: seq<byte>) {
    forall v: byte :: multiset(s)[v] == 1
  }

  lemma SwapKeepsPermutation(s: Table, i: byte, j: byte)
    requires IsPermutation(s)
    ensures IsPermutation(Swapped(s, i, j))
  {
    var t := s[i as int := s[j as int]];
    assert multiset(t) == multiset(s)[s[i as int] := 0][s[j as int] := 2] || i == j || s[i as int] == s[j as int];
    assert multiset(Swapped(s, i, j)) == multiset(s);
  }

  lemma OccursTwice(s: seq<byte>, i: nat, j: nat)
    requires i < j < |s| && s[i] == s[j]
    ensures multiset(s)[s[i]] >= 2
  {
    assert s == s[..j] + [s[j]] + s[j + 1..];
    assert s[i] in s[..j];
  }

  /** Position to value is one to one and onto. */
  lemma PermutationIsBijective(s: Table)
    requires IsPermutation(s)
    ensures forall i, j | 0 <= i < j < 256 :: s[i] != s[j]
    ensures forall v: byte :: v in s
  {
    forall i, j | 0 <= i < j < 256
      ensures s[i] != s[j]
    {
      if s[i] == s[j] {
        OccursTwice(s, i, j);
        assert false;
      }
    }
    forall v: byte
      ensures v in s
    {
      assert v in multiset(s);
    }
  }

  lemma {:induction false} StepsKeepPermutation(st: State, n: nat)
    requires IsPermutation(st.s)
    ensures IsPermutation(After(RC4, st, n).s)
  {
    if n > 0 {
      var before := After(RC4, st, n - 1);
      StepsKeepPermutation(st, n - 1);
      var a := ByteSum(before.a, 1);
      SwapKeepsPermutation(before.s, a, ByteSum(before.b, before.s[a as int]));
    }
  }

  // ---------------------------------------------------------------- key setup

  function Ramp(n: nat): (s: seq<byte>)
    requires n <= 256
    ensures |s| == n
  {
    if n == 0 then [] else Ramp(n - 1) + [(n - 1) as byte]
  }

  lemma {:induction false} RampCounts(n: nat, v: byte)
    requires n <= 256
    ensures multiset(Ramp(n))[v] == if v as int < n then 1 else 0
  {
    if n > 0 {
      RampCounts(n - 1, v);
    }
  }

  function KeyByte(key: bytes, i: nat): byte
    requires |key| > 0
  {
    key[i % |key|]
  }

  /** The table and j after n rounds of key setup. */
  function Scheduled(key: bytes, n: nat): (Table, byte)
    requires |key| > 0 && n <= 256
  {
    if n == 0 then (Ramp(256), 0)
    else
      var (s, j) := Scheduled(key, n - 1);
      var k := ByteSum(j, ByteSum(s[n - 1], KeyByte(key, n - 1)));
      (Swapped(s, (n - 1) as byte, k), k)
  }

  /** The state that NewARC4 leaves. */
  function Keyed(key: bytes): State
    requires |key| > 0
  {
    State(Scheduled(key, 256).0, 0, 0)
  }

  lemma {:induction false} ScheduleKeepsPermutation(key: bytes, n: nat)
    requires |key| > 0 && n <= 256
    ensures IsPermutation(Scheduled(key, n).0)
  {
    if n == 0 {
      forall v: byte
        ensures multiset(Ramp(256))[v] == 1
      {
        RampCounts(256, v);
      }
    } else {
      var (s, j) := Scheduled(key, n - 1);
      ScheduleKeepsPermutation(key, n - 1);
      SwapKeepsPermutation(s, (n - 1) as byte, ByteSum(j, ByteSum(s[n - 1], KeyByte(key, n - 1))));
    }
  }

  /** From any key, through any number of steps, the table is a permutation of 0..255. */
  lemma TableIsAlwaysAPermutation(key: bytes, n: nat)
    requires |key| > 0
    ensures forall v: byte :: multiset(After(RC4, Keyed(key), n).s)[v] == 1
  {
    ScheduleKeepsPermutation(key, 256);
    StepsKeepPermutation(Keyed(key), n);
  }

  // ---------------------------------------------------------------- the steps, on numbers

  /** The table t with the elements at i and j exchanged. */
  predicate Exchanged(s: Table, t: Table, i: nat, j: nat)
    requires i < 256 && j < 256
  {
    forall k :: 0 <= k < 256 ==> t[k] == if k == i then s[j] else if k == j then s[i] else s[k]
  }

  /** One step: the first counter goes on by one, the second by the element it finds there, the
      two elements are exchanged, and the key byte is the element at their sum, all modulo 256. */
  lemma StepOnTable(st: State)
    ensures var next := After(RC4, st, 1);
      var a := (st.a as int + 1) % 256;
      var b := (st.b as int + st.s[a] as int) % 256;
      && next.a as int == a && next.b as int == b && Exchanged(st.s, next.s, a, b)
      && RC4.output(next) == next.s[(st.s[a] as int + st.s[b] as int) % 256]
  {
    assert After(RC4, st, 0) == st;
  }

  lemma {:induction false} RampAt(n: nat, k: nat)
    requires k < n <= 256
    ensures Ramp(n)[k] as int == k
  {
    if k < n - 1 {
      RampAt(n - 1, k);
    }
  }

  /** Key setup starts from the table of all byte values in order, and after 256 rounds leaves both
      counters at 0. */
  lemma SetupStart(key: bytes, k: nat)
    requires |key| > 0 && k < 256
    ensures Scheduled(key, 0).0[k] as int == k && Scheduled(key, 0).1 == 0
    ensures Keyed(key).s == Scheduled(key, 256).0 && Keyed(key).a == 0 && Keyed(key).b == 0
  {
    RampAt(256, k);
  }

  lemma SumOfThree(x: byte, y: byte, z: byte)
    ensures ByteSum(x, ByteSum(y, z)) as int == (x as int + y as int + z as int) % 256
  {
    var v := y as int + z as int;
    assert x as int + v == x as int + v % 256 + 256 * (v / 256);
  }

  /** Round n adds element n and the key byte at n modulo the length of the key to the counter,
      and exchanges element n with the one at the counter. */
  lemma SetupRound(key: bytes, n: nat)
    requires |key| > 0 && n < 256
    ensures var (s, j) := Scheduled(key, n);
      var (t, j') := Scheduled(key, n + 1);
      j' as int == (j as int + s[n] as int + key[n % |key|] as int) % 256 && Exchanged(s, t, n, j' as int)
  {
    var (s, j) := Scheduled(key, n);
    SumOfThree(j, s[n], key[n % |key|]);
  }

  // ---------------------------------------------------------------- steps can be taken back

  function ByteDifference(x: byte, y: byte): byte {
    ((x as int - y as int) % 256) as byte
  }

  function StepBack(st: State): State {
    var s := Swapped(st.s, st.a, st.b);
    State(s, ByteDifference(st.a, 1), ByteDifference(st.b, s[st.a as int]))
  }

  lemma SwapTwice(s: Table, i: byte, j: byte)
    ensures Swapped(Swapped(s, i, j), i, j) == s
  {
  }

  lemma SumBack(x: byte, y: byte)
    ensures ByteDifference(ByteSum(x, y), y) == x && ByteSum(ByteDifference(x, y), y) == x
  {
    assert ByteSum(x, y) as int == if x as int + y as int < 256 then x as int + y as int else x as int + y as int - 256;
    assert ByteDifference(x, y) as int == if x >= y then x as int - y as int else x as int - y as int + 256;
  }

  /** A step is a bijection on states, so no two states ever lead to the same one. */
  lemma StepIsInvertible(st: State)
    ensures StepBack(Step(st)) == st && Step(StepBack(st)) == st
  {
    var a := ByteSum(st.a, 1);
    SwapTwice(st.s, a, ByteSum(st.b, st.s[a as int]));
    SumBack(st.a, 1);
    SumBack(st.b, st.s[a as int]);
    var s := Swapped(st.s, st.a, st.b);
    SwapTwice(st.s, st.a, st.b);
    SumBack(st.b, s[st.a as int]);
  }

  // ---------------------------------------------------------------- the cipher as a whole

  /** With the same key and as many bytes discarded, a second pass undoes the first. */
  lemma SecondPassUndoesFirst(key: bytes, discarded: nat, x: bytes)
    requires |key| > 0
    ensures Crypted(RC4, After(RC4, Keyed(key), discarded), Crypted(RC4, After(RC4, Keyed(key), discarded), x)) == x
  {
    XorBytesTwice(x, KeyStream(RC4, After(RC4, Keyed(key), discarded), |x|));
  }

  // ---------------------------------------------------------------- the cipher object

  /** A Go slice: the elements lo..hi of an array that other slices may share. */
  datatype Slice = Slice(a: array<byte>, lo: nat, hi: nat) {
    predicate Fits() {
      lo <= hi <= a.Length
    }

    function Length(): nat
      requires Fits()
    {
      hi - lo
    }

    function Content(): (s: bytes)
      requires Fits()
      reads a
      ensures |s| == Length()
    {
      a[lo..hi]
    }
  }

  class ARC4 {
    const s: array<byte>
    var a: byte
    var b: byte

    ghost predicate Valid()
      reads this, s
    {
      s.Length == 256 && IsPermutation(s[..])
    }

    ghost function Now(): State
      requires s.Length == 256
      reads this, s
    {
      State(s[..], a, b)
    }

    constructor Unkeyed()
      ensures fresh(s) && s.Length == 256 && s[..] == Ramp(256) && a == 0 && b == 0
    {
      s := new byte[256];
      a, b := 0, 0;
      new;
      var i := 0;
      while i < 256
        invariant 0 <= i <= 256 && a == 0 && b == 0
        invariant s[..i] == Ramp(i)
      {
        s[i] := i as byte;
        assert s[..i + 1] == s[..i] + [i as byte];
        i := i + 1;
      }
    }

    method Swap(i: byte, j: byte)
      requires s.Length == 256
      modifies s
      ensures s[..] == Swapped(old(s[..]), i, j)
    {
      s[i as int], s[j as int] := s[j as int], s[i as int];
    }

    method Schedule(key: bytes)
      requires |key| > 0 && s.Length == 256 && s[..] == Ramp(256)
      modifies s
      ensures s[..] == Scheduled(key, 256).0
    {
      var j: byte := 0;
      for i := 0 to 256
        invariant (s[..], j) == Scheduled(key, i)
      {
        j := ByteSum(j, ByteSum(s[i], KeyByte(key, i)));
        Swap(i as byte, j);
      }
    }

    static method NewARC4(key: bytes) returns (r: Option<ARC4>)
      ensures r.Some? == (|key| > 0)
      ensures r.Some? ==> fresh(r.value) && fresh(r.value.s) && r.value.Valid() && r.value.Now() == Keyed(key)
    {
      if |key| == 0 {
        return None;
      }
      var c := new ARC4.Unkeyed();
      c.Schedule(key);
      ScheduleKeepsPermutation(key, 256);
      r := Some(c);
    }

    method Next() returns (x: byte)
      requires Valid()
      modifies this, s
      ensures Valid() && Now() == Step(old(Now())) && x == Output(Now())
    {
      a := ByteSum(a, 1);
      b := ByteSum(b, s[a as int]);
      SwapKeepsPermutation(s[..], a, b);
      Swap(a, b);
      x := s[ByteSum(s[a as int], s[b as int]) as int];
    }

    method Discard(n: int)
      requires Valid()
      modifies this, s
      ensures Valid() && Now() == After(RC4, old(Now()), if n < 0 then 0 else n)
    {
      var i := 0;
      while i < n
        invariant 0 <= i && (i <= n || i == 0)
        invariant Valid() && Now() == After(RC4, old(Now()), i)
      {
        var _ := Next();
        i := i + 1;
      }
    }

    /** The body of the loop: the next key byte, which is byte i from st on, goes into element k. */
    method XorOne(d: array<byte>, k: nat, x: byte, ghost st: State, ghost i: nat)
      requires Valid() && k < d.Length && d != s && Now() == After(RC4, st, i)
      modifies this, s, d
      ensures Valid() && Now() == After(RC4, st, i + 1)
      ensures d[..] == old(d[..])[k := XorByte(x, RC4.output(After(RC4, st, i + 1)))]
    {
      var y := Next();
      d[k] := XorByte(x, y);
    }

    /** How far the loop is after i bytes. */
    ghost predicate Reached(dst: Slice, src: Slice, st: State, d: bytes, input: bytes, i: nat)
      reads this, s, dst.a, src.a
    {
      && Valid() && dst.Fits() && src.Fits() && src.Length() <= dst.Length() && dst.a != s && src.a != s
      && i <= |input| == src.Length() && |d| == dst.a.Length
      && Now() == After(RC4, st, i)
      && (dst.a != src.a ==> src.Content() == input)
      && dst.a[..] == Progress(RC4, st, d, dst.lo, dst.a == src.a, src.lo, input, i)
    }

    method XorNext(dst: Slice, src: Slice, i: nat, ghost st: State, ghost d: bytes, ghost input: bytes)
      requires Reached(dst, src, st, d, input, i) && i < |input|
      modifies this, s, dst.a
      ensures Reached(dst, src, st, d, input, i + 1)
    {
      assert src.a[src.lo + i] == if dst.a == src.a then dst.a[..][src.lo + i] else src.Content()[i];
      XorOne(dst.a, dst.lo + i, src.a[src.lo + i], st, i);
      ProgressOneMore(RC4, st, d, dst.lo, dst.a == src.a, src.lo, input, i);
    }

    /** dst and src may share their array, and in particular be the same slice.  A dst that
        starts inside src overwrites later input before it is read. */
    method XORKeyStream(dst: Slice, src: Slice) returns (ok: bool)
      requires Valid() && dst.Fits() && src.Fits() && dst.a != s && src.a != s
      modifies this, s, dst.a
      ensures Valid() && ok == (src.Length() <= dst.Length())
      ensures !ok ==> Now() == old(Now()) && dst.a[..] == old(dst.a[..])
      ensures ok ==> Now() == After(RC4, old(Now()), src.Length())
      ensures ok && dst.a != src.a ==>
                dst.a[..] == Spliced(old(dst.a[..]), dst.lo, Crypted(RC4, old(Now()), src.Content()))
      ensures ok && dst.a == src.a ==>
                dst.a[..] == CryptedWithin(RC4, old(Now()), old(dst.a[..]), dst.lo, src.lo, src.Length())
    {
      if dst.hi - dst.lo < src.hi - src.lo {
        return false;
      }
      XORAll(dst, src);
      ok := true;
    }

    /** The loop, once the lengths are checked. */
    method XORAll(dst: Slice, src: Slice)
      requires Valid() && dst.Fits() && src.Fits() && dst.a != s && src.a != s && src.Length() <= dst.Length()
      modifies this, s, dst.a
      ensures Valid() && Now() == After(RC4, old(Now()), src.Length())
      ensures dst.a != src.a ==>
                dst.a[..] == Spliced(old(dst.a[..]), dst.lo, Crypted(RC4, old(Now()), src.Content()))
      ensures dst.a == src.a ==>
                dst.a[..] == CryptedWithin(RC4, old(Now()), old(dst.a[..]), dst.lo, src.lo, src.Length())
    {
      ghost var st, d, input := Now(), dst.a[..], src.Content();
      assert input[..0] == [];
      var i := 0;
      while i < src.hi - src.lo
        invariant Reached(dst, src, st, d, input, i)
      {
        XorNext(dst, src, i, st, d, input);
        i := i + 1;
      }
      assert input[..i] == input;
    }
  }

  // ---------------------------------------------------------------- the reader

  /** xorReader over a source that holds src and ends with `end`.  How many bytes one call gives,
      and whether the last ones come with the error, is open. */
  class XorReader {
    const src: bytes
    const end: ReadError
    const cipher: ARC4
    var pos: nat
    ghost const start: State

    ghost predicate Valid()
      reads this, cipher, cipher.s
    {
      cipher.Valid() && pos <= |src| && cipher.Now() == After(RC4, start, pos)
    }

    constructor (src: bytes, end: ReadError, cipher: ARC4)
      requires cipher.Valid()
      ensures Valid() && this.src == src && this.end == end && this.cipher == cipher
      ensures pos == 0 && start == cipher.Now()
    {
      this.src, this.end, this.cipher, pos, start := src, end, cipher, 0, cipher.Now();
    }

    /** The wrapped reader: some bytes, at the front of p, and an error only behind the last. */
    method ReadSource(p: array<byte>) returns (n: nat, err: Option<ReadError>)
      requires pos <= |src|
      modifies this`pos, p
      ensures n <= p.Length && pos == old(pos) + n <= |src|
      ensures p[..] == Spliced(old(p[..]), 0, src[old(pos)..pos])
      ensures err.Some? ==> pos == |src| && err.value == end
    {
      var m: nat :| m <= p.Length && pos + m <= |src|;
      n := m;
      var x := src[pos..pos + n];
      forall k | 0 <= k < n {
        p[k] := x[k];
      }
      assert p[..] == x + old(p[..])[n..];
      pos := pos + n;
      var ended: bool := *;
      err := if ended && pos == |src| then Some(end) else None;
    }

    /** The call of the cipher, which is left out if nothing was read. */
    method Apply(p: array<byte>, n: nat, ghost st: State, ghost k: nat, ghost next: nat, ghost after: bytes)
      requires cipher.Valid() && n <= p.Length && p != cipher.s && cipher.Now() == After(RC4, st, k) && next == k + n
      requires CryptedWithin(RC4, After(RC4, st, k), p[..], 0, 0, n) == after
      modifies cipher, cipher.s, p
      ensures cipher.Valid() && cipher.Now() == After(RC4, st, next) && p[..] == after
    {
      AfterSum(RC4, st, k, n);
      if n > 0 {
        var ok := cipher.XORKeyStream(Slice(p, 0, n), Slice(p, 0, n));
      }
    }

    /** Each read gives the next bytes of the whole source under one call of the cipher, and the
        error of the source unchanged. */
    method Read(p: array<byte>) returns (n: nat, err: Option<ReadError>)
      requires Valid() && p != cipher.s
      modifies this, cipher, cipher.s, p
      ensures Valid() && n <= p.Length && pos == old(pos) + n
      ensures p[..] == Spliced(old(p[..]), 0, Crypted(RC4, start, src)[old(pos)..pos])
      ensures err.Some? ==> pos == |src| && err.value == end
    {
      ghost var was, from := p[..], pos;
      n, err := ReadSource(p);
      CryptRead(p, n, was, start, from, pos);
    }

    /** The n bytes that have just been read, in their buffer. */
    method CryptRead(p: array<byte>, n: nat, ghost was: bytes, ghost st: State, ghost from: nat, ghost next: nat)
      requires cipher.Valid() && n <= p.Length == |was| && from + n == next <= |src| && p != cipher.s
      requires cipher.Now() == After(RC4, st, from) && p[..] == Spliced(was, 0, src[from..next])
      modifies cipher, cipher.s, p
      ensures cipher.Valid() && cipher.Now() == After(RC4, st, next)
      ensures p[..] == Spliced(was, 0, Crypted(RC4, st, src)[from..next])
    {
      ghost var after := Spliced(was, 0, Crypted(RC4, st, src)[from..next]);
      InPlace(RC4, st, src, from, n, next, was, p[..], after);
      Apply(p, n, st, from, next, after);
    }
  }
}
