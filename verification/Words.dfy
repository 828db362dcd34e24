/** Sequences of little-endian numbers of given widths, as the cursor of internal/setup/setup.go
    reads them. */
module Words {
  import opened Bytes

  function Sum(widths: seq<nat>): nat {
    if widths == [] then 0 else widths[0] + Sum(widths[1..])
  }

  /** The numbers at the front of t and what stands behind them. */
  function Numbers(widths: seq<nat>, t: bytes): Option<(seq<nat>, bytes)> {
    if widths == [] then Some(([], t))
    else if |t| < widths[0] then None
    else
      match Numbers(widths[1..], t[widths[0]..])
      case None => None
      case Some((ns, rest)) => Some(([LE(t[..widths[0]])] + ns, rest))
  }

  function Written(widths: seq<nat>, ns: seq<nat>): bytes
    requires |widths| == |ns|
  {
    if ns == [] then [] else ToLE(ns[0], widths[0]) + Written(widths[1..], ns[1..])
  }

  /** Does every number fit its width? */
  predicate Fit(widths: seq<nat>, ns: seq<nat>)
    ensures Fit(widths, ns) ==> |widths| == |ns|
  {
    if widths == [] then ns == []
    else ns != [] && ns[0] < Pow256(widths[0]) && Fit(widths[1..], ns[1..])
  }

  lemma {:induction false} ReadWritten(widths: seq<nat>, ns: seq<nat>, rest: bytes)
    requires Fit(widths, ns)
    ensures Numbers(widths, Written(widths, ns) + rest) == Some((ns, rest))
  {
    if widths == [] {
      assert [] + rest == rest;
    } else {
      var w, t := ToLE(ns[0], widths[0]), Written(widths[1..], ns[1..]) + rest;
      assert Written(widths, ns) + rest == w + t;
      assert (w + t)[widths[0]..] == t && (w + t)[..widths[0]] == w;
      assert LE(w) == ns[0] by {
        ToLEValue(ns[0], widths[0]);
        ModUnique(ns[0], Pow256(widths[0]), 0, ns[0]);
      }
      ReadWritten(widths[1..], ns[1..], rest);
      assert [ns[0]] + ns[1..] == ns;
    }
  }

  /** Written again, the first number is the bytes that it was read from. */
  lemma WordAgain(w: bytes)
    ensures LE(w) < Pow256(|w|) && ToLE(LE(w), |w|) == w
  {
    LEBound(w);
    LEToLE(w);
  }

  lemma {:induction false} WriteRead(widths: seq<nat>, t: bytes, ns: seq<nat>, rest: bytes)
    requires Numbers(widths, t) == Some((ns, rest))
    ensures Fit(widths, ns) && t == Written(widths, ns) + rest
  {
    if widths == [] {
      NothingAdded(rest);
    } else {
      var w, behind, more := t[..widths[0]], t[widths[0]..], ns[1..];
      WriteRead(widths[1..], behind, more, rest);
      WordAgain(w);
      Halves(t, widths[0]);
      assert Written(widths, ns) == w + Written(widths[1..], more);
      Behead(w, Written(widths[1..], more), rest);
    }
  }

  lemma Behead(a: bytes, b: bytes, c: bytes)
    ensures a + b + c == a + (b + c)
  {
  }

  lemma {:induction false} ReadLength(widths: seq<nat>, t: bytes)
    ensures Numbers(widths, t).Some? <==> |t| >= Sum(widths)
    ensures Numbers(widths, t).Some? ==> Numbers(widths, t).value.1 == t[Sum(widths)..]
  {
    if widths != [] && |t| >= widths[0] {
      var behind := t[widths[0]..];
      ReadLength(widths[1..], behind);
      if Numbers(widths, t).Some? {
        assert behind[Sum(widths[1..])..] == t[Sum(widths)..];
      }
    }
  }

  lemma {:induction false} WrittenLength(widths: seq<nat>, ns: seq<nat>)
    requires |widths| == |ns|
    ensures |Written(widths, ns)| == Sum(widths)
  {
    if ns != [] {
      WrittenLength(widths[1..], ns[1..]);
    }
  }

  // ---------------------------------------------------------------- reading step by step

  /** What a parse amounts to for a reader that already has some items. */
  function Behind<T>(some: seq<T>, r: Option<(seq<T>, bytes)>): Option<(seq<T>, bytes)> {
    if r.Some? then Some((some + r.value.0, r.value.1)) else None
  }

  lemma BehindNothing<T>(r: Option<(seq<T>, bytes)>)
    ensures Behind([], r) == r
  {
    if r.Some? {
      assert [] + r.value.0 == r.value.0;
    }
  }

  lemma BehindTwice<T>(a: seq<T>, b: seq<T>, r: Option<(seq<T>, bytes)>)
    ensures Behind(a, Behind(b, r)) == Behind(a + b, r)
  {
    if r.Some? {
      assert a + (b + r.value.0) == (a + b) + r.value.0;
    }
  }

  lemma OneMoreNumber(widths: seq<nat>, t: bytes, ns: seq<nat>)
    requires widths != []
    ensures Behind(ns, Numbers(widths, t))
         == if widths[0] <= |t| then Behind(ns + [LE(t[..widths[0]])], Numbers(widths[1..], t[widths[0]..])) else None
  {
    if widths[0] <= |t| {
      BehindTwice(ns, [LE(t[..widths[0]])], Numbers(widths[1..], t[widths[0]..]));
    }
  }
}
