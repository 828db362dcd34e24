/** Sorted lists of distinct names: what sort.Strings makes of the keys of a map. */
module Names {
  /** The byte order of Go strings. */
  predicate Before(a: string, b: string) {
    if a == "" then b != ""
    else b != "" && (a[0] < b[0] || (a[0] == b[0] && Before(a[1..], b[1..])))
  }

  /** Up to position k the strings agree, and there a ends first or holds the smaller character. */
  predicate SmallerAt(a: string, b: string, k: nat) {
    k <= |a| && k < |b| && (forall j :: 0 <= j < k ==> a[j] == b[j]) && (k == |a| || a[k] < b[k])
  }

  /** The order is lexicographic. */
  lemma {:induction false} BeforeIsLexicographic(a: string, b: string)
    ensures Before(a, b) <==> exists k: nat :: SmallerAt(a, b, k)
  {
    if a == "" && b != "" {
      assert SmallerAt(a, b, 0);
    } else if a != "" && b != "" {
      var x, y := a[1..], b[1..];
      BeforeIsLexicographic(x, y);
      if Before(a, b) && a[0] == b[0] {
        var k: nat :| SmallerAt(x, y, k);
        assert forall j :: 0 < j <= k ==> a[j] == x[j - 1] && b[j] == y[j - 1];
        assert SmallerAt(a, b, k + 1);
      } else if Before(a, b) {
        assert SmallerAt(a, b, 0);
      }
      if k: nat :| SmallerAt(a, b, k) && k > 0 {
        assert a[0] == b[0];
        assert forall j :: 0 <= j < k - 1 ==> x[j] == a[j + 1] && y[j] == b[j + 1];
        assert SmallerAt(x, y, k - 1);
      }
    }
  }

  lemma {:induction false} BeforeIsTotal(a: string, b: string)
    ensures Before(a, b) || Before(b, a) || a == b
    ensures !(Before(a, b) && Before(b, a)) && !Before(a, a)
  {
    if a != "" && b != "" {
      BeforeIsTotal(a[1..], b[1..]);
      assert a == [a[0]] + a[1..] && b == [b[0]] + b[1..];
    }
    if a != "" {
      BeforeIsTotal(a[1..], a[1..]);
    }
  }

  lemma {:induction false} BeforeIsTransitive(a: string, b: string, c: string)
    requires Before(a, b) && Before(b, c)
    ensures Before(a, c)
  {
    if a != "" && a[0] == b[0] && b[0] == c[0] {
      BeforeIsTransitive(a[1..], b[1..], c[1..]);
    }
  }

  predicate Increasing(s: seq<string>) {
    forall j, k :: 0 <= j < k < |s| ==> Before(s[j], s[k])
  }

  function Elements(s: seq<string>): set<string> {
    set x | x in s
  }

  /** Where x goes in an increasing list. */
  function Inserted(s: seq<string>, x: string): seq<string> {
    if s == [] then [x]
    else if Before(x, s[0]) then [x] + s
    else [s[0]] + Inserted(s[1..], x)
  }

  lemma {:induction false} InsertedIsIncreasing(s: seq<string>, x: string)
    requires Increasing(s) && x !in s
    ensures Increasing(Inserted(s, x)) && Elements(Inserted(s, x)) == Elements(s) + {x}
  {
    if s == [] {
    } else if Before(x, s[0]) {
      forall k | 0 <= k < |s|
        ensures Before(x, s[k])
      {
        if k > 0 {
          BeforeIsTransitive(x, s[0], s[k]);
        }
      }
    } else {
      BeforeIsTotal(x, s[0]);
      var rest := Inserted(s[1..], x);
      InsertedIsIncreasing(s[1..], x);
      assert s == [s[0]] + s[1..];
      forall k | 0 <= k < |rest|
        ensures Before(s[0], rest[k])
      {
        assert rest[k] in Elements(rest);
        if rest[k] != x {
          assert rest[k] in Elements(s[1..]);
        }
      }
    }
  }

  lemma {:induction false} IncreasingIsUnique(s: seq<string>, t: seq<string>)
    requires Increasing(s) && Increasing(t) && Elements(s) == Elements(t)
    ensures s == t
  {
    if s != [] {
      assert s[0] in Elements(s);
      assert s[0] in t;
    }
    if t != [] {
      assert t[0] in Elements(t);
      assert t[0] in s;
      SameHead(s, t);
      assert Elements(s[1..]) == Elements(s) - {s[0]} by { TailElements(s); }
      assert Elements(t[1..]) == Elements(t) - {t[0]} by { TailElements(t); }
      IncreasingIsUnique(s[1..], t[1..]);
      assert s == [s[0]] + s[1..] && t == [t[0]] + t[1..];
    }
  }

  lemma SameHead(s: seq<string>, t: seq<string>)
    requires Increasing(s) && Increasing(t) && Elements(s) == Elements(t) && s != [] && t != []
    ensures s[0] == t[0]
  {
    assert s[0] in Elements(t) && t[0] in Elements(s);
    BeforeIsTotal(s[0], t[0]);
  }

  lemma TailElements(s: seq<string>)
    requires Increasing(s) && s != []
    ensures Elements(s[1..]) == Elements(s) - {s[0]}
  {
    BeforeIsTotal(s[0], s[0]);
    assert s == [s[0]] + s[1..];
  }

  /** The one increasing list of a set of names. */
  ghost function Sorted(names: set<string>): (s: seq<string>)
    ensures Increasing(s) && Elements(s) == names
  {
    SortedExists(names);
    var s :| Increasing(s) && Elements(s) == names;
    s
  }

  lemma {:induction false} SortedExists(names: set<string>)
    ensures exists s :: Increasing(s) && Elements(s) == names
  {
    if names == {} {
      assert Increasing([]) && Elements([]) == names;
    } else {
      var x :| x in names;
      SortedExists(names - {x});
      var s :| Increasing(s) && Elements(s) == names - {x};
      assert x !in Elements(s);
      InsertedIsIncreasing(s, x);
      assert Elements(Inserted(s, x)) == names;
    }
  }

  /** The keys of a map, in whatever order they come, sorted. */
  method SortNames(names: set<string>) returns (s: seq<string>)
    ensures s == Sorted(names)
  {
    var left := names;
    s := [];
    while left != {}
      invariant left <= names && Increasing(s) && Elements(s) == names - left
      decreases |left|
    {
      var x :| x in left;
      assert x !in Elements(s);
      InsertedIsIncreasing(s, x);
      s := Inserted(s, x);
      left := left - {x};
    }
    IncreasingIsUnique(s, Sorted(names));
  }
}
