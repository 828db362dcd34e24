/** What Clean (internal/pathutil/path.go) does to a destination, rule by rule: the {app} prefix,
    constants, drive prefixes, separators, dots and characters. */
module PathLaws {
  import opened Bytes
  import opened Paths

  // ---------------------------------------------------------------- constants

  lemma {:induction false} PlainExpands(s: string, depth: nat)
    requires '{' !in s && depth < MAX_DEPTH
    ensures ExpandedFrom(s, depth) == s
  {
    if s != "" {
      PlainExpands(s[1..], depth);
    }
  }

  /** Expanding is expanding from the front, with or without a brace. */
  lemma FromFront(s: string)
    ensures Expanded(s, 0) == ExpandedFrom(s, 0)
  {
    if '{' !in s {
      PlainExpands(s, 0);
    }
  }

  lemma {:induction false} PlainInFront(a: string, t: string)
    requires '{' !in a
    ensures ExpandedFrom(a + t, 0) == a + ExpandedFrom(t, 0)
  {
    if a == "" {
      assert a + t == t;
    } else {
      assert (a + t)[1..] == a[1..] + t;
      PlainInFront(a[1..], t);
    }
  }

  lemma {:induction false} ClosedBehind(v: string, b: string)
    requires '{' !in v && '}' !in v
    ensures ClosingBrace(v + "}" + b, 0) == Some(|v|)
  {
    var t := v + "}" + b;
    if v != "" {
      assert t[1..] == v[1..] + "}" + b;
      ClosedBehind(v[1..], b);
    }
  }

  lemma {:induction false} NeverClosedIn(t: string, depth: nat)
    requires '}' !in t
    ensures ClosingBrace(t, depth) == None
  {
    if t != "" {
      NeverClosedIn(t[1..], InnerDepth(t[0], depth));
    }
  }

  /** What a constant without inner braces stands for. */
  function Meaning(v: string): string {
    if v == "" then "$" else v
  }

  lemma ConstantExpands(v: string, b: string)
    requires '{' !in v && '}' !in v
    ensures ExpandedFrom("{" + v + "}" + b, 0) == Meaning(v) + ExpandedFrom(b, 0)
  {
    var s := "{" + v + "}" + b;
    assert s[1..] == v + "}" + b;
    ClosedBehind(v, b);
    assert s[1..|v| + 1] == v && s[|v| + 2..] == b;
    assert Contents(v, 0) == Meaning(v);
  }

  lemma UnmatchedExpands(t: string)
    requires '}' !in t
    ensures ExpandedFrom("{" + t, 0) == "$" + ExpandedFrom(t, 0)
  {
    var s := "{" + t;
    assert s[1..] == t;
    NeverClosedIn(t, 0);
  }

  // ---------------------------------------------------------------- the {app} prefix

  predicate IsApp(v: string) {
    |v| == 3 && (v[0] == 'a' || v[0] == 'A') && (v[1] == 'p' || v[1] == 'P') && (v[2] == 'p' || v[2] == 'P')
  }

  predicate IsSeparator(c: char) {
    c == '/' || c == '\\'
  }

  /** {app}, in whatever case, is dropped in front of a separator and at the end. */
  lemma AppIsDropped(v: string, rest: string)
    requires IsApp(v) && (rest == "" || IsSeparator(rest[0]))
    ensures Cleaned("{" + v + "}" + rest) == Cleaned(rest)
  {
    var raw := "{" + v + "}" + rest;
    assert raw[5..] == rest;
    assert WithoutApp(raw) == rest == WithoutApp(rest);
  }

  /** Any other constant becomes its contents, wherever it stands; an empty one becomes a dollar
      sign. */
  lemma ConstantIsContents(a: string, v: string, b: string)
    requires '{' !in a && '{' !in v && '}' !in v
    requires a != "" || !IsApp(v) || (b != "" && !IsSeparator(b[0]))
    ensures Cleaned(a + "{" + v + "}" + b) == Cleaned(a + Meaning(v) + b)
  {
    var constant := "{" + v + "}" + b;
    var raw, plain := a + "{" + v + "}" + b, a + Meaning(v) + b;
    assert raw == a + constant && plain == a + (Meaning(v) + b);
    NoApp(a, v, b);
    FromFront(raw);
    FromFront(plain);
    PlainInFront(a, constant);
    ConstantExpands(v, b);
    PlainInFront(a, Meaning(v) + b);
    PlainInFront(Meaning(v), b);
  }

  lemma NoApp(a: string, v: string, b: string)
    requires '{' !in a && '{' !in v && '}' !in v
    requires a != "" || !IsApp(v) || (b != "" && !IsSeparator(b[0]))
    ensures WithoutApp(a + "{" + v + "}" + b) == a + "{" + v + "}" + b
    ensures WithoutApp(a + Meaning(v) + b) == a + Meaning(v) + b
  {
  }

  /** A brace that nothing closes becomes a dollar sign. */
  lemma UnmatchedIsDollar(a: string, t: string)
    requires '{' !in a && '}' !in t
    ensures Cleaned(a + "{" + t) == Cleaned(a + "$" + t)
  {
    var raw, plain := a + "{" + t, a + "$" + t;
    assert raw == a + ("{" + t) && plain == a + ("$" + t);
    FromFront(raw);
    FromFront(plain);
    PlainInFront(a, "{" + t);
    UnmatchedExpands(t);
    PlainInFront(a, "$" + t);
    PlainInFront("$", t);
  }

  // ---------------------------------------------------------------- drives and roots

  predicate IsLetter(c: char) {
    'a' <= c <= 'z' || 'A' <= c <= 'Z'
  }

  predicate HasDrive(s: string) {
    |s| >= 2 && IsLetter(s[0]) && s[1] == ':'
  }

  lemma DriveIs(s: string)
    ensures WithoutDrive(s) == if HasDrive(s) then s[2..] else s
  {
  }

  /** The components of a text without a brace. */
  lemma {:induction false} LeadingSlashes(s: string)
    ensures Resolved(Split(TrimmedLeft(s))) == Resolved(Split(s))
  {
    if s != "" && s[0] == '/' {
      LeadingSlashes(s[1..]);
      EmptyInFront(Split(s[1..]));
    }
  }

  lemma {:induction false} EmptyInFront(parts: seq<string>)
    ensures Resolved([""] + parts) == Resolved(parts)
  {
    if parts == [] {
      assert [""][..0] == [];
      assert CleanedPart("") == "";
    } else {
      var init := parts[..|parts| - 1];
      assert ([""] + parts)[..|parts|] == [""] + init;
      EmptyInFront(init);
    }
  }

  /** A text without a brace is its components, behind its drive. */
  lemma PlainIsResolved(s: string)
    requires '{' !in s
    ensures Cleaned(s) == Join(Resolved(Split(Slashed(if HasDrive(s) then s[2..] else s))))
  {
    DriveIs(s);
    LeadingSlashes(Slashed(WithoutDrive(s)));
  }

  lemma SlashInFront(s: string)
    ensures Resolved(Split(Slashed("/" + s))) == Resolved(Split(Slashed(s)))
  {
    assert ("/" + s)[1..] == s;
    assert Slashed("/" + s) == "/" + Slashed(s);
    assert ("/" + Slashed(s))[1..] == Slashed(s);
    EmptyInFront(Split(Slashed(s)));
  }

  /** A drive is dropped, and so is a slash in front of a text without one: the result is always
      relative. */
  lemma DriveIsDropped(s: string)
    requires '{' !in s
    ensures HasDrive(s) ==> Cleaned(s) == Cleaned("/" + s[2..])
    ensures !HasDrive(s) ==> Cleaned(s) == Cleaned("/" + s)
  {
    var behind := if HasDrive(s) then s[2..] else s;
    PlainIsResolved(s);
    PlainIsResolved("/" + behind);
    SlashInFront(behind);
  }

  // ---------------------------------------------------------------- components

  lemma {:induction false} SplitLast(s: string, c: string)
    requires '/' !in c
    ensures Split(s + "/" + c) == Split(s) + [c]
  {
    var t := s + "/" + c;
    if s == "" {
      assert t[1..] == c;
      SplitOne(c);
    } else {
      assert t[1..] == s[1..] + "/" + c;
      SplitLast(s[1..], c);
    }
  }

  lemma {:induction false} SlashedConcat(s: string, t: string)
    ensures Slashed(s + t) == Slashed(s) + Slashed(t)
  {
    if s == "" {
      assert s + t == t;
    } else {
      assert (s + t)[1..] == s[1..] + t;
      SlashedConcat(s[1..], t);
    }
  }

  lemma {:induction false} JoinLast(parts: seq<string>, c: string)
    ensures Join(parts + [c]) == if parts == [] then c else Join(parts) + "/" + c
  {
    if |parts| > 1 {
      JoinLast(parts[1..], c);
      assert (parts + [c])[1..] == parts[1..] + [c];
    } else if |parts| == 1 {
      assert (parts + [c])[1..] == [c];
    }
  }

  /** c with a dollar sign for every control character and for < > : " | ? and *. */
  predicate Dollared(c: string, r: string) {
    |r| == |c| && forall k :: 0 <= k < |c| ==>
      r[k] == if c[k] < 0x20 as char || c[k] in "<>:\"|?*" then '$' else c[k]
  }

  /** The path without its last component. */
  ghost predicate IsParent(x: string, y: string) {
    if '/' in y then exists last: string :: '/' !in last && y == x + "/" + last else x == ""
  }

  lemma DollaredIs(c: string, r: string)
    requires Dollared(c, r)
    ensures CleanedPart(c) == r
  {
  }

  /** The stack of components of a text without a brace that starts at the root. */
  lemma RootedIs(p: string)
    requires '{' !in p && (p == "" || IsSeparator(p[0]))
    ensures var stack := Resolved(Split(Slashed(p)));
      Cleaned(p) == Join(stack) && GoodParts(stack) && (Cleaned(p) == "" <==> stack == [])
  {
    var stack := Resolved(Split(Slashed(p)));
    assert !HasDrive(p);
    PlainIsResolved(p);
    SlashedHasNoBackslash(p);
    SplitHasNoSeparator(Slashed(p));
    ResolvedIsGood(Split(Slashed(p)));
    assert stack != [] ==> GoodPart(stack[0]);
  }

  lemma OneMoreComponent(p: string, sep: char, c: string, r: string)
    requires IsSeparator(sep) && '/' !in c && '\\' !in c && Dollared(c, r)
    ensures Resolved(Split(Slashed(p + [sep] + c))) == Pushed(Resolved(Split(Slashed(p))), r)
  {
    SlashedConcat(p + [sep], c);
    SlashedConcat(p, [sep]);
    SlashedIdentity(c);
    assert Slashed([sep]) == "/" by {
      assert [sep][1..] == "";
    }
    SplitLast(Slashed(p), c);
    var parts := Split(Slashed(p));
    assert (parts + [c])[..|parts|] == parts && (parts + [c])[|parts|] == c;
    DollaredIs(c, r);
  }

  lemma PoppedIsParent(stack: seq<string>)
    requires stack != [] && GoodParts(stack)
    ensures IsParent(Join(stack[..|stack| - 1]), Join(stack))
  {
    var init, last := stack[..|stack| - 1], stack[|stack| - 1];
    assert stack == init + [last];
    JoinLast(init, last);
    assert GoodPart(last);
  }

  /** A component on top of a stack, in the joined paths x and y. */
  ghost predicate Appended(y: string, r: string, x: string) {
    if r == "" || r == "." then x == y
    else if r == ".." then IsParent(x, y)
    else x == if y == "" then r else y + "/" + r
  }

  lemma PushedIsAppended(stack: seq<string>, r: string)
    requires GoodParts(stack) && (Join(stack) == "" <==> stack == [])
    ensures Appended(Join(stack), r, Join(Pushed(stack, r)))
  {
    JoinLast(stack, r);
    if stack != [] {
      PoppedIsParent(stack);
    }
  }

  /** One more component, behind either separator: nothing for an empty one or a dot, the parent
      for two dots, and otherwise the component, with dollar signs for what it may not hold. */
  lemma AppendsComponent(p: string, sep: char, c: string, r: string)
    requires '{' !in p && '{' !in c && '/' !in c && '\\' !in c
    requires IsSeparator(sep) && (p == "" || IsSeparator(p[0])) && Dollared(c, r)
    ensures Appended(Cleaned(p), r, Cleaned(p + [sep] + c))
  {
    var stack := Resolved(Split(Slashed(p)));
    RootedIs(p);
    RootedIs(p + [sep] + c);
    OneMoreComponent(p, sep, c, r);
    PushedIsAppended(stack, r);
  }

  /** A cleaned path has no control character, none of < > : " | ? *, no backslash and no slash
      in front. */
  lemma CleanedCharacters(raw: string, k: nat)
    requires k < |Cleaned(raw)|
    ensures var c := Cleaned(raw)[k];
      c >= 0x20 as char && c !in "<>:\"|?*\\" && (k == 0 ==> c != '/')
  {
    CleanIsCanonical(raw);
    CanonicalCharacters(Cleaned(raw), k);
  }
}
