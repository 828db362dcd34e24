/** Clean (internal/pathutil/path.go): a relative, slash-separated path from an Inno Setup
    destination.  A string is a sequence of characters, one per byte of the Go string. */
module Paths {
  import opened Bytes

  // ---------------------------------------------------------------- constants

  /** Where the brace that is open at the front of t (at the given inner depth) is closed. */
  function ClosingBrace(t: string, depth: nat): (k: Option<nat>)
    ensures k.Some? ==> k.value < |t| && t[k.value] == '}'
  {
    if t == "" then None
    else if t[0] == '}' && depth == 0 then Some(0)
    else Later(ClosingBrace(t[1..], InnerDepth(t[0], depth)), 1)
  }

  function Later(k: Option<nat>, n: nat): Option<nat> {
    if k.Some? then Some(k.value + n) else None
  }

  function InnerDepth(c: char, depth: nat): nat
    requires c != '}' || depth > 0
  {
    if c == '{' then depth + 1 else if c == '}' then depth - 1 else depth
  }

  const MAX_DEPTH: nat := 8

  /** expandConstants: a constant becomes its contents, an empty one or an unmatched brace a
      dollar sign; at depth 8 the text stays as it is. */
  function Expanded(s: string, depth: nat): string
    decreases if depth >= MAX_DEPTH then 0 else MAX_DEPTH - depth, |s|, 1
  {
    if depth >= MAX_DEPTH || '{' !in s then s else ExpandedFrom(s, depth)
  }

  function ExpandedFrom(s: string, depth: nat): string
    requires depth < MAX_DEPTH
    decreases MAX_DEPTH - depth, |s|, 0
  {
    if s == "" then ""
    else if s[0] != '{' then [s[0]] + ExpandedFrom(s[1..], depth)
    else
      match ClosingBrace(s[1..], 0)
      case None => "$" + ExpandedFrom(s[1..], depth)
      case Some(k) => Contents(s[1..k + 1], depth) + ExpandedFrom(s[k + 2..], depth)
  }

  function Contents(value: string, depth: nat): string
    requires depth < MAX_DEPTH
    decreases MAX_DEPTH - depth, 0, 0
  {
    if value == "" then "$" else Expanded(value, depth + 1)
  }

  lemma ClosesBehind(t: string, depth: nat)
    requires t != "" && (t[0] != '}' || depth > 0)
    ensures ClosingBrace(t, depth) == Later(ClosingBrace(t[1..], InnerDepth(t[0], depth)), 1)
  {
  }

  /** The same search in s, from position i on. */
  function ClosedAt(s: string, i: nat, depth: nat): Option<nat>
    requires i <= |s|
  {
    Later(ClosingBrace(s[i..], depth), i)
  }

  lemma ClosedBehind(s: string, i: nat, depth: nat)
    requires i < |s| && (s[i] != '}' || depth > 0)
    ensures ClosedAt(s, i, depth) == ClosedAt(s, i + 1, InnerDepth(s[i], depth))
  {
    ClosesBehind(s[i..], depth);
    assert s[i..][1..] == s[i + 1..];
  }

  lemma ClosedHere(s: string, i: nat)
    requires i < |s| && s[i] == '}'
    ensures ClosedAt(s, i, 0) == Some(i)
  {
  }

  lemma NeverClosed(s: string, depth: nat)
    ensures ClosedAt(s, |s|, depth) == None
  {
  }

  method FindConstantEnd(s: string, start: nat) returns (end: Option<nat>)
    requires start <= |s|
    ensures end == ClosedAt(s, start, 0)
  {
    var depth: nat := 0;
    for i := start to |s|
      invariant ClosedAt(s, start, 0) == ClosedAt(s, i, depth)
    {
      ghost var d := depth;
      if s[i] == '{' {
        depth := depth + 1;
      } else if s[i] == '}' {
        if depth == 0 {
          ClosedHere(s, i);
          return Some(i);
        }
        depth := depth - 1;
      }
      ClosedBehind(s, i, d);
    }
    NeverClosed(s, depth);
    end := None;
  }

  method ExpandConstants(s: string, depth: nat) returns (r: string)
    ensures r == Expanded(s, depth)
    decreases if depth >= MAX_DEPTH then 0 else MAX_DEPTH - depth, 2
  {
    if depth >= MAX_DEPTH || '{' !in s {
      return s;
    }
    r := "";
    var i := 0;
    assert s[0..] == s;
    ghost var whole := Expanded(s, depth);
    while i < |s|
      invariant i <= |s| && whole == r + ExpandedFrom(s[i..], depth)
    {
      var piece, next := ExpandPiece(s, i, depth);
      Grow(whole, r, piece, ExpandedFrom(s[next..], depth));
      r := r + piece;
      i := next;
    }
  }

  /** The body of the loop: a character or a constant, and where the text goes on. */
  method ExpandPiece(s: string, i: nat, depth: nat) returns (piece: string, next: nat)
    requires i < |s| && depth < MAX_DEPTH
    ensures i < next <= |s| && ExpandedFrom(s[i..], depth) == piece + ExpandedFrom(s[next..], depth)
    decreases MAX_DEPTH - depth, 1
  {
    if s[i] != '{' {
      PlainCharacter(s, i, depth);
      piece, next := [s[i]], i + 1;
    } else {
      var end := FindConstantEnd(s, i + 1);
      if end.None? {
        UnmatchedBrace(s, i, depth);
        piece, next := "$", i + 1;
      } else {
        piece := ExpandContents(s[i + 1..end.value], depth);
        next := end.value + 1;
        MatchedBrace(s, i, end.value, next, depth, piece);
      }
    }
  }

  method ExpandContents(value: string, depth: nat) returns (r: string)
    requires depth < MAX_DEPTH
    ensures r == Contents(value, depth)
    decreases MAX_DEPTH - depth, 0
  {
    if value == "" {
      return "$";
    }
    r := ExpandConstants(value, depth + 1);
  }

  lemma Grow(whole: string, r: string, more: string, rest: string)
    requires whole == r + (more + rest)
    ensures whole == (r + more) + rest
  {
  }

  lemma PlainCharacter(s: string, i: nat, depth: nat)
    requires i < |s| && s[i] != '{' && depth < MAX_DEPTH
    ensures ExpandedFrom(s[i..], depth) == [s[i]] + ExpandedFrom(s[i + 1..], depth)
  {
    assert s[i..][1..] == s[i + 1..];
  }

  lemma UnmatchedBrace(s: string, i: nat, depth: nat)
    requires i < |s| && s[i] == '{' && depth < MAX_DEPTH && ClosingBrace(s[i + 1..], 0).None?
    ensures ExpandedFrom(s[i..], depth) == "$" + ExpandedFrom(s[i + 1..], depth)
  {
    assert s[i..][1..] == s[i + 1..];
  }

  lemma MatchedBrace(s: string, i: nat, end: nat, next: nat, depth: nat, piece: string)
    requires i < end < next == end + 1 <= |s| && s[i] == '{' && depth < MAX_DEPTH
    requires ClosingBrace(s[i + 1..], 0) == Some(end - i - 1)
    requires piece == Contents(s[i + 1..end], depth)
    ensures ExpandedFrom(s[i..], depth) == piece + ExpandedFrom(s[next..], depth)
  {
    assert s[i..][1..] == s[i + 1..];
    assert s[i..][1..end - i] == s[i + 1..end] && s[i..][end - i + 1..] == s[next..];
  }

  // ---------------------------------------------------------------- components

  function LowerCase(c: char): char {
    if 'A' <= c <= 'Z' then c + 32 as char else c
  }

  predicate IsAlpha(c: char) {
    'a' <= c <= 'z' || 'A' <= c <= 'Z'
  }

  /** The text is {app}, in any case, alone or before a separator. */
  predicate StartsWithApp(raw: string) {
    && |raw| >= 5
    && raw[0] == '{' && raw[4] == '}'
    && LowerCase(raw[1]) == 'a' && LowerCase(raw[2]) == 'p' && LowerCase(raw[3]) == 'p'
    && (|raw| == 5 || raw[5] == '\\' || raw[5] == '/')
  }

  function WithoutApp(raw: string): string {
    if StartsWithApp(raw) then raw[5..] else raw
  }

  function WithoutDrive(raw: string): string {
    if |raw| >= 2 && IsAlpha(raw[0]) && raw[1] == ':' then raw[2..] else raw
  }

  /** strings.NewReplacer("\\", "/"). */
  function Slashed(s: string): string {
    if s == "" then "" else [if s[0] == '\\' then '/' else s[0]] + Slashed(s[1..])
  }

  /** strings.TrimLeft(s, "/"). */
  function TrimmedLeft(s: string): string {
    if s != "" && s[0] == '/' then TrimmedLeft(s[1..]) else s
  }

  /** strings.Split(s, "/"). */
  function Split(s: string): (parts: seq<string>)
    ensures parts != []
  {
    if s == "" then [""]
    else if s[0] == '/' then [""] + Split(s[1..])
    else
      var rest := Split(s[1..]);
      [[s[0]] + rest[0]] + rest[1..]
  }

  /** strings.Join(parts, "/"). */
  function Join(parts: seq<string>): string {
    if parts == [] then "" else if |parts| == 1 then parts[0] else parts[0] + "/" + Join(parts[1..])
  }

  predicate Reserved(c: char) {
    c < ' ' || c == '<' || c == '>' || c == ':' || c == '"' || c == '|' || c == '?' || c == '*'
  }

  function CleanedPart(part: string): (r: string)
    ensures |r| == |part|
    ensures forall k :: 0 <= k < |r| ==> r[k] == if Reserved(part[k]) then '$' else part[k]
  {
    if part == "" then "" else [if Reserved(part[0]) then '$' else part[0]] + CleanedPart(part[1..])
  }

  method CleanPart(part: string) returns (r: string)
    ensures r == CleanedPart(part)
  {
    r := "";
    for i := 0 to |part|
      invariant |r| == i
      invariant forall k :: 0 <= k < i ==> r[k] == if Reserved(part[k]) then '$' else part[k]
    {
      var c := part[i];
      if Reserved(c) {
        r := r + "$";
        continue;
      }
      r := r + [c];
    }
  }

  /** One component on the stack of components. */
  function Pushed(stack: seq<string>, part: string): seq<string> {
    if part == "" || part == "." then stack
    else if part == ".." then if stack == [] then stack else stack[..|stack| - 1]
    else stack + [part]
  }

  function Resolved(parts: seq<string>): seq<string> {
    if parts == [] then []
    else Pushed(Resolved(parts[..|parts| - 1]), CleanedPart(parts[|parts| - 1]))
  }

  /** The text whose components are resolved. */
  function Rooted(raw: string): string {
    TrimmedLeft(Slashed(WithoutDrive(Expanded(WithoutApp(raw), 0))))
  }

  function Cleaned(raw: string): string {
    Join(Resolved(Split(Rooted(raw))))
  }

  method Clean(raw: string) returns (path: string)
    ensures path == Cleaned(raw)
  {
    var text := raw;
    if |raw| >= 5 && StartsWithApp(raw) {
      text := raw[5..];
    }
    text := ExpandConstants(text, 0);
    if |text| >= 2 && IsAlpha(text[0]) && text[1] == ':' {
      text := text[2..];
    }
    text := TrimmedLeft(Slashed(text));
    var split := Split(text);
    var parts: seq<string> := [];
    for i := 0 to |split|
      invariant parts == Resolved(split[..i])
    {
      assert split[..i + 1][..i] == split[..i];
      var part := CleanPart(split[i]);
      if part == "" || part == "." {
        continue;
      }
      if part == ".." {
        if |parts| > 0 {
          parts := parts[..|parts| - 1];
        }
        continue;
      }
      parts := parts + [part];
    }
    assert split[..|split|] == split;
    path := Join(parts);
  }

  // ---------------------------------------------------------------- canonical form

  predicate GoodPart(part: string) {
    && part != "" && part != "." && part != ".."
    && forall k :: 0 <= k < |part| ==> !Reserved(part[k]) && part[k] != '/' && part[k] != '\\'
  }

  predicate GoodParts(parts: seq<string>) {
    forall k :: 0 <= k < |parts| ==> GoodPart(parts[k])
  }

  /** A relative path: empty, or components that are neither empty nor dots and have no
      separator, control character or reserved character in them. */
  predicate Canonical(path: string) {
    path == "" || GoodParts(Split(path))
  }

  lemma {:induction false} SlashedHasNoBackslash(s: string)
    ensures '\\' !in Slashed(s)
  {
    if s != "" {
      SlashedHasNoBackslash(s[1..]);
    }
  }

  lemma {:induction false} TrimmedIsSuffix(s: string) returns (k: nat)
    ensures k <= |s| && TrimmedLeft(s) == s[k..]
  {
    k := 0;
    if s != "" && s[0] == '/' {
      var m := TrimmedIsSuffix(s[1..]);
      k := m + 1;
      assert s[1..][m..] == s[k..];
    }
  }

  predicate NoSeparator(part: string) {
    '/' !in part && '\\' !in part
  }

  lemma {:induction false} SplitHasNoSeparator(s: string)
    requires '\\' !in s
    ensures forall k :: 0 <= k < |Split(s)| ==> NoSeparator(Split(s)[k])
  {
    if s != "" {
      SplitHasNoSeparator(s[1..]);
    }
  }

  lemma {:induction false} ResolvedIsGood(parts: seq<string>)
    requires forall k :: 0 <= k < |parts| ==> NoSeparator(parts[k])
    ensures GoodParts(Resolved(parts))
  {
    if parts != [] {
      var last := parts[|parts| - 1];
      ResolvedIsGood(parts[..|parts| - 1]);
      CleanedIsGood(last);
    }
  }

  lemma CleanedIsGood(part: string)
    requires NoSeparator(part)
    ensures var c := CleanedPart(part); c == "" || c == "." || c == ".." || GoodPart(c)
  {
  }

  lemma {:induction false} SplitOne(part: string)
    requires '/' !in part
    ensures Split(part) == [part]
  {
    if part != "" {
      SplitOne(part[1..]);
      assert part == [part[0]] + part[1..];
    }
  }

  lemma {:induction false} SplitFirst(part: string, rest: string)
    requires '/' !in part
    ensures Split(part + "/" + rest) == [part] + Split(rest)
  {
    var s := part + "/" + rest;
    if part == "" {
      assert s[1..] == rest;
    } else {
      SplitFirst(part[1..], rest);
      assert s[1..] == part[1..] + "/" + rest;
      assert part == [part[0]] + part[1..];
    }
  }

  lemma {:induction false} SplitJoined(parts: seq<string>)
    requires parts != [] && GoodParts(parts)
    ensures Split(Join(parts)) == parts
  {
    assert GoodPart(parts[0]);
    if |parts| == 1 {
      SplitOne(parts[0]);
    } else {
      SplitJoined(parts[1..]);
      SplitFirst(parts[0], Join(parts[1..]));
    }
  }

  /** The path is always canonical; its components are the resolved ones. */
  lemma CleanIsCanonical(raw: string)
    ensures Canonical(Cleaned(raw))
    ensures GoodParts(Resolved(Split(Rooted(raw))))
    ensures Cleaned(raw) != "" ==> Split(Cleaned(raw)) == Resolved(Split(Rooted(raw)))
  {
    var slashed := Slashed(WithoutDrive(Expanded(WithoutApp(raw), 0)));
    SlashedHasNoBackslash(WithoutDrive(Expanded(WithoutApp(raw), 0)));
    var k := TrimmedIsSuffix(slashed);
    assert '\\' !in slashed[k..];
    SplitHasNoSeparator(Rooted(raw));
    ResolvedIsGood(Split(Rooted(raw)));
    var parts := Resolved(Split(Rooted(raw)));
    if parts != [] {
      SplitJoined(parts);
    }
  }

  lemma {:induction false} CharOfPart(s: string, k: nat) returns (i: nat, j: nat)
    requires k < |s| && s[k] != '/'
    ensures i < |Split(s)| && j < |Split(s)[i]| && Split(s)[i][j] == s[k]
  {
    if k == 0 {
      i, j := 0, 0;
    } else {
      var m, n := CharOfPart(s[1..], k - 1);
      i := if s[0] == '/' then m + 1 else m;
      j := if s[0] != '/' && m == 0 then n + 1 else n;
    }
  }

  /** In characters: no leading slash, no backslash, no control or reserved character. */
  lemma CanonicalCharacters(path: string, k: nat)
    requires Canonical(path) && k < |path|
    ensures !Reserved(path[k]) && path[k] != '\\' && (k == 0 ==> path[k] != '/')
  {
    if path[k] == '/' {
      assert k == 0 ==> Split(path)[0] == "";
    } else {
      var i, j := CharOfPart(path, k);
      assert GoodPart(Split(path)[i]);
    }
  }

  // ---------------------------------------------------------------- length

  lemma {:induction false} ExpandedIsNotLonger(s: string, depth: nat)
    ensures |Expanded(s, depth)| <= |s|
    decreases if depth >= MAX_DEPTH then 0 else MAX_DEPTH - depth, |s|, 1
  {
    if depth < MAX_DEPTH && '{' in s {
      ExpandedFromIsNotLonger(s, depth);
    }
  }

  lemma {:induction false} ExpandedFromIsNotLonger(s: string, depth: nat)
    requires depth < MAX_DEPTH
    ensures |ExpandedFrom(s, depth)| <= |s|
    decreases MAX_DEPTH - depth, |s|, 0
  {
    if s == "" {
    } else if s[0] != '{' || ClosingBrace(s[1..], 0).None? {
      ExpandedFromIsNotLonger(s[1..], depth);
    } else {
      var k := ClosingBrace(s[1..], 0).value;
      ExpandedIsNotLonger(s[1..k + 1], depth + 1);
      ExpandedFromIsNotLonger(s[k + 2..], depth);
    }
  }

  /** The length of a joined list. */
  function JoinedLength(parts: seq<string>): nat {
    if parts == [] then 0 else JoinedLength(parts[..|parts| - 1]) + |parts[|parts| - 1]| + 1
  }

  lemma {:induction false} JoinedLengthFront(parts: seq<string>)
    requires parts != []
    ensures JoinedLength(parts) == |parts[0]| + 1 + JoinedLength(parts[1..])
  {
    if |parts| > 1 {
      JoinedLengthFront(parts[..|parts| - 1]);
      assert parts[..|parts| - 1][1..] == parts[1..][..|parts[1..]| - 1];
    }
  }

  lemma {:induction false} JoinLength(parts: seq<string>)
    ensures parts != [] ==> |Join(parts)| + 1 == JoinedLength(parts)
  {
    if |parts| > 1 {
      JoinLength(parts[1..]);
    }
    if parts != [] {
      JoinedLengthFront(parts);
    }
  }

  lemma {:induction false} SplitLength(s: string)
    ensures JoinedLength(Split(s)) == |s| + 1
  {
    JoinedLengthFront(Split(s));
    if s != "" {
      SplitLength(s[1..]);
      JoinedLengthFront(Split(s[1..]));
      if s[0] == '/' {
        assert Split(s)[1..] == Split(s[1..]);
      } else {
        assert Split(s)[1..] == Split(s[1..])[1..];
      }
    }
  }

  lemma {:induction false} ResolvedIsNotLonger(parts: seq<string>)
    ensures JoinedLength(Resolved(parts)) <= JoinedLength(parts)
  {
    if parts != [] {
      var before, part := Resolved(parts[..|parts| - 1]), CleanedPart(parts[|parts| - 1]);
      ResolvedIsNotLonger(parts[..|parts| - 1]);
      assert (before + [part])[..|before|] == before;
    }
  }

  lemma {:induction false} SlashedLength(s: string)
    ensures |Slashed(s)| == |s|
  {
    if s != "" {
      SlashedLength(s[1..]);
    }
  }

  /** Cleaning never makes a path longer. */
  lemma CleanIsNotLonger(raw: string)
    ensures |Cleaned(raw)| <= |raw|
  {
    var expanded := Expanded(WithoutApp(raw), 0);
    ExpandedIsNotLonger(WithoutApp(raw), 0);
    SlashedLength(WithoutDrive(expanded));
    var k := TrimmedIsSuffix(Slashed(WithoutDrive(expanded)));
    SplitLength(Rooted(raw));
    ResolvedIsNotLonger(Split(Rooted(raw)));
    JoinLength(Resolved(Split(Rooted(raw))));
  }

  // ---------------------------------------------------------------- cleaning twice

  lemma {:induction false} SlashedIdentity(s: string)
    requires '\\' !in s
    ensures Slashed(s) == s
  {
    if s != "" {
      SlashedIdentity(s[1..]);
      assert s == [s[0]] + s[1..];
    }
  }

  lemma {:induction false} ResolvedIdentity(parts: seq<string>)
    requires GoodParts(parts)
    ensures Resolved(parts) == parts
  {
    if parts != [] {
      var last := parts[|parts| - 1];
      ResolvedIdentity(parts[..|parts| - 1]);
      assert GoodPart(last) && CleanedPart(last) == last;
    }
  }

  lemma {:induction false} JoinSplit(s: string)
    ensures Join(Split(s)) == s
  {
    if s != "" {
      JoinSplit(s[1..]);
      assert s == [s[0]] + s[1..];
      var rest := Split(s[1..]);
      if s[0] == '/' {
        JoinBehindSlash(rest);
      } else {
        JoinBehind(s[0], rest[0], rest[1..]);
        assert [rest[0]] + rest[1..] == rest;
      }
    }
  }

  /** One more separator in front of the joined parts. */
  lemma JoinBehindSlash(rest: seq<string>)
    requires rest != []
    ensures Join([""] + rest) == "/" + Join(rest)
  {
    assert ([""] + rest)[1..] == rest;
  }

  /** One more character. */
  lemma JoinBehind(c: char, first: string, others: seq<string>)
    ensures Join([[c] + first] + others) == [c] + Join([first] + others)
  {
    var more, parts := [[c] + first] + others, [first] + others;
    assert more[1..] == others && parts[1..] == others;
    if others != [] {
      assert [c] + first + "/" + Join(others) == [c] + (first + "/" + Join(others));
    }
  }

  /** A canonical path without a brace is already clean. */
  lemma CanonicalIsClean(path: string)
    requires Canonical(path) && '{' !in path
    ensures Cleaned(path) == path
  {
    forall k | 0 <= k < |path|
      ensures path[k] != '\\' && path[k] != ':' && (k == 0 ==> path[k] != '/')
    {
      CanonicalCharacters(path, k);
    }
    SlashedIdentity(path);
    assert Rooted(path) == path;
    JoinSplit(path);
    if path == "" {
      assert Resolved([""]) == Pushed(Resolved([]), "");
    } else {
      ResolvedIdentity(Split(path));
    }
  }

  function Braces(s: string): nat {
    if s == "" then 0 else (if s[0] == '{' then 1 else 0) + Braces(s[1..])
  }

  lemma {:induction false} BracesConcat(s: string, t: string)
    ensures Braces(s + t) == Braces(s) + Braces(t)
  {
    if s == "" {
      assert s + t == t;
    } else {
      BracesConcat(s[1..], t);
      assert (s + t)[1..] == s[1..] + t;
    }
  }

  lemma {:induction false} BracesFound(s: string)
    ensures Braces(s) > 0 <==> '{' in s
  {
    if s != "" {
      BracesFound(s[1..]);
      assert s == [s[0]] + s[1..];
    }
  }

  lemma BracesSuffix(s: string, k: nat)
    requires k <= |s|
    ensures Braces(s) == Braces(s[..k]) + Braces(s[k..])
  {
    BracesConcat(s[..k], s[k..]);
    assert s == s[..k] + s[k..];
  }

  /** Expanding removes at least one brace, if there is one. */
  lemma {:induction false} ExpandedLosesBraces(s: string, depth: nat)
    ensures Braces(Expanded(s, depth)) <= Braces(s)
    ensures depth < MAX_DEPTH && '{' in s ==> Braces(Expanded(s, depth)) < Braces(s)
    decreases if depth >= MAX_DEPTH then 0 else MAX_DEPTH - depth, |s|, 1
  {
    if depth < MAX_DEPTH && '{' in s {
      ExpandedFromLosesBraces(s, depth);
    }
  }

  lemma {:induction false} ExpandedFromLosesBraces(s: string, depth: nat)
    requires depth < MAX_DEPTH
    ensures Braces(ExpandedFrom(s, depth)) <= Braces(s)
    ensures '{' in s ==> Braces(ExpandedFrom(s, depth)) < Braces(s)
    decreases MAX_DEPTH - depth, |s|, 0
  {
    BracesFound(s);
    if s == "" {
    } else if s[0] != '{' || ClosingBrace(s[1..], 0).None? {
      ExpandedFromLosesBraces(s[1..], depth);
      BracesFound(s[1..]);
      OneCharacter(if s[0] == '{' then '$' else s[0], ExpandedFrom(s[1..], depth));
    } else {
      var k := ClosingBrace(s[1..], 0).value;
      var value, rest := s[1..k + 1], s[k + 2..];
      ExpandedLosesBraces(value, depth + 1);
      ExpandedFromLosesBraces(rest, depth);
      BracesConcat(Contents(value, depth), ExpandedFrom(rest, depth));
      ConstantBraces(s, k);
    }
  }

  lemma OneCharacter(c: char, rest: string)
    ensures Braces([c] + rest) == Braces(rest) + if c == '{' then 1 else 0
  {
    assert ([c] + rest)[1..] == rest;
  }

  /** The braces of a constant at the front, and of the text behind it. */
  lemma ConstantBraces(s: string, k: nat)
    requires k + 1 < |s| && s[0] == '{' && s[k + 1] == '}'
    ensures Braces(s) == 1 + Braces(s[1..k + 1]) + Braces(s[k + 2..])
  {
    var t := s[k + 1..];
    BracesSuffix(s[1..], k);
    assert s[1..][..k] == s[1..k + 1] && s[1..][k..] == t;
    assert t[1..] == s[k + 2..] && t[0] == '}';
  }

  function PartBraces(parts: seq<string>): nat {
    if parts == [] then 0 else PartBraces(parts[..|parts| - 1]) + Braces(parts[|parts| - 1])
  }

  lemma {:induction false} PartBracesFront(parts: seq<string>)
    requires parts != []
    ensures PartBraces(parts) == Braces(parts[0]) + PartBraces(parts[1..])
  {
    if |parts| > 1 {
      PartBracesFront(parts[..|parts| - 1]);
      assert parts[..|parts| - 1][1..] == parts[1..][..|parts[1..]| - 1];
    }
  }

  lemma {:induction false} JoinBraces(parts: seq<string>)
    ensures Braces(Join(parts)) == PartBraces(parts)
  {
    if |parts| == 1 {
      PartBracesFront(parts);
    } else if |parts| > 1 {
      JoinBraces(parts[1..]);
      PartBracesFront(parts);
      BracesConcat(parts[0] + "/", Join(parts[1..]));
      BracesConcat(parts[0], "/");
    }
  }

  lemma {:induction false} CleanedPartBraces(part: string)
    ensures Braces(CleanedPart(part)) == Braces(part)
  {
    if part != "" {
      CleanedPartBraces(part[1..]);
      assert CleanedPart(part)[1..] == CleanedPart(part[1..]);
    }
  }

  lemma {:induction false} ResolvedLosesBraces(parts: seq<string>)
    ensures PartBraces(Resolved(parts)) <= PartBraces(parts)
  {
    if parts != [] {
      var before, part := Resolved(parts[..|parts| - 1]), CleanedPart(parts[|parts| - 1]);
      ResolvedLosesBraces(parts[..|parts| - 1]);
      CleanedPartBraces(parts[|parts| - 1]);
      assert (before + [part])[..|before|] == before;
    }
  }

  lemma {:induction false} SlashedBraces(s: string)
    ensures Braces(Slashed(s)) == Braces(s)
  {
    if s != "" {
      SlashedBraces(s[1..]);
      assert Slashed(s)[1..] == Slashed(s[1..]);
    }
  }

  /** Behind the expansion nothing adds a brace. */
  lemma CleanAddsNoBrace(raw: string)
    ensures Braces(Cleaned(raw)) <= Braces(Expanded(WithoutApp(raw), 0))
  {
    var expanded := Expanded(WithoutApp(raw), 0);
    var driven := WithoutDrive(expanded);
    BracesSuffix(expanded, |expanded| - |driven|);
    SlashedBraces(driven);
    var k := TrimmedIsSuffix(Slashed(driven));
    BracesSuffix(Slashed(driven), k);
    ResolvedLosesBraces(Split(Rooted(raw)));
    JoinBraces(Resolved(Split(Rooted(raw))));
    JoinBraces(Split(Rooted(raw)));
    JoinSplit(Rooted(raw));
  }

  /** Cleaning a text with a brace in it removes at least one brace, so it changes the text. */
  lemma CleanLosesBraces(raw: string)
    requires '{' in raw
    ensures Braces(Cleaned(raw)) < Braces(raw)
  {
    var text := WithoutApp(raw);
    BracesFound(raw);
    BracesSuffix(raw, |raw| - |text|);
    if StartsWithApp(raw) {
      assert raw[..5][0] == '{';
    }
    BracesFound(text);
    ExpandedLosesBraces(text, 0);
    CleanAddsNoBrace(raw);
  }

  /** Cleaning is idempotent exactly when its result has no brace left in it. */
  lemma CleanTwice(raw: string)
    ensures Cleaned(Cleaned(raw)) == Cleaned(raw) <==> '{' !in Cleaned(raw)
  {
    CleanIsCanonical(raw);
    if '{' in Cleaned(raw) {
      CleanLosesBraces(Cleaned(raw));
    } else {
      CanonicalIsClean(Cleaned(raw));
    }
  }

  // ---------------------------------------------------------------- which braces survive

  /** How deep matched constants are nested. */
  function Nesting(s: string): nat
    decreases |s|
  {
    if s == "" then 0
    else if s[0] != '{' || ClosingBrace(s[1..], 0).None? then Nesting(s[1..])
    else
      var k := ClosingBrace(s[1..], 0).value;
      var inner, rest := 1 + Nesting(s[1..k + 1]), Nesting(s[k + 2..]);
      if inner > rest then inner else rest
  }

  /** The brace that closes b levels behind the one that closes a levels. */
  function ClosesThen(t: string, a: nat, b: nat): Option<nat> {
    match ClosingBrace(t, a)
    case None => None
    case Some(j) => Later(ClosingBrace(t[j + 1..], b), j + 1)
  }

  lemma ThenBehind(t: string, a: nat, b: nat)
    requires t != "" && (t[0] != '}' || a > 0)
    ensures ClosesThen(t, a, b) == Later(ClosesThen(t[1..], InnerDepth(t[0], a), b), 1)
  {
    ClosesBehind(t, a);
    var k := ClosingBrace(t[1..], InnerDepth(t[0], a));
    assert k.Some? ==> t[1..][k.value + 1..] == t[k.value + 2..];
  }

  /** Closing a + b + 1 levels is closing a levels and one more, then b levels and one more. */
  lemma {:induction false} ClosesInSteps(t: string, a: nat, b: nat)
    ensures ClosingBrace(t, a + b + 1) == ClosesThen(t, a, b)
  {
    if t != "" {
      ClosesBehind(t, a + b + 1);
      if t[0] != '}' || a > 0 {
        ClosesInSteps(t[1..], InnerDepth(t[0], a), b);
        ThenBehind(t, a, b);
      }
    }
  }

  lemma {:induction false} ClosesInPrefix(t: string, a: nat, m: nat)
    requires ClosingBrace(t, a).Some? && ClosingBrace(t, a).value < m <= |t|
    ensures ClosingBrace(t[..m], a) == ClosingBrace(t, a)
  {
    if !(t[0] == '}' && a == 0) {
      ClosesInPrefix(t[1..], InnerDepth(t[0], a), m - 1);
      assert t[..m][1..] == t[1..][..m - 1];
    }
  }

  /** Inside a matched constant every brace is matched. */
  lemma {:induction false} ValueNests(t: string, k: nat)
    requires ClosingBrace(t, 0) == Some(k) && '{' in t[..k]
    ensures Nesting(t[..k]) >= 1
  {
    var value := t[..k];
    assert value[1..] == t[1..][..k - 1];
    if t[0] == '{' {
      ClosesInSteps(t[1..], 0, 0);
      ClosesInPrefix(t[1..], 0, k - 1);
    } else {
      ValueNests(t[1..], k - 1);
    }
  }

  lemma {:induction false} NestingNeedsBrace(s: string)
    requires '{' !in s
    ensures Nesting(s) == 0
  {
    if s != "" {
      NestingNeedsBrace(s[1..]);
    }
  }

  /** A brace survives the expansion exactly when constants are nested too deep for it. */
  lemma {:induction false} ExpandedBraces(s: string, depth: nat)
    ensures '{' in Expanded(s, depth) <==> if depth >= MAX_DEPTH then '{' in s else Nesting(s) + depth > MAX_DEPTH
    decreases if depth >= MAX_DEPTH then 0 else MAX_DEPTH - depth, |s|, 1
  {
    if depth < MAX_DEPTH {
      if '{' in s {
        ExpandedFromBraces(s, depth);
      } else {
        NestingNeedsBrace(s);
      }
    }
  }

  lemma {:induction false} ContentsBraces(t: string, k: nat, depth: nat)
    requires ClosingBrace(t, 0) == Some(k) && depth < MAX_DEPTH
    ensures '{' in Contents(t[..k], depth) <==> 1 + Nesting(t[..k]) + depth > MAX_DEPTH
    decreases MAX_DEPTH - depth, 0, 0
  {
    var value := t[..k];
    if value != "" {
      ExpandedBraces(value, depth + 1);
      if '{' in value {
        ValueNests(t, k);
      } else {
        NestingNeedsBrace(value);
      }
    }
  }

  lemma {:induction false} ExpandedFromBraces(s: string, depth: nat)
    requires depth < MAX_DEPTH
    ensures '{' in ExpandedFrom(s, depth) <==> Nesting(s) + depth > MAX_DEPTH
    decreases MAX_DEPTH - depth, |s|, 0
  {
    if s == "" {
    } else if s[0] != '{' || ClosingBrace(s[1..], 0).None? {
      ExpandedFromBraces(s[1..], depth);
    } else {
      var k := ClosingBrace(s[1..], 0).value;
      assert s[1..][..k] == s[1..k + 1];
      ContentsBraces(s[1..], k, depth);
      ExpandedFromBraces(s[k + 2..], depth);
    }
  }

  /** If matched constants are nested at most eight deep, cleaning twice is cleaning once. */
  lemma EightDeepIsStable(raw: string)
    requires Nesting(WithoutApp(raw)) <= 8
    ensures Cleaned(Cleaned(raw)) == Cleaned(raw)
  {
    ExpandedBraces(WithoutApp(raw), 0);
    BracesFound(Expanded(WithoutApp(raw), 0));
    CleanAddsNoBrace(raw);
    BracesFound(Cleaned(raw));
    CleanTwice(raw);
  }

  // ---------------------------------------------------------------- where cleaning twice differs

  /** n braces around a letter. */
  function Deep(n: nat): (s: string)
    ensures |s| == 2 * n + 1 && s[0] == if n == 0 then 'a' else '{'
    ensures forall k :: 0 <= k < |s| ==> s[k] == '{' || s[k] == 'a' || s[k] == '}'
  {
    if n == 0 then "a" else "{" + Deep(n - 1) + "}"
  }

  lemma ClosesFront(c: char, rest: string, depth: nat)
    requires c != '}' || depth > 0
    ensures ClosingBrace([c] + rest, depth) == Later(ClosingBrace(rest, InnerDepth(c, depth)), 1)
  {
    ClosesBehind([c] + rest, depth);
    assert ([c] + rest)[1..] == rest;
  }

  lemma BraceText(inner: string, rest: string)
    ensures "{" + inner + "}" + rest == ['{'] + (inner + (['}'] + rest))
  {
  }

  /** A search that passes over a text passes over the text in braces. */
  lemma PassesBraces(inner: string, rest: string, depth: nat)
    requires ClosingBrace(inner + (['}'] + rest), depth + 1) == Later(ClosingBrace(['}'] + rest, depth + 1), |inner|)
    ensures ClosingBrace("{" + inner + "}" + rest, depth) == Later(ClosingBrace(rest, depth), |inner| + 2)
  {
    var tail := ['}'] + rest;
    var text := inner + tail;
    var k := ClosingBrace(rest, depth);
    assert ClosingBrace(tail, depth + 1) == Later(k, 1) by {
      ClosesFront('}', rest, depth + 1);
    }
    assert ClosingBrace(['{'] + text, depth) == Later(Later(Later(k, 1), |inner|), 1) by {
      ClosesFront('{', text, depth);
    }
    BraceText(inner, rest);
  }

  /** The search for a closing brace passes over the whole of it. */
  lemma {:induction false} PassesDeep(n: nat, rest: string, depth: nat)
    ensures ClosingBrace(Deep(n) + rest, depth) == Later(ClosingBrace(rest, depth), |Deep(n)|)
  {
    if n == 0 {
      ClosesFront('a', rest, depth);
    } else {
      PassesDeep(n - 1, ['}'] + rest, depth + 1);
      PassesBraces(Deep(n - 1), rest, depth);
    }
  }

  /** What the expansion leaves: the braces that are too deep for it. */
  function LeftOf(n: nat, levels: nat): nat {
    if n <= levels then 0 else n - levels
  }

  lemma DeepOpened(n: nat, depth: nat)
    requires n > 0 && depth < MAX_DEPTH
    ensures ExpandedFrom(Deep(n), depth) == Contents(Deep(n - 1), depth)
  {
    var s, inner := Deep(n), Deep(n - 1);
    var end := |inner| + 1;
    assert s[0..] == s && s[0 + 1..] == inner + "}";
    PassesDeep(n - 1, "}", 0);
    assert s[1..end] == inner && s[end + 1..] == "" && s[end] == '}';
    MatchedBrace(s, 0, end, end + 1, depth, Contents(inner, depth));
    assert Contents(inner, depth) + "" == Contents(inner, depth);
  }

  /** One level of braces is taken away. */
  lemma DeepLevel(n: nat, depth: nat)
    requires n > 0 && depth < MAX_DEPTH
    ensures Expanded(Deep(n), depth) == Expanded(Deep(n - 1), depth + 1)
  {
    assert '{' in Deep(n) by {
      assert Deep(n)[0] == '{';
    }
    DeepOpened(n, depth);
  }

  lemma LetterStays(depth: nat)
    ensures Expanded(Deep(0), depth) == Deep(0)
  {
  }

  lemma {:induction false} DeepExpanded(n: nat, depth: nat)
    requires depth <= MAX_DEPTH
    ensures Expanded(Deep(n), depth) == Deep(LeftOf(n, MAX_DEPTH - depth))
    decreases n
  {
    if n == 0 {
      LetterStays(depth);
    } else if depth < MAX_DEPTH {
      DeepLevel(n, depth);
      DeepExpanded(n - 1, depth + 1);
    }
  }

  lemma {:induction false} CleanedPartIdentity(part: string)
    requires forall k :: 0 <= k < |part| ==> !Reserved(part[k])
    ensures CleanedPart(part) == part
  {
  }

  lemma DeepIsOnePart(n: nat)
    ensures Join(Resolved(Split(TrimmedLeft(Slashed(WithoutDrive(Deep(n))))))) == Deep(n)
  {
    var s := Deep(n);
    SlashedIdentity(s);
    SplitOne(s);
    CleanedPartIdentity(s);
    assert Resolved([s]) == Pushed(Resolved([s][..0]), CleanedPart(s));
    assert [] + [s] == [s];
  }

  lemma DeepHasNoApp(n: nat)
    ensures WithoutApp(Deep(n)) == Deep(n)
  {
    if n > 0 {
      assert Deep(n)[1] == Deep(n - 1)[0];
    }
  }

  lemma DeepCleaned(n: nat)
    ensures Cleaned(Deep(n)) == Deep(LeftOf(n, MAX_DEPTH))
  {
    DeepHasNoApp(n);
    DeepExpanded(n, 0);
    DeepIsOnePart(LeftOf(n, MAX_DEPTH));
  }

  lemma DeepsDiffer(m: nat, n: nat)
    requires m < n
    ensures Deep(m) != Deep(n)
  {
    assert |Deep(m)| < |Deep(n)|;
  }

  /** Braces more than eight deep are what cleaning twice treats differently from cleaning once:
      each cleaning takes eight of them away. */
  lemma DeepIsNotStable(n: nat)
    requires n > 8
    ensures Cleaned(Deep(n)) == Deep(n - 8)
    ensures Cleaned(Cleaned(Deep(n))) != Cleaned(Deep(n))
  {
    DeepCleaned(n);
    DeepCleaned(n - MAX_DEPTH);
    DeepsDiffer(LeftOf(n - MAX_DEPTH, MAX_DEPTH), n - MAX_DEPTH);
  }
}
