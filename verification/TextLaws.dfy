/** What the small readers of internal/gog/gog.go accept and mean: numbers, digests, constraints
    and the marks of a GOG installer, each said from its characters. */
module TextLaws {
  import opened Bytes
  import opened Format
  import opened GalaxyText

  // ---------------------------------------------------------------- numbers

  function Pow10(n: nat): nat {
    if n == 0 then 1 else 10 * Pow10(n - 1)
  }

  predicate AllDigits(s: string) {
    forall k :: 0 <= k < |s| ==> '0' <= s[k] <= '9'
  }

  /** The decimal value of a text, from the front. */
  function Number(s: string): nat
    requires AllDigits(s)
  {
    if s == "" then 0 else (s[0] as int - '0' as int) * Pow10(|s| - 1) + Number(s[1..])
  }

  lemma {:induction false} DigitInFront(c: char, t: string)
    requires '0' <= c <= '9' && AllDigits(t)
    ensures AllDigits([c] + t) && DigitsValue([c] + t) == (c as int - '0' as int) * Pow10(|t|) + DigitsValue(t)
  {
    var s := [c] + t;
    if t == "" {
      assert s[..0] == "";
    } else {
      var init := t[..|t| - 1];
      assert s[..|t|] == [c] + init;
      DigitInFront(c, init);
      Distribute(c as int - '0' as int, Pow10(|init|), DigitsValue(init));
    }
  }

  lemma Distribute(d: int, p: int, v: int)
    ensures 10 * (d * p + v) == d * (10 * p) + 10 * v
  {
  }

  lemma {:induction false} DigitsAreNumber(s: string)
    requires AllDigits(s)
    ensures DigitsValue(s) == Number(s)
  {
    if s != "" {
      DigitsAreNumber(s[1..]);
      DigitInFront(s[0], s[1..]);
      assert [s[0]] + s[1..] == s;
    }
  }

  /** A number is read exactly from a text of decimal digits whose value is a uint64. */
  lemma NumberIsRead(s: string, v: uint64)
    ensures ParsedUint(s) == Some(v) <==> s != "" && AllDigits(s) && Number(s) == v
  {
    if AllDigits(s) {
      DigitsAreNumber(s);
    }
  }

  // ---------------------------------------------------------------- digests

  predicate IsHex(c: char, v: nat) {
    v < 16 && (c == "0123456789abcdef"[v] || c == "0123456789ABCDEF"[v])
  }

  /** Does s spell the bytes of d, two hexadecimal digits for each? */
  predicate Spells(s: string, d: bytes) {
    |s| == 2 * |d| && forall k :: 0 <= k < |d| ==>
      IsHex(s[2 * k], d[k] as int / 16) && IsHex(s[2 * k + 1], d[k] as int % 16)
  }

  lemma HexIs(c: char, v: nat)
    ensures HexDigit(c) == Some(v) <==> IsHex(c, v)
  {
  }

  lemma SpellsOneMore(s: string, b: byte, d: bytes)
    requires |s| >= 2
    ensures Spells(s, [b] + d) <==>
      IsHex(s[0], b as int / 16) && IsHex(s[1], b as int % 16) && Spells(s[2..], d)
  {
    var t, e := s[2..], [b] + d;
    assert forall k :: 0 <= k < |d| ==> e[k + 1] == d[k];
    if Spells(s, e) {
      forall k | 0 <= k < |d|
        ensures IsHex(t[2 * k], d[k] as int / 16) && IsHex(t[2 * k + 1], d[k] as int % 16)
      {
        assert IsHex(s[2 * (k + 1)], e[k + 1] as int / 16);
      }
      assert IsHex(s[2 * 0], e[0] as int / 16);
    }
    if IsHex(s[0], b as int / 16) && IsHex(s[1], b as int % 16) && Spells(t, d) {
      forall k | 0 <= k < |e|
        ensures IsHex(s[2 * k], e[k] as int / 16) && IsHex(s[2 * k + 1], e[k] as int % 16)
      {
        if k > 0 {
          assert IsHex(t[2 * (k - 1)], d[k - 1] as int / 16);
        }
      }
    }
  }

  lemma TwoDigits(h: nat, l: nat, b: nat)
    requires h < 16 && l < 16
    ensures h * 16 + l == b <==> h == b / 16 && l == b % 16
  {
  }

  lemma DecodesOneMore(s: string, b: byte, d: bytes)
    requires |s| >= 2
    ensures DecodedHex(s) == Some([b] + d) <==>
      && HexDigit(s[0]) == Some(b as int / 16) && HexDigit(s[1]) == Some(b as int % 16)
      && DecodedHex(s[2..]) == Some(d)
  {
    var h, l, rest := HexDigit(s[0]), HexDigit(s[1]), DecodedHex(s[2..]);
    if h.Some? && l.Some? && rest.Some? {
      TwoDigits(h.value, l.value, b as int);
      var x := (h.value * 16 + l.value) as byte;
      assert DecodedHex(s) == Some([x] + rest.value);
      assert [x] + rest.value == [b] + d <==> x == b && rest.value == d by {
        assert ([x] + rest.value)[1..] == rest.value && ([b] + d)[1..] == d;
        assert ([x] + rest.value)[0] == x && ([b] + d)[0] == b;
      }
    }
  }

  /** A text is decoded exactly to the bytes that it spells. */
  lemma {:induction false} HexIsRead(s: string, d: bytes)
    ensures DecodedHex(s) == Some(d) <==> Spells(s, d)
  {
    if |s| >= 2 && d != [] {
      HexIsRead(s[2..], d[1..]);
      DecodesOneMore(s, d[0], d[1..]);
      HexIs(s[0], d[0] as int / 16);
      HexIs(s[1], d[0] as int % 16);
      SpellsOneMore(s, d[0], d[1..]);
      assert d == [d[0]] + d[1..];
    }
  }

  /** A digest is read exactly from 32 hexadecimal digits. */
  lemma DigestIsRead(s: string)
    ensures ParsedMD5(s).Some? <==> exists d: bytes :: |d| == 16 && Spells(s, d)
    ensures forall d: bytes :: |d| == 16 && Spells(s, d) ==> ParsedMD5(s) == Some(Checksum(ChecksumMD5, d))
  {
    forall d: bytes
      ensures DecodedHex(s) == Some(d) <==> Spells(s, d)
    {
      HexIsRead(s, d);
    }
    assert DecodedHex(s).Some? ==> Spells(s, DecodedHex(s).value);
  }

  // ---------------------------------------------------------------- white space

  /** One white space character in UTF-8: an ASCII one, U+0085, U+00A0, U+1680, U+2000 to U+200A,
      U+2028, U+2029, U+202F, U+205F or U+3000. */
  predicate White(w: string) {
    if |w| == 1 then w[0] in " \t\n\r" || w[0] == 0x0b as char || w[0] == 0x0c as char
    else if |w| == 2 then w[0] == 0xc2 as char && (w[1] == 0x85 as char || w[1] == 0xa0 as char)
    else if |w| != 3 then false
    else
      || (w[0] == 0xe1 as char && w[1] == 0x9a as char && w[2] == 0x80 as char)
      || (w[0] == 0xe2 as char && w[1] == 0x80 as char
          && (0x80 as char <= w[2] <= 0x8a as char
              || w[2] == 0xa8 as char || w[2] == 0xa9 as char || w[2] == 0xaf as char))
      || (w[0] == 0xe2 as char && w[1] == 0x81 as char && w[2] == 0x9f as char)
      || (w[0] == 0xe3 as char && w[1] == 0x80 as char && w[2] == 0x80 as char)
  }

  function Text(ws: seq<string>): string {
    if ws == [] then "" else ws[0] + Text(ws[1..])
  }

  lemma {:induction false} TextMore(ws: seq<string>, w: string)
    ensures Text(ws + [w]) == Text(ws) + w
  {
    if ws == [] {
      assert [w][1..] == [];
    } else {
      TextMore(ws[1..], w);
      assert (ws + [w])[1..] == ws[1..] + [w];
      assert ws[0] + (Text(ws[1..]) + w) == (ws[0] + Text(ws[1..])) + w;
    }
  }

  /** White space as the code recognises it, by length. */
  lemma WhiteIs(w: string)
    ensures |w| == 1 ==> (White(w) <==> AsciiSpace(w[0]))
    ensures |w| == 2 ==> (White(w) <==> WideSpace(w[0], w[1], ' ') == 2)
    ensures |w| == 3 ==> (White(w) <==> WideSpace(w[0], w[1], w[2]) == 3)
    ensures White(w) ==> 1 <= |w| <= 3
  {
  }

  lemma TwoOfThree(a: char, b: char, c: char)
    ensures WideSpace(a, b, c) == 2 <==> WideSpace(a, b, ' ') == 2
    ensures AsciiSpace(a) ==> WideSpace(a, b, c) == 0
  {
  }

  lemma PrefixIs(s: string, k: nat)
    requires 0 < k <= |s|
    ensures White(s[..k]) <==> LeadingSpace(s) == k
  {
    WhiteIs(s[..k]);
    if |s| >= 3 {
      TwoOfThree(s[0], s[1], s[2]);
    }
  }

  lemma SuffixIs(s: string, k: nat)
    requires k < |s|
    ensures White(s[k..]) ==> TrailingSpace(s) > 0
    ensures TrailingSpace(s) == |s| - k ==> White(s[k..])
  {
    WhiteIs(s[k..]);
  }

  lemma LeadingIsWhite(s: string)
    ensures LeadingSpace(s) > 0 ==> White(s[..LeadingSpace(s)])
    ensures LeadingSpace(s) == 0 ==> forall k :: 0 < k <= |s| ==> !White(s[..k])
  {
    forall k | 0 < k <= |s|
      ensures White(s[..k]) <==> LeadingSpace(s) == k
    {
      PrefixIs(s, k);
    }
  }

  lemma TrailingIsWhite(s: string)
    ensures TrailingSpace(s) > 0 ==> White(s[|s| - TrailingSpace(s)..])
    ensures TrailingSpace(s) == 0 ==> forall k :: 0 <= k < |s| ==> !White(s[k..])
  {
    forall k | 0 <= k < |s|
      ensures White(s[k..]) ==> TrailingSpace(s) > 0
    {
      SuffixIs(s, k);
    }
    if TrailingSpace(s) > 0 {
      SuffixIs(s, |s| - TrailingSpace(s));
    }
  }

  /** No white space at either end. */
  predicate NoEdges(s: string) {
    forall k :: 0 <= k <= |s| ==> !White(s[..k]) && !White(s[k..])
  }

  predicate AllWhite(ws: seq<string>) {
    forall k :: 0 <= k < |ws| ==> White(ws[k])
  }

  /** Trimming takes white space characters from both ends, and all of them. */
  lemma {:induction false} TrimsWhite(s: string) returns (a: seq<string>, b: seq<string>)
    ensures s == Text(a) + TrimmedSpace(s) + Text(b) && AllWhite(a) && AllWhite(b) && NoEdges(TrimmedSpace(s))
    decreases |s|
  {
    var n, m := LeadingSpace(s), |s| - TrailingSpace(s);
    if n > 0 {
      LeadingIsWhite(s);
      a, b := TrimsWhite(s[n..]);
      a := TrimsMore(s[..n], a, TrimmedSpace(s[n..]), b);
      Halved(s, n);
    } else if m < |s| {
      TrailingIsWhite(s);
      a, b := TrimsWhite(s[..m]);
      b := TrimsEnd(a, TrimmedSpace(s[..m]), b, s[m..]);
      Halved(s, m);
    } else {
      a, b := [], [];
      NothingTrimmed(s);
    }
  }

  /** One more white space character in front. */
  lemma TrimsMore(x: string, a: seq<string>, t: string, b: seq<string>) returns (more: seq<string>)
    requires White(x) && AllWhite(a)
    ensures AllWhite(more) && x + (Text(a) + t + Text(b)) == Text(more) + t + Text(b)
  {
    more := [x] + a;
    assert more[1..] == a;
    InFront(x, Text(a), t, Text(b));
  }

  /** One more at the end. */
  lemma TrimsEnd(a: seq<string>, t: string, b: seq<string>, x: string) returns (more: seq<string>)
    requires White(x) && AllWhite(b)
    ensures AllWhite(more) && (Text(a) + t + Text(b)) + x == Text(a) + t + Text(more)
  {
    more := b + [x];
    TextMore(b, x);
    AtEnd(Text(a), t, Text(b), x);
  }

  lemma NothingTrimmed(s: string)
    requires LeadingSpace(s) == 0 && TrailingSpace(s) == 0
    ensures NoEdges(s)
  {
    LeadingIsWhite(s);
    TrailingIsWhite(s);
  }

  lemma Halved(s: string, k: nat)
    requires k <= |s|
    ensures s == s[..k] + s[k..]
  {
  }

  lemma InFront(x: string, a: string, t: string, b: string)
    ensures x + (a + t + b) == (x + a) + t + b
  {
  }

  lemma AtEnd(a: string, t: string, b: string, x: string)
    ensures (a + t + b) + x == a + t + (b + x)
  {
  }

  // ---------------------------------------------------------------- constraints

  /** A token names what is left of it without white space, negated behind an exclamation mark. */
  lemma TokenIsRead(token: string, name: string, negated: bool)
    ensures ParsedToken(token) == Some(Constraint(name, negated)) <==>
      && name != ""
      && if negated then exists u: string :: TrimmedSpace(token) == "!" + u && TrimmedSpace(u) == name
         else TrimmedSpace(token) == name && name[0] != '!'
  {
    var t := TrimmedSpace(token);
    if t != "" && t[0] == '!' {
      assert t == "!" + t[1..];
      assert forall u: string :: t == "!" + u ==> u == t[1..];
    }
  }

  function Named(token: string): seq<Constraint> {
    var c := ParsedToken(token);
    if c.Some? then [c.value] else []
  }

  lemma {:induction false} TokensFront(tokens: seq<string>)
    requires tokens != []
    ensures ParsedTokens(tokens) == Named(tokens[0]) + ParsedTokens(tokens[1..])
  {
    var init := tokens[..|tokens| - 1];
    if |tokens| == 1 {
      assert init == [] && tokens[1..] == [];
    } else {
      TokensFront(init);
      assert init[1..] == tokens[1..][..|tokens| - 2];
    }
  }

  lemma {:induction false} SplitsAtHash(t: string, rest: string)
    requires '#' !in t
    ensures SplitHash(t) == [t] && SplitHash(t + "#" + rest) == [t] + SplitHash(rest)
  {
    var s := t + "#" + rest;
    if t == "" {
      assert s[1..] == rest;
    } else {
      SplitsAtHash(t[1..], rest);
      assert s[1..] == t[1..] + "#" + rest;
      assert t == [t[0]] + t[1..];
    }
  }

  /** Constraints are the tokens between hash signs, in order, without those that name nothing. */
  lemma ConstraintsAreTokens(t: string, rest: string)
    requires '#' !in t
    ensures ParsedConstraints(t) == Named(t)
    ensures ParsedConstraints(t + "#" + rest) == Named(t) + ParsedConstraints(rest)
  {
    SplitsAtHash(t, rest);
    TokensFront([t]);
    TokensFront([t] + SplitHash(rest));
    assert ([t] + SplitHash(rest))[1..] == SplitHash(rest);
  }

  function Word(c: Constraint): string {
    (if c.negated then " not " else "") + c.name
  }

  lemma ExpressionEnd(cs: seq<Constraint>, last: Constraint)
    ensures Expression(cs + [last]) == if cs == [] then Word(last) else Expression(cs) + (" or " + Word(last))
  {
    var all := cs + [last];
    assert all[..|cs|] == cs && all[|cs|] == last;
    if cs == [] {
      assert Expression(all) == "" + "" + (if last.negated then " not " else "") + last.name;
    }
  }

  lemma Regrouped(w: string, e: string, x: string)
    ensures (w + (" or " + e)) + (" or " + x) == w + (" or " + (e + (" or " + x)))
  {
  }

  /** The expression for a list of constraints, from the front. */
  lemma {:induction false} ExpressionFront(c: Constraint, cs: seq<Constraint>)
    ensures Expression([c] + cs) == if cs == [] then Word(c) else Word(c) + (" or " + Expression(cs))
  {
    if cs == [] {
      ExpressionEnd([], c);
      assert [c] + cs == [] + [c];
    } else {
      var init, last := cs[..|cs| - 1], cs[|cs| - 1];
      assert cs == init + [last] && [c] + cs == ([c] + init) + [last];
      ExpressionEnd([c] + init, last);
      ExpressionEnd(init, last);
      ExpressionFront(c, init);
      Regrouped(Word(c), Expression(init), Word(last));
    }
  }

  /** A check for all languages: each of two or more is named without a negation. */
  lemma AllLanguagesIs(cs: seq<Constraint>, all: set<string>)
    ensures IsAllLanguages(cs, all) <==> |all| > 1 && forall name :: name in all ==> Constraint(name, false) in cs
  {
    forall name | name in all
      ensures Positive(cs, name) <==> Constraint(name, false) in cs
    {
      assert forall k :: 0 <= k < |cs| && cs[k].name == name && !cs[k].negated ==> cs[k] == Constraint(name, false);
    }
    if forall name :: name in all ==> Constraint(name, false) in cs {
      NamesAtMost(cs, all);
    }
  }

  lemma {:induction false} NamesAtMost(cs: seq<Constraint>, all: set<string>)
    requires forall name :: name in all ==> Constraint(name, false) in cs
    ensures |all| <= |cs|
  {
    if cs == [] {
      assert all == {};
    } else {
      var last := cs[|cs| - 1];
      NamesAtMost(cs[..|cs| - 1], all - {last.name});
    }
  }

  /** The architecture of a check: each width that it names without a negation, or the other one
      if it is just one negated width; none if both are asked for. */
  lemma BitsAreAsked(input: string)
    ensures var cs := ParsedConstraints(input);
      var asks32 := Constraint("32", false) in cs || cs == [Constraint("64", true)];
      var asks64 := Constraint("64", false) in cs || cs == [Constraint("32", true)];
      ArchitectureBits(input) == (asks32 && !asks64, asks64 && !asks32)
  {
    var cs := ParsedConstraints(input);
    AsksIs(cs, "32", "64");
    AsksIs(cs, "64", "32");
    if input == "32#64#" {
      BothWidths();
    }
  }

  lemma AsksIs(cs: seq<Constraint>, bits: string, other: string)
    ensures Asks(cs, bits, other) <==> Constraint(bits, false) in cs || cs == [Constraint(other, true)]
  {
    if Constraint(bits, false) in cs {
      var k :| 0 <= k < |cs| && cs[k] == Constraint(bits, false);
      assert AsksAt(cs, k, bits, other);
    }
    if cs == [Constraint(other, true)] {
      assert AsksAt(cs, 0, bits, other);
    }
  }

  lemma DigitsStay(s: string)
    requires s != "" && AllDigits(s)
    ensures Named(s) == [Constraint(s, false)]
  {
    assert LeadingSpace(s) == 0 && TrailingSpace(s) == 0;
  }

  lemma BothWidths()
    ensures ParsedConstraints("32#64#") == [Constraint("32", false), Constraint("64", false)]
  {
    var s, t := "32", "64";
    assert "32#64#" == s + "#" + (t + "#" + "");
    BothNamed(s, t);
  }

  lemma BothNamed(s: string, t: string)
    requires s != "" && t != "" && AllDigits(s) && AllDigits(t)
    ensures ParsedConstraints(s + "#" + (t + "#" + "")) == [Constraint(s, false), Constraint(t, false)]
  {
    TwoTokens(s, t);
    DigitsStay(s);
    DigitsStay(t);
  }

  lemma TwoTokens(s: string, t: string)
    requires '#' !in s && '#' !in t
    ensures ParsedConstraints(s + "#" + (t + "#" + "")) == Named(s) + (Named(t) + [])
  {
    ConstraintsAreTokens(s, t + "#" + "");
    ConstraintsAreTokens(t, "");
    ConstraintsAreTokens("", "");
    assert Named("") == [];
  }

  // ---------------------------------------------------------------- is it a GOG installer?

  /** The lower-case letter or other character b, in either case. */
  predicate Folds(a: char, b: char) {
    a == b || ('a' <= b <= 'z' && a as int + 32 == b as int)
  }

  predicate FoldsAt(s: string, i: nat, lower: string) {
    i + |lower| <= |s| && forall k :: 0 <= k < |lower| ==> Folds(s[i + k], lower[k])
  }

  /** A key directly under Software\GOG.com\Games, in whatever case. */
  predicate GameKey(key: string) {
    FoldsAt(key, 0, "software\\gog.com\\games\\") && '\\' !in key[23..]
  }

  /** An entry of a game that holds its ID. */
  predicate HoldsID(e: RegistryEntry) {
    GameKey(e.key) && |e.name| == 6 && FoldsAt(e.name, 0, "gameid")
  }

  predicate IsLower(s: string) {
    forall k :: 0 <= k < |s| ==> !('A' <= s[k] <= 'Z')
  }

  lemma LowerFolds(s: string, i: nat, lower: string)
    requires i + |lower| <= |s| && IsLower(lower)
    ensures Lower(s)[i..i + |lower|] == lower <==> FoldsAt(s, i, lower)
  {
    var part := Lower(s)[i..i + |lower|];
    assert forall k :: 0 <= k < |lower| ==> (part[k] == lower[k] <==> Folds(s[i + k], lower[k]));
  }

  lemma GameKeyIs(e: RegistryEntry)
    ensures InGames(e) <==> GameKey(e.key)
    ensures InGames(e) && Lower(e.name) == Lower("gameID") <==> HoldsID(e)
  {
    var prefix, id := "software\\gog.com\\games\\", "gameid";
    assert Lower(GAMES_PREFIX) == prefix && Lower("gameID") == id;
    if |e.key| >= |prefix| {
      LowerFolds(e.key, 0, prefix);
    }
    if |e.name| == |id| {
      LowerFolds(e.name, 0, id);
      assert Lower(e.name)[0..|id|] == Lower(e.name);
    }
  }

  /** The value of the first entry that holds an ID, or else the first name behind a key. */
  ghost predicate HasGame(entries: seq<RegistryEntry>, fallback: string) {
    || (exists k :: 0 <= k < |entries| && FirstID(entries, k) && entries[k].value != "")
    || ((forall k :: 0 <= k < |entries| ==> !HoldsID(entries[k]))
        && (fallback != "" || exists k :: 0 <= k < |entries| && GameKey(entries[k].key) && |entries[k].key| > 23))
  }

  predicate FirstID(entries: seq<RegistryEntry>, k: nat)
    requires k < |entries|
  {
    HoldsID(entries[k]) && forall j :: 0 <= j < k ==> !HoldsID(entries[j])
  }

  lemma {:induction false} GameIsFound(entries: seq<RegistryEntry>, fallback: string)
    ensures GameID(entries, fallback) != "" <==> HasGame(entries, fallback)
  {
    if entries != [] {
      var e, rest := entries[0], entries[1..];
      GameKeyIs(e);
      assert forall k :: 0 <= k < |rest| ==> rest[k] == entries[k + 1];
      if HoldsID(e) {
        assert FirstID(entries, 0);
      } else {
        var next := if InGames(e) && fallback == "" then e.key[23..] else fallback;
        GameIsFound(rest, next);
        assert forall k :: 0 <= k < |rest| ==> (FirstID(rest, k) <==> FirstID(entries, k + 1));
      }
    }
  }

  /** An archive looks like one of GOG if its registry names a game, or its publisher GOG.com. */
  lemma LooksLikeIs(registry: seq<RegistryEntry>, publisher: string)
    ensures LooksLikeGOG(registry, publisher)
       <==> HasGame(registry, "") || exists i :: 0 <= i <= |publisher| - 7 && FoldsAt(publisher, i, "gog.com")
  {
    GameIsFound(registry, "");
    forall i | 0 <= i <= |publisher| - 7
      ensures StartsAt(Lower(publisher), i, "gog.com") <==> FoldsAt(publisher, i, "gog.com")
    {
      LowerFolds(publisher, i, "gog.com");
    }
  }
}
