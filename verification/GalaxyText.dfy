/** The small readers of internal/gog/gog.go: numbers, digests, language and architecture
    constraints, and the registry test for a GOG installer. */
module GalaxyText {
  import opened Bytes
  import opened Format
  import opened Calls

  // ---------------------------------------------------------------- numbers and digests

  predicate IsDigit(c: char) {
    '0' <= c <= '9'
  }

  function DigitsValue(s: string): nat
    requires forall k :: 0 <= k < |s| ==> IsDigit(s[k])
  {
    if s == "" then 0
    else
      var last := s[|s| - 1];
      assert IsDigit(last);
      10 * DigitsValue(s[..|s| - 1]) + (last as int - '0' as int)
  }

  /** strconv.ParseUint(s, 10, 64). */
  function ParsedUint(s: string): Option<uint64> {
    if s != "" && (forall k :: 0 <= k < |s| ==> IsDigit(s[k])) && DigitsValue(s) <= MAX_UINT64
    then Some(DigitsValue(s))
    else None
  }

  function HexDigit(c: char): (d: Option<nat>)
    ensures d.Some? ==> d.value < 16
  {
    if '0' <= c <= '9' then Some(c as int - '0' as int)
    else if 'a' <= c <= 'f' then Some(c as int - 'a' as int + 10)
    else if 'A' <= c <= 'F' then Some(c as int - 'A' as int + 10)
    else None
  }

  /** hex.DecodeString. */
  function DecodedHex(s: string): Option<bytes> {
    if s == "" then Some([])
    else if |s| == 1 || HexDigit(s[0]).None? || HexDigit(s[1]).None? || DecodedHex(s[2..]).None? then None
    else Some([(HexDigit(s[0]).value * 16 + HexDigit(s[1]).value) as byte] + DecodedHex(s[2..]).value)
  }

  /** parseMD5. */
  function ParsedMD5(value: string): Option<Checksum> {
    var data := DecodedHex(value);
    if data.Some? && |data.value| == 16 then Some(Checksum(ChecksumMD5, data.value)) else None
  }

  // ---------------------------------------------------------------- strings.TrimSpace

  predicate AsciiSpace(c: char) {
    c == ' ' || c == '\t' || c == '\n' || c == '\r' || c == 0x0b as char || c == 0x0c as char
  }

  /** The length of the UTF-8 white space character that a, b, c start with, or 0. */
  function WideSpace(a: char, b: char, c: char): nat {
    if a == 0xc2 as char && (b == 0x85 as char || b == 0xa0 as char) then 2
    else if a == 0xe1 as char && b == 0x9a as char && c == 0x80 as char then 3
    else if a == 0xe2 as char && b == 0x80 as char
            && (0x80 as char <= c <= 0x8a as char || c == 0xa8 as char || c == 0xa9 as char || c == 0xaf as char) then 3
    else if a == 0xe2 as char && b == 0x81 as char && c == 0x9f as char then 3
    else if a == 0xe3 as char && b == 0x80 as char && c == 0x80 as char then 3
    else 0
  }

  /** Bytes of white space at the front of s. */
  function LeadingSpace(s: string): (n: nat)
    ensures n <= |s|
  {
    if s == "" then 0
    else if AsciiSpace(s[0]) then 1
    else if |s| >= 3 then WideSpace(s[0], s[1], s[2])
    else if |s| == 2 && WideSpace(s[0], s[1], ' ') == 2 then 2
    else 0
  }

  /** Bytes of white space at the end of s. */
  function TrailingSpace(s: string): (n: nat)
    ensures n <= |s|
  {
    var n := |s|;
    if n == 0 then 0
    else if AsciiSpace(s[n - 1]) then 1
    else if n >= 2 && WideSpace(s[n - 2], s[n - 1], ' ') == 2 then 2
    else if n >= 3 && WideSpace(s[n - 3], s[n - 2], s[n - 1]) == 3 then 3
    else 0
  }

  function TrimmedSpace(s: string): string
    decreases |s|
  {
    if LeadingSpace(s) > 0 then TrimmedSpace(s[LeadingSpace(s)..])
    else if TrailingSpace(s) > 0 then TrimmedSpace(s[..|s| - TrailingSpace(s)])
    else s
  }

  // ---------------------------------------------------------------- constraints

  datatype Constraint = Constraint(name: string, negated: bool)

  /** One token between '#' characters; None if it names nothing. */
  function ParsedToken(token: string): (c: Option<Constraint>)
    ensures c.Some? ==> c.value.name != ""
  {
    var t := TrimmedSpace(token);
    if t == "" then None
    else if t[0] == '!' then
      var name := TrimmedSpace(t[1..]);
      if name == "" then None else Some(Constraint(name, true))
    else Some(Constraint(t, false))
  }

  /** strings.Split(s, "#"). */
  function SplitHash(s: string): (tokens: seq<string>)
    ensures tokens != []
  {
    if s == "" then [""]
    else if s[0] == '#' then [""] + SplitHash(s[1..])
    else
      var rest := SplitHash(s[1..]);
      [[s[0]] + rest[0]] + rest[1..]
  }

  function ParsedTokens(tokens: seq<string>): (cs: seq<Constraint>)
    ensures forall k :: 0 <= k < |cs| ==> cs[k].name != ""
  {
    if tokens == [] then []
    else
      var c := ParsedToken(tokens[|tokens| - 1]);
      ParsedTokens(tokens[..|tokens| - 1]) + if c.Some? then [c.value] else []
  }

  /** parseConstraints. */
  function ParsedConstraints(input: string): (cs: seq<Constraint>)
    ensures forall k :: 0 <= k < |cs| ==> cs[k].name != ""
  {
    ParsedTokens(SplitHash(input))
  }

  method ParseConstraints(input: string) returns (result: seq<Constraint>)
    ensures result == ParsedConstraints(input)
  {
    result := [];
    var tokens := SplitHash(input);
    for i := 0 to |tokens|
      invariant result == ParsedTokens(tokens[..i])
    {
      assert tokens[..i + 1][..i] == tokens[..i];
      var token := TrimmedSpace(tokens[i]);
      if token == "" {
        continue;
      }
      var negated := token[0] == '!';
      if negated {
        token := TrimmedSpace(token[1..]);
      }
      if token != "" {
        result := result + [Constraint(token, negated)];
      }
    }
    assert tokens[..|tokens|] == tokens;
  }

  /** constraintExpression. */
  function Expression(cs: seq<Constraint>): string {
    if cs == [] then ""
    else
      var last := cs[|cs| - 1];
      Expression(cs[..|cs| - 1])
      + (if |cs| > 1 then " or " else "") + (if last.negated then " not " else "") + last.name
  }

  lemma ExpressionIsNotEmpty(cs: seq<Constraint>)
    requires cs != [] && cs[|cs| - 1].name != ""
    ensures Expression(cs) != ""
  {
  }

  predicate Positive(cs: seq<Constraint>, name: string) {
    exists k :: 0 <= k < |cs| && cs[k].name == name && !cs[k].negated
  }

  /** isAllLanguages. */
  predicate IsAllLanguages(cs: seq<Constraint>, all: set<string>) {
    |all| > 1 && |cs| >= |all| && forall name :: name in all ==> Positive(cs, name)
  }

  /** A constraint asks for some bits directly or, if it is the only one, by excluding the other. */
  predicate AsksAt(cs: seq<Constraint>, k: nat, bits: string, other: string)
    requires k < |cs|
  {
    || (cs[k].name == bits && !cs[k].negated)
    || (cs[k].name == other && cs[k].negated && |cs| <= 1)
  }

  predicate Asks(cs: seq<Constraint>, bits: string, other: string) {
    exists k :: 0 <= k < |cs| && AsksAt(cs, k, bits, other)
  }

  /** architectureBits. */
  function ArchitectureBits(input: string): (bool, bool) {
    var cs := ParsedConstraints(input);
    var wants32, wants64 := Asks(cs, "32", "64"), Asks(cs, "64", "32");
    if input == "32#64#" || (wants32 && wants64) then (false, false) else (wants32, wants64)
  }

  method ComputeArchitectureBits(input: string) returns (bits32: bool, bits64: bool)
    ensures (bits32, bits64) == ArchitectureBits(input)
  {
    if input == "32#64#" {
      return false, false;
    }
    var cs := ParseConstraints(input);
    if |cs| == 0 {
      return false, false;
    }
    var positive32, positive64 := false, false;
    for i := 0 to |cs|
      invariant positive32 <==> exists k :: 0 <= k < i && AsksAt(cs, k, "32", "64")
      invariant positive64 <==> exists k :: 0 <= k < i && AsksAt(cs, k, "64", "32")
    {
      ghost var asks32, asks64 := AsksAt(cs, i, "32", "64"), AsksAt(cs, i, "64", "32");
      if cs[i].name == "32" {
        if !cs[i].negated {
          positive32 := true;
        } else if |cs| <= 1 {
          positive64 := true;
        }
      } else if cs[i].name == "64" {
        if !cs[i].negated {
          positive64 := true;
        } else if |cs| <= 1 {
          positive32 := true;
        }
      }
    }
    if positive32 && positive64 {
      return false, false;
    }
    return positive32, positive64;
  }

  // ---------------------------------------------------------------- is it a GOG installer?

  /** ASCII lower case: no other character lowers to a letter of the texts compared here. */
  function Lower(s: string): (r: string)
    ensures |r| == |s|
  {
    seq(|s|, k requires 0 <= k < |s| => if 'A' <= s[k] <= 'Z' then s[k] + 32 as char else s[k])
  }

  const GAMES_PREFIX: string := "SOFTWARE\\GOG.com\\Games\\"

  predicate InGames(entry: RegistryEntry) {
    && |entry.key| >= |GAMES_PREFIX|
    && Lower(entry.key)[..|GAMES_PREFIX|] == Lower(GAMES_PREFIX)
    && '\\' !in entry.key[|GAMES_PREFIX|..]
  }

  /** GameID, with the fallback found so far. */
  function GameID(entries: seq<RegistryEntry>, fallback: string): string {
    if entries == [] then fallback
    else if !InGames(entries[0]) then GameID(entries[1..], fallback)
    else if Lower(entries[0].name) == Lower("gameID") then entries[0].value
    else GameID(entries[1..], if fallback == "" then entries[0].key[|GAMES_PREFIX|..] else fallback)
  }

  predicate StartsAt(s: string, i: nat, part: string)
    requires i + |part| <= |s|
  {
    s[i..i + |part|] == part
  }

  predicate Contains(s: string, part: string) {
    exists i :: 0 <= i <= |s| - |part| && StartsAt(s, i, part)
  }

  predicate LooksLikeGOG(registry: seq<RegistryEntry>, publisher: string) {
    GameID(registry, "") != "" || Contains(Lower(publisher), "gog.com")
  }

  // ---------------------------------------------------------------- markers

  /** firstFunctionCall with two names. */
  function FirstCall(code: string, name: string, other: string): seq<string> {
    var first := ParsedCall(code, name);
    if first != [] then first else ParsedCall(code, other)
  }

  method FirstFunctionCall(code: string, name: string, other: string) returns (args: seq<string>)
    ensures args == FirstCall(code, name, other)
  {
    args := ParseFunctionCall(code, name);
    if args == [] {
      args := ParseFunctionCall(code, other);
    }
  }

  /** Arguments are found exactly if the text prints a call to one of the names with them; if it
      could be read as a call to both, the first wins, but different names never compete. */
  lemma FirstCallIsExact(code: string, name: string, other: string, args: seq<string>)
    requires args != [] && PlainToken(name, true) && PlainToken(other, true)
    ensures FirstCall(code, name, other) == args
       <==> || IsCall(code, name, args)
            || (IsCall(code, other, args) && forall more :: more != [] ==> !IsCall(code, name, more))
    ensures name != other ==>
      (FirstCall(code, name, other) == args <==> IsCall(code, name, args) || IsCall(code, other, args))
  {
    forall more: seq<string> | more != []
      ensures IsCall(code, name, more) <==> ParsedCall(code, name) == more
    {
      ParserIsExact(code, name, more);
    }
    ParserIsExact(code, other, args);
    if ParsedCall(code, name) != [] && ParsedCall(code, other) != [] {
      OneName(code, name, other);
    }
  }

  function StartInfo(file: FileEntry): seq<string> {
    FirstCall(file.beforeInstall, "before_install", "before_install_dependency")
  }

  function PartInfo(file: FileEntry): seq<string> {
    FirstCall(file.afterInstall, "after_install", "after_install_dependency")
  }

  function CheckInfo(file: FileEntry): seq<string> {
    ParsedCall(file.check, "check_if_install")
  }
}
