/** parseFunctionCall (internal/gog/gog.go): the reader for calls such as
    unpack_part( 'tom''s disk' , 3 ) ;

    The specification reads from the front of what is left of the text.  The parser is proved
    exact: it accepts precisely the texts that a printer with free white space, quoted and bare
    arguments, an optional trailing comma and an optional semicolon can produce. */
module Calls {
  import opened Bytes

  predicate IsSpace(c: char) {
    c == ' ' || c == '\t' || c == '\r' || c == '\n'
  }

  /** A character that ends a bare token; a quote also ends the function name. */
  predicate EndsToken(c: char, atQuote: bool) {
    IsSpace(c) || c == '(' || c == ')' || c == ',' || (atQuote && c == '\'')
  }

  // ---------------------------------------------------------------- the grammar read off the text

  function SkipSpace(t: string): (r: string)
    ensures |r| <= |t|
    ensures r != "" ==> !IsSpace(r[0])
  {
    if t != "" && IsSpace(t[0]) then SkipSpace(t[1..]) else t
  }

  function TokenLength(t: string, atQuote: bool): (n: nat)
    ensures n <= |t|
  {
    if t == "" || EndsToken(t[0], atQuote) then 0 else 1 + TokenLength(t[1..], atQuote)
  }

  /** What follows an opening quote: the value, with doubled quotes undone, and the text behind
      the closing quote. */
  function Quoted(t: string): (r: Option<(string, string)>)
    ensures r.Some? ==> |r.value.1| < |t|
  {
    if t == "" then None
    else if t[0] != '\'' then Prefixed([t[0]], Quoted(t[1..]))
    else if |t| > 1 && t[1] == '\'' then Prefixed("'", Quoted(t[2..]))
    else Some(("", t[1..]))
  }

  function Prefixed(front: string, r: Option<(string, string)>): (p: Option<(string, string)>)
    ensures p.Some? == r.Some? && (p.Some? ==> p.value.1 == r.value.1)
  {
    if r.Some? then Some((front + r.value.0, r.value.1)) else None
  }

  /** One argument without the space before it. */
  function Argument(t: string): (r: Option<(string, string)>)
    requires t != ""
    ensures r.Some? ==> |r.value.1| <= |t|
  {
    if t[0] == '\'' then Quoted(t[1..])
    else
      var n := TokenLength(t, false);
      Some((t[..n], t[n..]))
  }

  /** The arguments up to the closing parenthesis, and the text behind it. */
  function Arguments(t: string): (r: Option<(seq<string>, string)>)
    decreases |t|
  {
    var u := SkipSpace(t);
    if u == "" then None
    else if u[0] == ')' then Some(([], u[1..]))
    else
      match Argument(u)
      case None => None
      case Some((value, rest)) =>
        var v := SkipSpace(rest);
        if v == "" then None
        else if v[0] == ')' then Some(([value], v[1..]))
        else if v[0] != ',' then None
        else
          match Arguments(v[1..])
          case None => None
          case Some((values, behind)) => Some(([value] + values, behind))
  }

  /** Only white space and at most one semicolon. */
  predicate EndsCall(t: string) {
    var u := SkipSpace(t);
    u == "" || (u[0] == ';' && SkipSpace(u[1..]) == "")
  }

  /** The arguments behind the opening parenthesis, if the call ends properly. */
  function CallValues(t: string): seq<string> {
    match Arguments(t)
    case Some((values, rest)) => if EndsCall(rest) then values else []
    case None => []
  }

  /** The arguments behind the name, if a parenthesis opens there. */
  function ValuesBehind(t: string): seq<string> {
    var u := SkipSpace(t);
    if u == "" || u[0] != '(' then [] else CallValues(u[1..])
  }

  /** The text behind the name, if the call is to `name`. */
  function TextBehind(code: string, name: string): Option<string> {
    TextFrom(SkipSpace(code), name)
  }

  function TextFrom(t: string, name: string): Option<string> {
    var n := TokenLength(t, true);
    if t[..n] != name then None else Some(t[n..])
  }

  /** The arguments of a call to `name`; the empty list stands for Go's nil. */
  function ParsedCall(code: string, name: string): seq<string> {
    match TextBehind(code, name)
    case None => []
    case Some(t) => ValuesBehind(t)
  }

  // ---------------------------------------------------------------- the parser

  lemma SuffixStep(s: string, i: nat, k: nat)
    requires i + k <= |s|
    ensures s[i..][k..] == s[i + k..] && s[i..][..k] == s[i..i + k]
  {
  }

  method SkipSpaceFrom(s: string, start: nat) returns (i: nat)
    requires start <= |s|
    ensures start <= i <= |s| && s[i..] == SkipSpace(s[start..])
  {
    i := start;
    while i < |s| && IsSpace(s[i])
      invariant start <= i <= |s| && SkipSpace(s[i..]) == SkipSpace(s[start..])
    {
      SuffixStep(s, i, 1);
      i := i + 1;
    }
  }

  method TokenFrom(s: string, start: nat, atQuote: bool) returns (i: nat)
    requires start <= |s|
    ensures i == start + TokenLength(s[start..], atQuote) <= |s|
  {
    i := start;
    while i < |s| && !EndsToken(s[i], atQuote)
      invariant start <= i <= |s|
      invariant TokenLength(s[start..], atQuote) == i - start + TokenLength(s[i..], atQuote)
    {
      SuffixStep(s, i, 1);
      i := i + 1;
    }
  }

  lemma {:induction false} NoQuoteAhead(t: string, n: nat)
    requires n <= |t| && '\'' !in t[..n]
    ensures Quoted(t) == Prefixed(t[..n], Quoted(t[n..]))
  {
    if n > 0 {
      NoQuoteAhead(t[1..], n - 1);
      assert t[..n] == [t[0]] + t[1..][..n - 1] && t[1..][n - 1..] == t[n..];
      PrefixedTwice([t[0]], t[1..][..n - 1], Quoted(t[n..]));
    } else {
      PrefixedNothing(Quoted(t));
    }
  }

  lemma PrefixedTwice(a: string, b: string, r: Option<(string, string)>)
    ensures Prefixed(a, Prefixed(b, r)) == Prefixed(a + b, r)
  {
    if r.Some? {
      assert a + (b + r.value.0) == (a + b) + r.value.0;
    }
  }

  lemma PrefixedNothing(r: Option<(string, string)>)
    ensures Prefixed("", r) == r
  {
    if r.Some? {
      assert "" + r.value.0 == r.value.0;
    }
  }

  /** A quoted value, from behind the opening quote; None if it is never closed. */
  method QuotedFrom(s: string, start: nat) returns (r: Option<(string, nat)>)
    requires start <= |s|
    ensures r.Some? ==> r.value.1 <= |s|
    ensures Quoted(s[start..]) == if r.Some? then Some((r.value.0, s[r.value.1..])) else None
  {
    var i, b := start, "";
    PrefixedNothing(Quoted(s[start..]));
    while i < |s|
      invariant start <= i <= |s|
      invariant Quoted(s[start..]) == Prefixed(b, Quoted(s[i..]))
    {
      var end := IndexQuote(s, i);
      PrefixedTwice(b, s[i..end], Quoted(s[end..]));
      if end == |s| {
        return None;
      }
      b := b + s[i..end];
      i := end + 1;
      QuoteAt(s, end);
      if i < |s| && s[i] == '\'' {
        PrefixedTwice(b, "'", Quoted(s[end + 2..]));
        b := b + "'";
        i := i + 1;
        continue;
      }
      assert b + "" == b;
      return Some((b, i));
    }
    r := None;
  }

  /** strings.IndexByte for the next quote; the length of the text if there is none. */
  method IndexQuote(s: string, i: nat) returns (end: nat)
    requires i <= |s|
    ensures i <= end <= |s| && (end < |s| ==> s[end] == '\'')
    ensures Quoted(s[i..]) == Prefixed(s[i..end], Quoted(s[end..]))
  {
    end := i;
    while end < |s| && s[end] != '\''
      invariant i <= end <= |s| && '\'' !in s[i..end]
    {
      end := end + 1;
    }
    SuffixStep(s, i, end - i);
    NoQuoteAhead(s[i..], end - i);
  }

  lemma QuoteAt(s: string, i: nat)
    requires i < |s| && s[i] == '\''
    ensures Quoted(s[i..]) ==
      if i + 1 < |s| && s[i + 1] == '\'' then Prefixed("'", Quoted(s[i + 2..])) else Some(("", s[i + 1..]))
  {
    SuffixStep(s, i, 1);
    if i + 1 < |s| {
      SuffixStep(s, i, 2);
    }
  }

  /** The arguments so far, in front of what the rest of the text gives. */
  function After(values: seq<string>, r: Option<(seq<string>, string)>): Option<(seq<string>, string)> {
    if r.Some? then Some((values + r.value.0, r.value.1)) else None
  }

  lemma AfterTwice(a: seq<string>, b: seq<string>, r: Option<(seq<string>, string)>)
    ensures After(a, After(b, r)) == After(a + b, r)
  {
    if r.Some? {
      assert a + (b + r.value.0) == (a + b) + r.value.0;
    }
  }

  lemma ArgumentsStep(t: string, value: string, rest: string, v: string)
    requires var u := SkipSpace(t); u != "" && u[0] != ')' && Argument(u) == Some((value, rest))
    requires v == SkipSpace(rest) && v != "" && v[0] == ','
    ensures Arguments(t) == After([value], Arguments(v[1..]))
  {
  }

  method ArgumentFrom(s: string, i: nat) returns (r: Option<(string, nat)>)
    requires i < |s|
    ensures r.Some? ==> i <= r.value.1 <= |s| && (s[i] == '\'' ==> i < r.value.1)
    ensures Argument(s[i..]) == if r.Some? then Some((r.value.0, s[r.value.1..])) else None
  {
    SuffixStep(s, i, 1);
    if s[i] == '\'' {
      r := QuotedFrom(s, i + 1);
    } else {
      var end := TokenFrom(s, i, false);
      SuffixStep(s, i, end - i);
      r := Some((s[i..end], end));
    }
  }

  /** One argument with the space around it and the delimiter behind it: its value, and where
      the text goes on behind the delimiter. */
  method OneArgument(s: string, start: nat) returns (r: Option<(string, char, nat)>)
    requires start < |s| && !IsSpace(s[start]) && s[start] != ')'
    ensures r.Some? ==> start < r.value.2 <= |s| && (r.value.1 == ',' || r.value.1 == ')')
    ensures Arguments(s[start..]) ==
      if r.None? then None
      else if r.value.1 == ')' then Some(([r.value.0], s[r.value.2..]))
      else After([r.value.0], Arguments(s[r.value.2..]))
  {
    var argument := ArgumentFrom(s, start);
    if argument.None? {
      return None;
    }
    var (value, end) := argument.value;
    var i := SkipSpaceFrom(s, end);
    if i >= |s| || (s[i] != ',' && s[i] != ')') {
      return None;
    }
    SuffixStep(s, i, 1);
    r := Some((value, s[i], i + 1));
  }

  /** The argument loop, from behind the opening parenthesis. */
  method ArgumentsFrom(s: string, start: nat) returns (r: Option<(seq<string>, nat)>)
    requires start <= |s|
    ensures r.Some? ==> r.value.1 <= |s|
    ensures Arguments(s[start..]) == if r.Some? then Some((r.value.0, s[r.value.1..])) else None
  {
    var i, args := start, [];
    ghost var whole := Arguments(s[start..]);
    assert whole.Some? ==> [] + whole.value.0 == whole.value.0;
    while true
      invariant start <= i <= |s|
      invariant whole == After(args, Arguments(s[i..]))
      decreases |s| - i
    {
      ghost var before := i;
      i := SkipSpaceFrom(s, i);
      ArgumentsFromSpace(s[before..]);
      if i >= |s| {
        return None;
      }
      SuffixStep(s, i, 1);
      if s[i] == ')' {
        assert args + [] == args;
        return Some((args, i + 1));
      }
      var argument := OneArgument(s, i);
      if argument.None? {
        return None;
      }
      i := argument.value.2;
      if argument.value.1 == ')' {
        return Some((args + [argument.value.0], i));
      }
      AfterTwice(args, [argument.value.0], Arguments(s[i..]));
      args := args + [argument.value.0];
    }
  }

  lemma ArgumentsFromSpace(t: string)
    ensures Arguments(t) == Arguments(SkipSpace(t))
  {
    assert SkipSpace(SkipSpace(t)) == SkipSpace(t);
  }

  /** The name of a call, between the positions where it starts and ends. */
  lemma CallAt(code: string, name: string, start: nat, i: nat)
    requires start <= i <= |code| && code[start..] == SkipSpace(code)
    requires i == start + TokenLength(code[start..], true)
    ensures TextBehind(code, name) == if code[start..i] != name then None else Some(code[i..])
  {
    var t, n := SkipSpace(code), i - start;
    assert t[..n] == code[start..i] && t[n..] == code[i..] by {
      SuffixStep(code, start, n);
    }
    NameSplit(t, n, name);
  }

  lemma NameSplit(t: string, n: nat, name: string)
    requires n == TokenLength(t, true)
    ensures TextFrom(t, name) == if t[..n] != name then None else Some(t[n..])
  {
  }

  method ParseFunctionCall(code: string, name: string) returns (args: seq<string>)
    ensures args == ParsedCall(code, name)
  {
    assert code[0..] == code;
    var start := SkipSpaceFrom(code, 0);
    var i := TokenFrom(code, start, true);
    CallAt(code, name, start, i);
    if code[start..i] != name {
      return [];
    }
    args := BehindName(code, i);
  }

  method BehindName(code: string, start: nat) returns (args: seq<string>)
    requires start <= |code|
    ensures args == ValuesBehind(code[start..])
  {
    var i := SkipSpaceFrom(code, start);
    if i >= |code| || code[i] != '(' {
      return [];
    }
    SuffixStep(code, i, 1);
    args := CallFrom(code, i + 1);
  }

  method CallFrom(code: string, start: nat) returns (args: seq<string>)
    requires start <= |code|
    ensures args == CallValues(code[start..])
  {
    var parsed := ArgumentsFrom(code, start);
    if parsed.None? {
      return [];
    }
    var atEnd := EndsAt(code, parsed.value.1);
    args := if atEnd then parsed.value.0 else [];
  }

  method EndsAt(code: string, start: nat) returns (atEnd: bool)
    requires start <= |code|
    ensures atEnd == EndsCall(code[start..])
  {
    var i := SkipSpaceFrom(code, start);
    if i < |code| && code[i] == ';' {
      SuffixStep(code, i, 1);
      i := SkipSpaceFrom(code, i + 1);
    }
    atEnd := i == |code|;
  }

  // ---------------------------------------------------------------- a printer

  predicate AllSpace(s: string) {
    forall k :: 0 <= k < |s| ==> s[k] == ' ' || s[k] == '\t' || s[k] == '\r' || s[k] == '\n'
  }

  /** One argument with the white space around it. */
  datatype Arg =
    | QuotedArg(before: string, value: string, behind: string)
    | BareArg(before: string, value: string, behind: string)

  /** An argument list: closed at once (also behind a trailing comma), with a last argument, or
      with one more argument and a comma. */
  datatype ArgList = Close(space: string) | Last(arg: Arg) | More(arg: Arg, rest: ArgList)

  /** A call: space, the name, space, the arguments, space, and perhaps a semicolon. */
  datatype Call = Call(before: string, gap: string, args: ArgList, behind: string, semicolon: Option<string>)

  function Doubled(value: string): string {
    if value == "" then ""
    else (if value[0] == '\'' then "''" else [value[0]]) + Doubled(value[1..])
  }

  function PrintedArg(a: Arg): string {
    a.before + Body(a) + a.behind
  }

  function PrintedArgs(args: ArgList): string {
    match args
    case Close(space) => space + ")"
    case Last(a) => PrintedArg(a) + ")"
    case More(a, rest) => PrintedArg(a) + "," + PrintedArgs(rest)
  }

  function Printed(call: Call, name: string): string {
    call.before + name + call.gap + "(" + PrintedArgs(call.args) + call.behind
    + if call.semicolon.Some? then ";" + call.semicolon.value else ""
  }

  function Values(args: ArgList): seq<string> {
    match args
    case Close(_) => []
    case Last(a) => [a.value]
    case More(a, rest) => [a.value] + Values(rest)
  }

  predicate PlainToken(s: string, atQuote: bool) {
    forall k :: 0 <= k < |s| ==>
      && s[k] != ' ' && s[k] != '\t' && s[k] != '\r' && s[k] != '\n'
      && s[k] != '(' && s[k] != ')' && s[k] != ',' && (atQuote ==> s[k] != '\'')
  }

  /** Any value may be quoted; a bare one has no delimiter and does not start with a quote. */
  predicate WellFormedArg(a: Arg) {
    && AllSpace(a.before) && AllSpace(a.behind)
    && (a.BareArg? ==> PlainToken(a.value, false) && (a.value != "" ==> a.value[0] != '\''))
  }

  predicate WellFormedArgs(args: ArgList) {
    match args
    case Close(space) => AllSpace(space)
    case Last(a) => WellFormedArg(a) && (a.BareArg? ==> a.value != "")
    case More(a, rest) => WellFormedArg(a) && WellFormedArgs(rest)
  }

  predicate WellFormed(call: Call) {
    && AllSpace(call.before) && AllSpace(call.gap) && AllSpace(call.behind) && WellFormedArgs(call.args)
    && (call.semicolon.Some? ==> AllSpace(call.semicolon.value))
  }

  // ---------------------------------------------------------------- printing, then parsing

  lemma {:induction false} SkipsSpace(space: string, t: string)
    requires AllSpace(space)
    ensures SkipSpace(space + t) == SkipSpace(t)
  {
    if space == "" {
      assert space + t == t;
    } else {
      assert (space + t)[1..] == space[1..] + t;
      SkipsSpace(space[1..], t);
    }
  }

  lemma {:induction false} ReadsToken(s: string, t: string, atQuote: bool)
    requires PlainToken(s, atQuote) && (t == "" || EndsToken(t[0], atQuote))
    ensures TokenLength(s + t, atQuote) == |s|
  {
    if s == "" {
      assert s + t == t;
    } else {
      assert (s + t)[1..] == s[1..] + t;
      ReadsToken(s[1..], t, atQuote);
    }
  }

  lemma {:induction false} UndoublesQuotes(value: string, t: string)
    requires t == "" || t[0] != '\''
    ensures Quoted(Doubled(value) + "'" + t) == Some((value, t))
  {
    var text := Doubled(value) + "'" + t;
    if value == "" {
      assert text == "'" + t && text[1..] == t;
    } else {
      var rest := Doubled(value[1..]) + "'" + t;
      UndoublesQuotes(value[1..], t);
      if value[0] == '\'' {
        assert text == "''" + rest;
        assert text[2..] == rest;
      } else {
        assert text == [value[0]] + rest;
        assert text[1..] == rest;
      }
      assert value == [value[0]] + value[1..];
    }
  }

  /** Behind an argument comes a comma or a parenthesis. */
  predicate Follows(t: string) {
    t != "" && (t[0] == ',' || t[0] == ')')
  }

  /** An argument text without the space in front. */
  function Body(a: Arg): string {
    if a.QuotedArg? then "'" + Doubled(a.value) + "'" else a.value
  }

  lemma ReadsQuoted(value: string, tail: string)
    requires tail != "" && tail[0] != '\''
    ensures Argument("'" + Doubled(value) + "'" + tail) == Some((value, tail))
  {
    var inside := Doubled(value) + "'" + tail;
    UndoublesQuotes(value, tail);
    assert "'" + Doubled(value) + "'" + tail == "'" + inside;
    ArgumentAtQuote(inside);
  }

  lemma ArgumentAtQuote(inside: string)
    ensures Argument("'" + inside) == Quoted(inside)
  {
    assert ("'" + inside)[1..] == inside;
  }

  lemma ReadsBare(value: string, tail: string)
    requires WellFormedArg(BareArg("", value, "")) && tail != "" && EndsToken(tail[0], false)
    requires value == "" ==> tail[0] != '\''
    ensures Argument(value + tail) == Some((value, tail))
  {
    ReadsToken(value, tail, false);
    assert (value + tail)[..|value|] == value && (value + tail)[|value|..] == tail;
  }

  lemma ReadsBody(a: Arg, tail: string)
    requires WellFormedArg(a) && tail != ""
    requires a.QuotedArg? ==> tail[0] != '\''
    requires a.BareArg? ==> EndsToken(tail[0], false)
    requires Body(a) + tail != "" && (a.BareArg? && a.value == "" ==> tail[0] != '\'')
    ensures Argument(Body(a) + tail) == Some((a.value, tail))
  {
    if a.QuotedArg? {
      ReadsQuoted(a.value, tail);
    } else {
      ReadsBare(a.value, tail);
    }
  }

  lemma ReadsArgument(a: Arg, t: string)
    requires WellFormedArg(a) && Follows(t)
    requires a.BareArg? && a.value == "" ==> t[0] == ','
    ensures var u := SkipSpace(PrintedArg(a) + t);
      u != "" && u[0] != ')' && Argument(u).Some? && Argument(u).value.0 == a.value
      && SkipSpace(Argument(u).value.1) == t
  {
    var tail := a.behind + t;
    assert PrintedArg(a) + t == a.before + (Body(a) + tail);
    SkipsSpace(a.before, Body(a) + tail);
    SkipsSpace(a.behind, t);
    EndsBehind(a.behind, t);
    if Body(a) == "" {
      assert Body(a) + tail == tail;
      EmptyBare(t);
    } else {
      ReadsBody(a, tail);
    }
  }

  lemma EndsBehind(behind: string, t: string)
    requires AllSpace(behind) && Follows(t)
    ensures behind + t != "" && EndsToken((behind + t)[0], false) && (behind + t)[0] != '\''
  {
    assert (behind + t)[0] == if behind == "" then t[0] else behind[0];
  }

  lemma EmptyBare(t: string)
    requires t != "" && t[0] == ','
    ensures SkipSpace(t) == t && Argument(t) == Some(("", t))
  {
    assert t[..0] == "" && t[0..] == t;
  }

  lemma ReadsClose(space: string, t: string)
    requires AllSpace(space)
    ensures Arguments(space + (")" + t)) == Some(([], t))
  {
    SkipsSpace(space, ")" + t);
    assert (")" + t)[1..] == t;
  }

  lemma ReadsLast(a: Arg, t: string)
    requires WellFormedArg(a) && (a.BareArg? ==> a.value != "")
    ensures Arguments(PrintedArg(a) + (")" + t)) == Some(([a.value], t))
  {
    ReadsArgument(a, ")" + t);
    assert (")" + t)[1..] == t;
  }

  lemma ReadsMore(a: Arg, t: string)
    requires WellFormedArg(a)
    ensures Arguments(PrintedArg(a) + ("," + t)) == After([a.value], Arguments(t))
  {
    var text := PrintedArg(a) + ("," + t);
    ReadsArgument(a, "," + t);
    assert ("," + t)[1..] == t;
    ArgumentsStep(text, a.value, Argument(SkipSpace(text)).value.1, "," + t);
  }

  lemma TwoInFront(x: string, c: string, y: string, t: string)
    ensures (x + c) + t == x + (c + t) && (x + c + y) + t == x + (c + (y + t))
  {
  }

  lemma {:induction false} ReadsArguments(args: ArgList, t: string)
    requires WellFormedArgs(args)
    ensures Arguments(PrintedArgs(args) + t) == Some((Values(args), t))
  {
    match args
    case Close(space) =>
      TwoInFront(space, ")", "", t);
      ReadsClose(space, t);
    case Last(a) =>
      TwoInFront(PrintedArg(a), ")", "", t);
      ReadsLast(a, t);
    case More(a, rest) =>
      TwoInFront(PrintedArg(a), ",", PrintedArgs(rest), t);
      ReadsMore(a, PrintedArgs(rest) + t);
      ReadsArguments(rest, t);
  }

  lemma ReadsEnd(behind: string, semicolon: Option<string>)
    requires AllSpace(behind) && (semicolon.Some? ==> AllSpace(semicolon.value))
    ensures EndsCall(behind + if semicolon.Some? then ";" + semicolon.value else "")
  {
    var end := if semicolon.Some? then ";" + semicolon.value else "";
    SkipsSpace(behind, end);
    if semicolon.Some? {
      SkipsSpace(semicolon.value, "");
      assert end[1..] == semicolon.value == semicolon.value + "";
    }
  }

  lemma ReadsName(name: string, gap: string, open: string)
    requires PlainToken(name, true) && AllSpace(gap) && open != "" && open[0] == '('
    ensures var t := SkipSpace(name + (gap + open));
      t[..TokenLength(t, true)] == name && SkipSpace(t[TokenLength(t, true)..]) == open
  {
    var tail := gap + open;
    SkipsSpace(gap, open);
    if name == "" {
      assert name + tail == tail;
      assert TokenLength(open, true) == 0 && open[0..] == open && open[..0] == "";
    } else {
      assert SkipSpace(name + tail) == name + tail;
      ReadsToken(name, tail, true);
      assert (name + tail)[..|name|] == name && (name + tail)[|name|..] == tail;
    }
  }

  /** The parser undoes the printer: any arguments, any white space, with or without a trailing
      comma and a semicolon. */
  lemma ParsesPrinted(call: Call, name: string)
    requires WellFormed(call) && PlainToken(name, true)
    ensures ParsedCall(Printed(call, name), name) == Values(call.args)
  {
    var end := if call.semicolon.Some? then ";" + call.semicolon.value else "";
    var behind := call.behind + end;
    var open := "(" + (PrintedArgs(call.args) + behind);
    CallText(call.before, name, call.gap, PrintedArgs(call.args), call.behind, end);
    SkipsSpace(call.before, name + (call.gap + open));
    ReadsName(name, call.gap, open);
    ReadsArguments(call.args, behind);
    ReadsEnd(call.behind, call.semicolon);
    assert open[1..] == PrintedArgs(call.args) + behind;
  }

  lemma CallText(before: string, name: string, gap: string, args: string, behind: string, end: string)
    ensures before + name + gap + "(" + args + behind + end
         == before + (name + (gap + ("(" + (args + (behind + end)))))
  {
  }

  // ---------------------------------------------------------------- every accepted text is printed

  lemma {:induction false} SplitSpace(t: string) returns (space: string)
    ensures AllSpace(space) && t == space + SkipSpace(t)
  {
    space := "";
    if t != "" && IsSpace(t[0]) {
      var more := SplitSpace(t[1..]);
      space := [t[0]] + more;
      assert t == [t[0]] + t[1..];
    } else {
      assert "" + t == t;
    }
  }

  lemma {:induction false} TokenIsPlain(t: string, atQuote: bool)
    ensures PlainToken(t[..TokenLength(t, atQuote)], atQuote)
  {
    if t != "" && !EndsToken(t[0], atQuote) {
      TokenIsPlain(t[1..], atQuote);
      var n := TokenLength(t[1..], atQuote);
      assert t[..n + 1] == [t[0]] + t[1..][..n];
    }
  }

  lemma {:induction false} QuotedIsDoubled(t: string)
    requires Quoted(t).Some?
    ensures t == Doubled(Quoted(t).value.0) + "'" + Quoted(t).value.1
  {
    if t[0] != '\'' {
      QuotedIsDoubled(t[1..]);
      PrefixDoubles([t[0]], Quoted(t[1..]).value.0);
    } else if |t| > 1 && t[1] == '\'' {
      QuotedIsDoubled(t[2..]);
      PrefixDoubles("'", Quoted(t[2..]).value.0);
      assert t == "''" + t[2..];
    }
  }

  lemma PrefixDoubles(c: string, value: string)
    requires |c| == 1
    ensures Doubled(c + value) == (if c == "'" then "''" else c) + Doubled(value)
  {
    assert (c + value)[1..] == value;
  }

  lemma BodyIsPrinted(u: string, value: string, rest: string, space: string, behind: string) returns (a: Arg)
    requires u != "" && Argument(u) == Some((value, rest)) && AllSpace(space) && AllSpace(behind)
    ensures WellFormedArg(a) && a.before == space && a.behind == behind && a.value == value
    ensures u == Body(a) + rest
  {
    if u[0] == '\'' {
      QuotedIsDoubled(u[1..]);
      a := QuotedArg(space, value, behind);
      assert u == "'" + u[1..];
    } else {
      TokenIsPlain(u, false);
      a := BareArg(space, value, behind);
    }
  }

  lemma ArgText(space: string, body: string, behind: string, v: string)
    ensures space + (body + (behind + v)) == (space + body + behind) + v
  {
  }

  /** Text that was read as an argument is the print of that argument. */
  lemma ArgumentIsPrinted(u: string, value: string, rest: string, space: string) returns (a: Arg)
    requires u != "" && !IsSpace(u[0]) && Argument(u) == Some((value, rest)) && AllSpace(space)
    ensures WellFormedArg(a) && a.value == value && space + u == PrintedArg(a) + SkipSpace(rest)
    ensures a.BareArg? && a.value == "" ==> SkipSpace(rest) == u
  {
    var behind := SplitSpace(rest);
    a := BodyIsPrinted(u, value, rest, space, behind);
    ArgText(space, Body(a), behind, SkipSpace(rest));
    if a.BareArg? && a.value == "" {
      assert "" + rest == rest;
    }
  }

  /** How a list of arguments begins, once it has parsed. */
  lemma ArgumentsBegin(t: string)
    requires Arguments(t).Some? && SkipSpace(t) != "" && SkipSpace(t)[0] != ')'
    ensures var u := SkipSpace(t);
      && Argument(u).Some?
      && var (value, rest) := Argument(u).value;
         var v := SkipSpace(rest);
         && v != "" && (v[0] == ')' || v[0] == ',')
         && (v[0] == ')' ==> Arguments(t).value == ([value], v[1..]))
         && (v[0] == ',' ==> |v| <= |t| && Arguments(v[1..]).Some? && Arguments(t) == After([value], Arguments(v[1..])))
  {
  }

  lemma ArgumentsEnd(t: string)
    requires Arguments(t).Some?
    ensures SkipSpace(t) != ""
    ensures SkipSpace(t)[0] == ')' ==> Arguments(t).value == ([], SkipSpace(t)[1..])
  {
  }

  lemma CloseText(space: string, u: string)
    requires u != "" && u[0] == ')'
    ensures space + u == (space + ")") + u[1..]
  {
    assert u == ")" + u[1..];
  }

  lemma {:induction false} ArgumentsArePrinted(t: string) returns (args: ArgList)
    requires Arguments(t).Some?
    ensures WellFormedArgs(args) && Values(args) == Arguments(t).value.0
    ensures t == PrintedArgs(args) + Arguments(t).value.1
    decreases |t|
  {
    var u := SkipSpace(t);
    var space := SplitSpace(t);
    ArgumentsEnd(t);
    if u[0] == ')' {
      args := Close(space);
      CloseText(space, u);
    } else {
      ArgumentsBegin(t);
      var (value, rest) := Argument(u).value;
      var v := SkipSpace(rest);
      var a := ArgumentIsPrinted(u, value, rest, space);
      if v[0] == ')' {
        args := Last(a);
        CloseText(PrintedArg(a), v);
      } else {
        var more := ArgumentsArePrinted(v[1..]);
        args := More(a, more);
        MoreText(PrintedArg(a), v, PrintedArgs(more), Arguments(v[1..]).value.1);
      }
    }
  }

  lemma MoreText(first: string, v: string, more: string, rest: string)
    requires v != "" && v[0] == ',' && v[1..] == more + rest
    ensures first + v == (first + "," + more) + rest
  {
    assert v == "," + v[1..];
  }

  lemma EndIsPrinted(t: string) returns (behind: string, semicolon: Option<string>)
    requires EndsCall(t)
    ensures AllSpace(behind) && (semicolon.Some? ==> AllSpace(semicolon.value))
    ensures t == behind + if semicolon.Some? then ";" + semicolon.value else ""
  {
    var u := SkipSpace(t);
    behind := SplitSpace(t);
    semicolon := None;
    if u != "" {
      var tail := SplitSpace(u[1..]);
      semicolon := Some(tail);
      assert u == ";" + tail;
    }
  }

  lemma CallIsPrinted(code: string, name: string) returns (call: Call)
    requires ParsedCall(code, name) != []
    ensures WellFormed(call) && PlainToken(name, true)
    ensures Printed(call, name) == code && Values(call.args) == ParsedCall(code, name)
  {
    var t := SkipSpace(code);
    var n := TokenLength(t, true);
    var u := SkipSpace(t[n..]);
    var before := SplitSpace(code);
    var gap := SplitSpace(t[n..]);
    TokenIsPlain(t, true);
    var args := ArgumentsArePrinted(u[1..]);
    var behind, semicolon := EndIsPrinted(Arguments(u[1..]).value.1);
    call := Call(before, gap, args, behind, semicolon);
    var end := if semicolon.Some? then ";" + semicolon.value else "";
    CallText(before, name, gap, PrintedArgs(args), behind, end);
    WholeCall(code, before, name, t, n, gap, u, PrintedArgs(args) + (behind + end));
  }

  lemma WholeCall(code: string, before: string, name: string, t: string, n: nat, gap: string, u: string, inside: string)
    requires code == before + t && n <= |t| && t[..n] == name && t[n..] == gap + u
    requires u != "" && u[0] == '(' && u[1..] == inside
    ensures code == before + (name + (gap + ("(" + inside)))
  {
    assert u == "(" + u[1..] && t == name + t[n..];
  }

  /** Does the text print a call to `name` with these arguments? */
  ghost predicate IsCall(code: string, name: string, args: seq<string>) {
    exists call :: WellFormed(call) && Values(call.args) == args && Printed(call, name) == code
  }

  /** The parser is exact: a non-empty argument list is read from a text exactly when some
      well-formed call with these arguments prints as that text. */
  lemma ParserIsExact(code: string, name: string, args: seq<string>)
    requires args != [] && PlainToken(name, true)
    ensures ParsedCall(code, name) == args <==> IsCall(code, name, args)
  {
    if ParsedCall(code, name) == args {
      var call := CallIsPrinted(code, name);
    }
    forall call | WellFormed(call) && Values(call.args) == args && Printed(call, name) == code
      ensures ParsedCall(code, name) == args
    {
      ParsesPrinted(call, name);
    }
  }

  /** A text calls one name only. */
  lemma OneName(code: string, name: string, other: string)
    requires ParsedCall(code, name) != [] && ParsedCall(code, other) != []
    ensures name == other
  {
  }
}
