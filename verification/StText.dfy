/**
 * Structure files: the tree, the text it is printed as, the tokens of that
 * text, and the tree those tokens parse to. Trees built in place are in
 * StParse.
 */
module StText {
  import opened Options
  import StringToken

  const MAX_SUBINF: nat := 128
  const MAX_VALUES: nat := 64
  const NAME_LENGTH: nat := 31
  const TYPE_LENGTH: nat := 63

  datatype Val = Str(s: string) | Num(i: int)

  datatype Inf = Attr(name: string, vals: seq<Val>) | Group(name: string, usrType: string, subs: seq<Inf>)

  // ------------------------------------------------------------------ printing

  function Pad(n: nat): string {
    if n == 0 then "" else Pad(n - 1) + " "
  }

  function DigitOf(d: nat): char
    requires d < 10
  {
    ('0' as int + d) as char
  }

  function Digits(n: nat): string {
    if n < 10 then [DigitOf(n)] else Digits(n / 10) + [DigitOf(n % 10)]
  }

  function Decimal(i: int): string {
    if i < 0 then "-" + Digits(-i) else Digits(i)
  }

  function PrintVal(v: Val): string {
    match v
    case Str(s) => "\"" + s + "\""
    case Num(i) => Decimal(i)
  }

  function PrintVals(vs: seq<Val>): string {
    if vs == [] then ""
    else PrintVal(vs[0]) + (if |vs| > 1 then ", " else "\r\n") + PrintVals(vs[1..])
  }

  function PrintInf(t: Inf, level: nat): string
    decreases t, 1
  {
    match t
    case Attr(name, vals) => Pad(level * 4) + name + " = " + PrintVals(vals)
    case Group(name, usrType, subs) => Pad(level * 4) + name + PrintBody(usrType, subs, level)
  }

  /** A group from its type on. */
  function PrintBody(usrType: string, subs: seq<Inf>, level: nat): string
    decreases subs, 1
  {
    " \"" + usrType + "\"\r\n" + Pad(level * 4 + 4) + "{\r\n" + PrintSubs(subs, level + 1) + Pad(level * 4 + 4) + "}\r\n"
  }

  function PrintSubs(ts: seq<Inf>, level: nat): string
    decreases ts, 0
  {
    if ts == [] then "" else PrintInf(ts[0], level) + PrintSubs(ts[1..], level)
  }

  /** A whole file. */
  function Print(t: Inf): string
    requires t.Group?
  {
    t.name + PrintBody(t.usrType, t.subs, 0)
  }

  // ------------------------------------------------------------------ tokens

  datatype Tok =
    | Keyword(k: string)
    | String(s: string)
    | Integer(i: int)
    | OpenBrace
    | CloseBrace
    | DblOpenBrace
    | DblCloseBrace
    | Equals
    | Comma
    | Other
    | End

  predicate IsSpace(c: char) {
    c == ' ' || c == '\t' || c == '\r' || c == '\n'
  }

  predicate IsLetter(c: char) {
    'A' <= c <= 'Z' || 'a' <= c <= 'z' || c == '_'
  }

  predicate IsDigit(c: char) {
    '0' <= c <= '9'
  }

  predicate IsKeyChar(c: char) {
    IsLetter(c) || IsDigit(c) || c == '.'
  }

  predicate IsNumChar(c: char) {
    IsDigit(c) || 'a' <= c <= 'f' || 'A' <= c <= 'F' || c == 'x' || c == '.'
  }

  function SkipSpace(s: string): (r: string)
    ensures |r| <= |s|
  {
    if s != "" && IsSpace(s[0]) then SkipSpace(s[1..]) else s
  }

  /** The longest run of keyword characters. */
  function KeyRun(s: string): (r: string)
    ensures |r| <= |s|
  {
    if s != "" && IsKeyChar(s[0]) then [s[0]] + KeyRun(s[1..]) else ""
  }

  function NumRun(s: string): (r: string)
    ensures |r| <= |s|
  {
    if s != "" && IsNumChar(s[0]) then [s[0]] + NumRun(s[1..]) else ""
  }

  predicate AllDigits(s: string) {
    forall i :: 0 <= i < |s| ==> IsDigit(s[i])
  }

  function DigitsValue(s: string): nat
    requires AllDigits(s)
  {
    if s == "" then 0 else DigitsValue(s[..|s| - 1]) * 10 + (s[|s| - 1] as int - '0' as int)
  }

  /** Plain decimal numbers; any other number text is not modelled. */
  function NumberTok(neg: bool, text: string): Tok {
    if text != "" && AllDigits(text) && (text[0] != '0' || |text| == 1) then
      var n: int := DigitsValue(text);
      var v := if neg then -n else n;
      if -0x8000_0000 <= v <= 0x7FFF_FFFF then Integer(v) else Other
    else Other
  }

  /** The token at the start of the text, spaces skipped, and the text after it. */
  function Lex(input: string): (r: (Tok, string))
    ensures r.0 != End && r.0 != Other ==> |r.1| < |input|
  {
    var s := SkipSpace(input);
    if s == "" then (End, "")
    else
      var c, rest := s[0], s[1..];
      if c == '"' || c == '\'' then
        var r := StringToken.TakeString(rest, c, |rest|);
        (String(r.text), r.rest)
      else if c == '{' then
        if rest != "" && rest[0] == '{' then (DblOpenBrace, rest[1..]) else (OpenBrace, rest)
      else if c == '}' then
        if rest != "" && rest[0] == '}' then (DblCloseBrace, rest[1..]) else (CloseBrace, rest)
      else if c == ',' then (Comma, rest)
      else if c == '=' && (rest == "" || rest[0] != '=') then (Equals, rest)
      else if c == '-' && rest != "" && IsDigit(rest[0]) then
        var n := NumRun(rest);
        (NumberTok(true, n), rest[|n|..])
      else if IsDigit(c) then
        var n := NumRun(s);
        (NumberTok(false, n), s[|n|..])
      else if IsLetter(c) then
        var k := KeyRun(s);
        (Keyword(k), s[|k|..])
      else (Other, rest)
  }

  function Tokens(input: string): seq<Tok>
    decreases |input|
  {
    var (t, rest) := Lex(input);
    if t.End? || t.Other? then [t] else [t] + Tokens(rest)
  }

  // ------------------------------------------------------------------ parsing

  function Cut(s: string, n: nat): (r: string)
    ensures |s| <= n ==> r == s
  {
    if |s| <= n then s else s[..n]
  }

  /** A parse, and the tokens after it. */
  datatype Parsed<T> = Parsed(v: T, rest: seq<Tok>) | Failed

  predicate IsValTok(t: Tok) {
    t.Integer? || t.String? || t.Keyword?
  }

  function ValOf(t: Tok): Val
    requires IsValTok(t)
  {
    match t
    case Integer(i) => Num(i)
    case String(s) => Str(s)
    case Keyword(k) => Str(k)
  }

  /** Values separated by commas, after n of them. */
  function ParseVals(ts: seq<Tok>, n: nat): (r: Parsed<seq<Val>>)
    ensures r.Parsed? ==> |r.rest| < |ts|
    decreases |ts|
  {
    if ts == [] || !IsValTok(ts[0]) || n >= MAX_VALUES then Failed
    else if |ts| > 1 && ts[1] == Comma then
      var r := ParseVals(ts[2..], n + 1);
      if r.Failed? then Failed else Parsed([ValOf(ts[0])] + r.v, r.rest)
    else Parsed([ValOf(ts[0])], ts[1..])
  }

  /** One attribute or group, after its name. */
  function ParseItem(name: string, ts: seq<Tok>): (r: Parsed<Inf>)
    ensures r.Parsed? ==> |r.rest| < |ts|
    decreases |ts|, 0
  {
    var usrType := if ts != [] && ts[0].String? then Cut(ts[0].s, TYPE_LENGTH) else "";
    var us := if ts != [] && ts[0].String? then ts[1..] else ts;
    if us == [] then Failed
    else if us[0] == Equals && usrType == "" then
      var r := ParseVals(us[1..], 0);
      if r.Failed? then Failed else Parsed(Attr(name, r.v), r.rest)
    else if us[0] == OpenBrace && usrType != "" then
      var r := ParseSubs(us[1..], 0);
      if r.Failed? then Failed else Parsed(Group(name, usrType, r.v), r.rest)
    else Failed
  }

  /** Attributes and groups up to the closing brace, after n of them. */
  function ParseSubs(ts: seq<Tok>, n: nat): (r: Parsed<seq<Inf>>)
    ensures r.Parsed? ==> |r.rest| < |ts|
    decreases |ts|, 1
  {
    if ts == [] then Failed
    else if ts[0] == CloseBrace then Parsed([], ts[1..])
    else if !ts[0].Keyword? || n >= MAX_SUBINF then Failed
    else
      var x := ParseItem(Cut(ts[0].k, NAME_LENGTH), ts[1..]);
      if x.Failed? then Failed
      else
        var r := ParseSubs(x.rest, n + 1);
        if r.Failed? then Failed else Parsed([x.v] + r.v, r.rest)
  }

  /** What reading a file comes to: a tree, none, or contents read by code that is not modelled, a form or a script. */
  datatype Outcome = Read(t: Inf) | Refused | Elsewhere

  /** What is left of a file that starts with BEGIN when the reader of forms gives up at its first token. */
  const HALF_READ: Inf := Group("BEGIN", "", [])

  /**
   * A whole file. One that starts with BEGIN goes to the reader of forms, which
   * wants a name next; when it gives up its error is dropped, and the caller
   * gets the group as far as it was filled in.
   */
  function ParseStruct(ts: seq<Tok>): Outcome {
    if |ts| < 2 || !ts[0].Keyword? then Refused
    else
      var name := Cut(ts[0].k, NAME_LENGTH);
      if name == "BEGIN" then if ts[1].Keyword? || ts[1].Other? then Elsewhere else Read(HALF_READ)
      else if |ts| < 3 || !ts[1].String? then Refused
      else
        var usrType := Cut(ts[1].s, TYPE_LENGTH);
        if ts[2] == DblOpenBrace && usrType == "system/script" then Elsewhere
        else if ts[2] != OpenBrace then Refused
        else
          var r := ParseSubs(ts[3..], 0);
          if r.Failed? then Refused else Read(Group(name, usrType, r.v))
  }

  function Parse(text: string): Outcome {
    ParseStruct(Tokens(text))
  }

  // ------------------------------------------------------------------ what can be printed

  predicate IsWord(s: string) {
    s != "" && IsLetter(s[0]) && forall i :: 0 <= i < |s| ==> IsKeyChar(s[i])
  }

  /** No double quote, no backslash, no NUL. */
  predicate Clean(s: string) {
    forall i :: 0 <= i < |s| ==> s[i] != '"' && s[i] != '\\' && s[i] != '\0'
  }

  predicate PrintableVal(v: Val) {
    match v
    case Str(s) => Clean(s)
    case Num(i) => -0x8000_0000 <= i <= 0x7FFF_FFFF
  }

  predicate PrintableVals(vs: seq<Val>) {
    forall i :: 0 <= i < |vs| ==> PrintableVal(vs[i])
  }

  /** A tree whose names are words, whose strings need no escape, and whose integers have 32 bits. */
  predicate Writable(t: Inf)
    decreases t, 1
  {
    match t
    case Attr(name, vals) => IsWord(name) && PrintableVals(vals)
    case Group(name, usrType, subs) => IsWord(name) && Clean(usrType) && WritableAll(subs)
  }

  predicate WritableAll(ts: seq<Inf>)
    decreases ts, 0
  {
    ts != [] ==> Writable(ts[0]) && WritableAll(ts[1..])
  }

  /** The sizes of what a file can hold; a reader tells a group from an attribute by its type, which is not empty. */
  predicate Fits(t: Inf)
    decreases t, 1
  {
    match t
    case Attr(name, vals) => |name| <= 31 && 1 <= |vals| <= 64
    case Group(name, usrType, subs) => |name| <= 31 && 1 <= |usrType| <= 63 && |subs| <= 128 && FitsAll(subs)
  }

  predicate FitsAll(ts: seq<Inf>)
    decreases ts, 0
  {
    ts != [] ==> Fits(ts[0]) && FitsAll(ts[1..])
  }

  /** The top group alone may do without a type; one called BEGIN would be taken for a form. */
  predicate FitsOnTop(t: Inf) {
    t.Group? && |t.name| <= 31 && t.name != "BEGIN" && |t.usrType| <= 63 && |t.subs| <= 128 && FitsAll(t.subs)
  }

  // ------------------------------------------------------------------ the tokens of a tree

  function TokOf(v: Val): Tok {
    match v
    case Str(s) => String(s)
    case Num(i) => Integer(i)
  }

  function ValToks(vs: seq<Val>): seq<Tok> {
    if vs == [] then [] else [TokOf(vs[0])] + (if |vs| > 1 then [Comma] else []) + ValToks(vs[1..])
  }

  function InfToks(t: Inf): seq<Tok>
    decreases t, 2
  {
    [Keyword(t.name)] + ItemToks(t)
  }

  /** What follows the name. */
  function ItemToks(t: Inf): seq<Tok>
    decreases t, 1
  {
    match t
    case Attr(_, vals) => [Equals] + ValToks(vals)
    case Group(_, usrType, subs) => [String(usrType), OpenBrace] + (SubToks(subs) + [CloseBrace])
  }

  function SubToks(ts: seq<Inf>): seq<Tok>
    decreases ts, 0
  {
    if ts == [] then [] else InfToks(ts[0]) + SubToks(ts[1..])
  }

  // ------------------------------------------------------------------ tokens parse to the tree

  /** The first token of what follows a value list is not a comma. */
  predicate NoComma(rest: seq<Tok>) {
    rest == [] || rest[0] != Comma
  }

  lemma ValToksStart(vs: seq<Val>)
    requires vs != []
    ensures |vs| == 1 ==> ValToks(vs) == [TokOf(vs[0])]
    ensures |vs| > 1 ==> ValToks(vs) == [TokOf(vs[0]), Comma] + ValToks(vs[1..])
  {
    if |vs| == 1 {
      assert ValToks(vs[1..]) == [];
    } else {
      assert [TokOf(vs[0])] + [Comma] == [TokOf(vs[0]), Comma];
    }
  }

  lemma {:induction false} ParseValsOf(vs: seq<Val>, rest: seq<Tok>, n: nat)
    requires vs != [] && NoComma(rest) && n + |vs| <= MAX_VALUES
    ensures ParseVals(ValToks(vs) + rest, n) == Parsed(vs, rest)
    decreases vs
  {
    hide ValToks;
    ValToksStart(vs);
    if |vs| == 1 {
      SplitOne(TokOf(vs[0]), [], rest);
      assert [TokOf(vs[0])] + [] == [TokOf(vs[0])] && [] + rest == rest && vs == [vs[0]];
    } else {
      ParseValsOf(vs[1..], rest, n + 1);
      SplitTwo(TokOf(vs[0]), Comma, ValToks(vs[1..]), rest);
      assert [vs[0]] + vs[1..] == vs;
    }
  }

  lemma SplitTwo(x: Tok, y: Tok, a: seq<Tok>, b: seq<Tok>)
    ensures var ts := ([x, y] + a) + b;
            |ts| >= 2 && ts[0] == x && ts[1] == y && ts[1..] == [y] + (a + b) && ts[2..] == a + b && ts[1..][1..] == a + b
  {
  }

  lemma SplitOne(x: Tok, a: seq<Tok>, b: seq<Tok>)
    ensures var ts := ([x] + a) + b;
            |ts| >= 1 && ts[0] == x && ts[1..] == a + b && ts == [x] + (a + b)
  {
  }

  lemma Assoc(a: seq<Tok>, b: seq<Tok>, c: seq<Tok>)
    ensures (a + b) + c == a + (b + c)
  {
  }

  lemma {:induction false} ParseItemOf(t: Inf, rest: seq<Tok>)
    requires Fits(t) && NoComma(rest)
    ensures ParseItem(t.name, ItemToks(t) + rest) == Parsed(t, rest)
    decreases t, 1
  {
    hide ParseVals, ParseSubs;
    if t.Attr? {
      ParseValsOf(t.vals, rest, 0);
      SplitOne(Equals, ValToks(t.vals), rest);
    } else {
      ParseSubsOf(t.subs, rest, 0);
      SplitTwo(String(t.usrType), OpenBrace, SubToks(t.subs) + [CloseBrace], rest);
      Assoc(SubToks(t.subs), [CloseBrace], rest);
    }
  }

  lemma {:induction false} ParseSubsOf(ts: seq<Inf>, rest: seq<Tok>, n: nat)
    requires FitsAll(ts) && n + |ts| <= 128
    ensures ParseSubs(SubToks(ts) + ([CloseBrace] + rest), n) == Parsed(ts, rest)
    decreases ts, 0
  {
    hide ParseItem, ItemToks;
    var close := [CloseBrace] + rest;
    if ts == [] {
      assert SubToks(ts) + close == close;
      assert close[1..] == rest;
    } else {
      var more := SubToks(ts[1..]) + close;
      SubsStart(ts[1..], close);
      ParseItemOf(ts[0], more);
      ParseSubsOf(ts[1..], rest, n + 1);
      Assoc(InfToks(ts[0]), SubToks(ts[1..]), close);
      SplitOne(Keyword(ts[0].name), ItemToks(ts[0]), more);
      assert [ts[0]] + ts[1..] == ts;
    }
  }

  lemma SubsStart(ts: seq<Inf>, rest: seq<Tok>)
    requires rest != [] && rest[0] == CloseBrace
    ensures NoComma(SubToks(ts) + rest)
  {
    if ts != [] {
      assert InfToks(ts[0])[0] == Keyword(ts[0].name);
    }
  }

  /** The tokens of a tree that fits parse to it, whatever follows. */
  lemma ParseStructOf(t: Inf, rest: seq<Tok>)
    requires FitsOnTop(t)
    ensures ParseStruct(InfToks(t) + rest) == Read(t)
  {
    hide ParseSubs;
    ParseSubsOf(t.subs, rest, 0);
    var body := SubToks(t.subs) + [CloseBrace];
    SplitOne(Keyword(t.name), ItemToks(t), rest);
    SplitTwo(String(t.usrType), OpenBrace, body, rest);
    Assoc(SubToks(t.subs), [CloseBrace], rest);
    var ts := InfToks(t) + rest;
    assert ts[3..] == ts[1..][2..];
  }

  // ------------------------------------------------------------------ the text's tokens are the tree's

  lemma {:induction false} PadSkipped(n: nat, rest: string)
    ensures SkipSpace(Pad(n) + rest) == SkipSpace(rest)
  {
    if n == 0 {
      assert Pad(0) + rest == rest;
    } else {
      PadSkipped(n - 1, " " + rest);
      assert Pad(n) + rest == Pad(n - 1) + (" " + rest);
      assert (" " + rest)[1..] == rest;
    }
  }

  /** Tokens depend only on what follows the spaces. */
  lemma SameTokens(a: string, b: string)
    requires SkipSpace(a) == SkipSpace(b)
    ensures Tokens(a) == Tokens(b)
  {
  }

  lemma PadTokens(n: nat, rest: string)
    ensures Tokens(Pad(n) + rest) == Tokens(rest)
  {
    PadSkipped(n, rest);
    SameTokens(Pad(n) + rest, rest);
  }

  lemma SpaceTokens(c: char, rest: string)
    requires IsSpace(c)
    ensures Tokens([c] + rest) == Tokens(rest)
  {
    assert ([c] + rest)[1..] == rest;
    SameTokens([c] + rest, rest);
  }

  lemma LineEndTokens(rest: string)
    ensures Tokens("\r\n" + rest) == Tokens(rest)
  {
    SpaceTokens('\n', rest);
    SpaceTokens('\r', "\n" + rest);
    assert "\r\n" + rest == ['\r'] + ("\n" + rest);
  }

  /** What stops a run of keyword characters. */
  predicate KeyStops(rest: string) {
    rest != "" && !IsKeyChar(rest[0])
  }

  lemma {:induction false} KeyRunOf(name: string, rest: string)
    requires KeyStops(rest) && forall i :: 0 <= i < |name| ==> IsKeyChar(name[i])
    ensures KeyRun(name + rest) == name
  {
    if name == "" {
      assert name + rest == rest;
    } else {
      assert (name + rest)[1..] == name[1..] + rest;
      KeyRunOf(name[1..], rest);
    }
  }

  lemma NameTokens(name: string, rest: string)
    requires IsWord(name) && KeyStops(rest)
    ensures Tokens(name + rest) == [Keyword(name)] + Tokens(rest)
  {
    var s := name + rest;
    assert s[0] == name[0] && SkipSpace(s) == s;
    KeyRunOf(name, rest);
    assert s[|name|..] == rest;
  }

  lemma {:induction false} CleanCopied(s: string, rest: string, room: nat)
    requires Clean(s) && |s| <= room
    ensures StringToken.CopyString(s + ("\"" + rest), '"', room) == StringToken.Copied(s, "\"" + rest, true)
  {
    var tail := "\"" + rest;
    if s == "" {
      assert s + tail == tail;
    } else {
      assert (s + tail)[1..] == s[1..] + tail && (s + tail)[0] == s[0];
      CleanCopied(s[1..], rest, room - 1);
      assert [s[0]] + s[1..] == s;
    }
  }

  lemma StringTokens(s: string, rest: string)
    requires Clean(s)
    ensures Tokens("\"" + s + "\"" + rest) == [String(s)] + Tokens(rest)
  {
    var input := "\"" + s + "\"" + rest;
    var tail := s + ("\"" + rest);
    assert input == ['"'] + tail;
    assert SkipSpace(input) == input && input[1..] == tail;
    CleanCopied(s, rest, |tail|);
    assert ("\"" + rest)[1..] == rest;
    assert StringToken.TakeString(tail, '"', |tail|) == StringToken.Copied(s, rest, true);
  }

  lemma {:induction false} DigitsAre(n: nat)
    ensures AllDigits(Digits(n)) && Digits(n) != "" && DigitsValue(Digits(n)) == n
    ensures Digits(n)[0] == '0' ==> n == 0
  {
    if n >= 10 {
      DigitsAre(n / 10);
      var d := Digits(n / 10);
      assert (d + [DigitOf(n % 10)])[..|d|] == d;
    } else {
      assert Digits(n)[..0] == "";
    }
  }

  predicate NumStops(rest: string) {
    rest != "" && !IsNumChar(rest[0])
  }

  lemma {:induction false} NumRunOf(d: string, rest: string)
    requires NumStops(rest) && AllDigits(d)
    ensures NumRun(d + rest) == d
  {
    if d == "" {
      assert d + rest == rest;
    } else {
      assert (d + rest)[1..] == d[1..] + rest;
      NumRunOf(d[1..], rest);
    }
  }

  lemma NumberToks(i: int)
    requires -0x8000_0000 <= i <= 0x7FFF_FFFF
    ensures NumberTok(i < 0, Digits(if i < 0 then -i else i)) == Integer(i)
  {
    DigitsAre(if i < 0 then -i else i);
  }

  lemma DigitsLex(d: string, rest: string)
    requires AllDigits(d) && d != "" && NumStops(rest)
    ensures Lex(d + rest) == (NumberTok(false, d), rest)
    ensures Lex(['-'] + (d + rest)) == (NumberTok(true, d), rest)
  {
    hide NumberTok, AllDigits;
    var s := d + rest;
    assert s[0] == d[0] && IsDigit(d[0]) by {
      FirstDigit(d);
    }
    NumRunOf(d, rest);
    assert s[|d|..] == rest;
    assert (['-'] + s)[1..] == s;
  }

  lemma FirstDigit(d: string)
    requires AllDigits(d) && d != ""
    ensures IsDigit(d[0])
  {
  }

  lemma DecimalTokens(i: int, rest: string)
    requires -0x8000_0000 <= i <= 0x7FFF_FFFF && NumStops(rest)
    ensures Tokens(Decimal(i) + rest) == [Integer(i)] + Tokens(rest)
  {
    hide NumberTok, Digits, Lex, AllDigits, NumStops;
    var d := Digits(if i < 0 then -i else i);
    NumberToks(i);
    DigitsAre(if i < 0 then -i else i);
    DigitsLex(d, rest);
    assert ("-" + d) + rest == ['-'] + (d + rest);
  }

  /** Single-character tokens. */
  lemma MarkTokens(c: char, rest: string)
    requires rest != "" && rest[0] != c
    ensures c == '{' ==> Tokens([c] + rest) == [OpenBrace] + Tokens(rest)
    ensures c == '}' ==> Tokens([c] + rest) == [CloseBrace] + Tokens(rest)
    ensures c == '=' ==> Tokens([c] + rest) == [Equals] + Tokens(rest)
    ensures c == ',' ==> Tokens([c] + rest) == [Comma] + Tokens(rest)
  {
    var s := [c] + rest;
    assert s[0] == c && s[1..] == rest;
  }

  // ------------------------------------------------------------------ the whole text

  lemma ValTokens(v: Val, rest: string)
    requires PrintableVal(v) && NumStops(rest)
    ensures Tokens(PrintVal(v) + rest) == [TokOf(v)] + Tokens(rest)
  {
    hide Tokens;
    match v
    case Str(s) =>
      StringTokens(s, rest);
      assert PrintVal(v) + rest == "\"" + s + "\"" + rest;
    case Num(i) => DecimalTokens(i, rest);
  }

  lemma Glue(a: string, b: string, c: string)
    ensures (a + b) + c == a + (b + c)
  {
  }

  lemma ThreePieces(a: string, b: string, c: string, d: string)
    ensures (a + b + c) + d == a + (b + (c + d))
  {
  }

  lemma ThreeToks(a: seq<Tok>, b: seq<Tok>, c: seq<Tok>, d: seq<Tok>)
    ensures (a + b + c) + d == a + (b + (c + d))
  {
  }

  lemma {:induction false} ValsTokens(vs: seq<Val>, rest: string)
    requires PrintableVals(vs)
    ensures Tokens(PrintVals(vs) + rest) == ValToks(vs) + Tokens(rest)
    decreases vs
  {
    hide Tokens, PrintVal;
    if vs == [] {
      assert PrintVals(vs) + rest == rest;
      assert ValToks(vs) + Tokens(rest) == Tokens(rest);
    } else {
      var more := PrintVals(vs[1..]) + rest;
      ValsTokens(vs[1..], rest);
      if |vs| > 1 {
        SpaceTokens(' ', more);
        var sp := [' '] + more;
        MarkTokens(',', sp);
        ValTokens(vs[0], [','] + sp);
        ThreePieces(PrintVal(vs[0]), ", ", PrintVals(vs[1..]), rest);
        assert ", " + more == [','] + sp;
        ThreeToks([TokOf(vs[0])], [Comma], ValToks(vs[1..]), Tokens(rest));
      } else {
        LineEndTokens(more);
        ValTokens(vs[0], "\r\n" + more);
        ThreePieces(PrintVal(vs[0]), "\r\n", PrintVals(vs[1..]), rest);
        ThreeToks([TokOf(vs[0])], [], ValToks(vs[1..]), Tokens(rest));
        assert [] + (ValToks(vs[1..]) + Tokens(rest)) == ValToks(vs[1..]) + Tokens(rest);
      }
    }
  }

  /** The equals sign and the values of an attribute. */
  lemma AttrTokens(vals: seq<Val>, rest: string)
    requires PrintableVals(vals)
    ensures Tokens(" = " + (PrintVals(vals) + rest)) == ([Equals] + ValToks(vals)) + Tokens(rest)
  {
    hide Tokens, PrintVals, ValToks;
    var more := PrintVals(vals) + rest;
    ValsTokens(vals, rest);
    SpaceTokens(' ', more);
    var sp := [' '] + more;
    MarkTokens('=', sp);
    SpaceTokens(' ', ['='] + sp);
    assert " = " + more == [' '] + (['='] + sp);
    Assoc([Equals], ValToks(vals), Tokens(rest));
  }

  lemma BraceTokens(c: char, rest: string)
    requires c == '{' || c == '}'
    ensures Tokens([c] + ("\r\n" + rest)) == [if c == '{' then OpenBrace else CloseBrace] + Tokens(rest)
  {
    hide Tokens;
    LineEndTokens(rest);
    MarkTokens(c, "\r\n" + rest);
  }

  lemma {:induction false} InfTokens(t: Inf, level: nat, rest: string)
    requires Writable(t)
    ensures Tokens(PrintInf(t, level) + rest) == InfToks(t) + Tokens(rest)
    decreases t, 2
  {
    hide Tokens, Pad, PrintVals, ValToks, PrintBody, SubToks, IsWord;
    match t
    case Attr(name, vals) =>
      var more := " = " + (PrintVals(vals) + rest);
      AttrTokens(vals, rest);
      NameTokens(name, more);
      PadTokens(level * 4, name + more);
      assert PrintInf(t, level) + rest == Pad(level * 4) + (name + more);
      Assoc([Keyword(name)], ItemToks(t), Tokens(rest));
    case Group(name, usrType, subs) =>
      BodyTokens(t, level, rest);
      BodyStops(usrType, subs, level, rest);
      NameTokens(name, PrintBody(usrType, subs, level) + rest);
      PadTokens(level * 4, name + (PrintBody(usrType, subs, level) + rest));
      assert PrintInf(t, level) + rest == Pad(level * 4) + (name + (PrintBody(usrType, subs, level) + rest));
      Assoc([Keyword(name)], ItemToks(t), Tokens(rest));
  }

  lemma BodyStops(usrType: string, subs: seq<Inf>, level: nat, rest: string)
    ensures KeyStops(PrintBody(usrType, subs, level) + rest)
  {
    assert PrintBody(usrType, subs, level)[0] == ' ';
  }

  /** A group from its type on, as a chain of pieces. */
  lemma BodyPieces(usrType: string, subs: seq<Inf>, level: nat, rest: string)
    ensures PrintBody(usrType, subs, level) + rest ==
            var pad := Pad(level * 4 + 4);
            var close := pad + (['}'] + ("\r\n" + rest));
            var open := pad + (['{'] + ("\r\n" + (PrintSubs(subs, level + 1) + close)));
            [' '] + ("\"" + usrType + "\"" + ("\r\n" + open))
  {
    hide Pad, PrintSubs;
    var pad, subsText := Pad(level * 4 + 4), PrintSubs(subs, level + 1);
    var tail := subsText + pad + "}\r\n" + rest;
    assert tail == subsText + (pad + (['}'] + ("\r\n" + rest)));
    assert PrintBody(usrType, subs, level) + rest == " \"" + usrType + "\"\r\n" + pad + "{\r\n" + tail;
    assert pad + "{\r\n" + tail == pad + (['{'] + ("\r\n" + tail));
  }

  lemma {:induction false} BodyTokens(t: Inf, level: nat, rest: string)
    requires t.Group? && Writable(t)
    ensures Tokens(PrintBody(t.usrType, t.subs, level) + rest) == ItemToks(t) + Tokens(rest)
    decreases t, 1
  {
    hide Tokens, Pad, PrintSubs, PrintBody, SubToks;
    var pad := Pad(level * 4 + 4);
    var brace := ['}'] + ("\r\n" + rest);
    BraceTokens('}', rest);
    PadTokens(level * 4 + 4, brace);
    SubsTokens(t.subs, level + 1, pad + brace);
    var inner := PrintSubs(t.subs, level + 1) + (pad + brace);
    BraceTokens('{', inner);
    var open := ['{'] + ("\r\n" + inner);
    PadTokens(level * 4 + 4, open);
    LineEndTokens(pad + open);
    StringTokens(t.usrType, "\r\n" + (pad + open));
    SpaceTokens(' ', "\"" + t.usrType + "\"" + ("\r\n" + (pad + open)));
    BodyPieces(t.usrType, t.subs, level, rest);
    assert ItemToks(t) + Tokens(rest) ==
           [String(t.usrType)] + ([OpenBrace] + (SubToks(t.subs) + ([CloseBrace] + Tokens(rest))));
  }

  lemma {:induction false} SubsTokens(ts: seq<Inf>, level: nat, rest: string)
    requires WritableAll(ts)
    ensures Tokens(PrintSubs(ts, level) + rest) == SubToks(ts) + Tokens(rest)
    decreases ts, 0
  {
    hide Tokens, PrintInf, InfToks;
    if ts == [] {
      assert PrintSubs(ts, level) + rest == rest;
      assert SubToks(ts) + Tokens(rest) == Tokens(rest);
    } else {
      InfTokens(ts[0], level, PrintSubs(ts[1..], level) + rest);
      SubsTokens(ts[1..], level, rest);
      Glue(PrintInf(ts[0], level), PrintSubs(ts[1..], level), rest);
      Assoc(InfToks(ts[0]), SubToks(ts[1..]), Tokens(rest));
    }
  }

  lemma FileTokens(t: Inf)
    requires t.Group? && Writable(t)
    ensures Tokens(Print(t)) == InfToks(t) + [End]
  {
    hide PrintBody, ItemToks, IsWord;
    var body := PrintBody(t.usrType, t.subs, 0);
    BodyTokens(t, 0, "");
    BodyStops(t.usrType, t.subs, 0, "");
    NameTokens(t.name, body + "");
    assert body + "" == body;
    assert Tokens("") == [End];
    Assoc([Keyword(t.name)], ItemToks(t), [End]);
  }

  /** A word without quotes reads as a string. */
  lemma WordIsValue(name: string, word: string, rest: string)
    requires IsWord(word) && NoComma(Tokens(rest))
    ensures ParseItem(name, Tokens(" = " + (word + ("\r\n" + rest)))) == Parsed(Attr(name, [Str(word)]), Tokens(rest))
  {
    hide Tokens, IsWord;
    var line := word + ("\r\n" + rest);
    LineEndTokens(rest);
    NameTokens(word, "\r\n" + rest);
    SpaceTokens(' ', line);
    var sp := [' '] + line;
    MarkTokens('=', sp);
    SpaceTokens(' ', ['='] + sp);
    assert " = " + line == [' '] + (['='] + sp);
    var ts := [Keyword(word)] + Tokens(rest);
    assert ([Equals] + ts)[1..] == ts && ts[1..] == Tokens(rest);
  }

  // ------------------------------------------------------------------ what a reader accepts

  lemma {:induction false} ValsFit(ts: seq<Tok>, n: nat)
    requires ParseVals(ts, n).Parsed?
    ensures 1 <= |ParseVals(ts, n).v| <= 64 - n
    decreases |ts|
  {
    if |ts| > 1 && ts[1] == Comma {
      ValsFit(ts[2..], n + 1);
    }
  }

  lemma {:induction false} ItemFits(name: string, ts: seq<Tok>)
    requires ParseItem(name, ts).Parsed? && |name| <= 31
    ensures Fits(ParseItem(name, ts).v)
    decreases |ts|, 0
  {
    var us := if ts[0].String? then ts[1..] else ts;
    if us[0] == Equals {
      ValsFit(us[1..], 0);
    } else {
      SubsFit(us[1..], 0);
    }
  }

  lemma {:induction false} SubsFit(ts: seq<Tok>, n: nat)
    requires ParseSubs(ts, n).Parsed? && n <= 128
    ensures |ParseSubs(ts, n).v| <= 128 - n && FitsAll(ParseSubs(ts, n).v)
    decreases |ts|, 1
  {
    if ts[0] != CloseBrace {
      var name := Cut(ts[0].k, NAME_LENGTH);
      ItemFits(name, ts[1..]);
      SubsFit(ParseItem(name, ts[1..]).rest, n + 1);
    }
  }

  /** Whatever is read fits, but for the group that is left of a form. */
  lemma ReadFits(ts: seq<Tok>)
    requires ParseStruct(ts).Read?
    ensures ParseStruct(ts).t == HALF_READ || FitsOnTop(ParseStruct(ts).t)
  {
    if Cut(ts[0].k, NAME_LENGTH) != "BEGIN" {
      SubsFit(ts[3..], 0);
    }
  }

  /**
   * What a writable tree is printed as parses to that tree if and only if it
   * fits the reader's limits and its top group is not called BEGIN, or is what
   * comes back then, an empty group of that name.
   */
  lemma PrintParses(t: Inf)
    requires t.Group? && Writable(t)
    ensures Parse(Print(t)) == Read(t) <==> FitsOnTop(t) || t == Group("BEGIN", "", [])
    ensures t.name == "BEGIN" ==> Parse(Print(t)) == Read(Group("BEGIN", "", []))
  {
    hide Print, InfToks, ParseStruct, Writable;
    FileTokens(t);
    if t.name == "BEGIN" {
      BeginIsHalfRead(t, [End]);
    } else if FitsOnTop(t) {
      ParseStructOf(t, [End]);
    } else if Parse(Print(t)).Read? {
      ReadFits(Tokens(Print(t)));
    }
  }

  lemma BeginIsHalfRead(t: Inf, rest: seq<Tok>)
    requires t.Group? && t.name == "BEGIN"
    ensures ParseStruct(InfToks(t) + rest) == Read(HALF_READ)
  {
    hide ParseSubs;
    SplitOne(Keyword(t.name), ItemToks(t), rest);
    SplitTwo(String(t.usrType), OpenBrace, SubToks(t.subs) + [CloseBrace], rest);
  }
}
