/**
 * Structure trees as they are built: the parser adds items to their parents
 * and fills them in, the printer walks the tree and appends to a buffer.
 */
module StParse {
  import opened Options
  import opened StText

  datatype Kind = Struct | Attrib | Subgroup

  class StructInf {
    var kind: Kind
    var name: string
    var usrType: string
    var vals: seq<Val>
    var subInf: seq<StructInf>
    var parent: StructInf?

    constructor (kind: Kind)
      ensures this.kind == kind && name == "" && usrType == "" && vals == [] && subInf == [] && parent == null
    {
      this.kind := kind;
      name := "";
      usrType := "";
      vals := [];
      subInf := [];
      parent := null;
    }
  }

  /** A tree with the object that holds each part of it. */
  datatype Shape = Shape(inf: StructInf, subs: seq<Shape>)

  ghost function Nodes(s: Shape): (ns: set<StructInf>)
    ensures s.inf in ns
    decreases s, 1
  {
    {s.inf} + NodesOf(s.subs)
  }

  ghost function NodesOf(ss: seq<Shape>): set<StructInf>
    decreases ss, 0
  {
    if ss == [] then {} else NodesOf(ss[..|ss| - 1]) + Nodes(ss[|ss| - 1])
  }

  ghost function Infs(ss: seq<Shape>): (r: seq<StructInf>)
    ensures |r| == |ss|
  {
    if ss == [] then [] else Infs(ss[..|ss| - 1]) + [ss[|ss| - 1].inf]
  }

  /** The objects hold the tree: items in order, and none in two places. */
  ghost predicate Rep(s: Shape)
    reads Nodes(s)`kind, Nodes(s)`subInf, Nodes(s)`parent
    decreases s, 1
  {
    && s.inf !in NodesOf(s.subs)
    && s.inf.subInf == Infs(s.subs)
    && (s.inf.kind.Attrib? ==> s.subs == [])
    && RepOf(s.subs, s.inf)
  }

  ghost predicate RepOf(ss: seq<Shape>, parent: StructInf)
    reads NodesOf(ss)`kind, NodesOf(ss)`subInf, NodesOf(ss)`parent
    decreases ss, 0
  {
    ss != [] ==>
      var n := |ss| - 1;
      && RepOf(ss[..n], parent)
      && Rep(ss[n])
      && ss[n].inf.parent == parent
      && !ss[n].inf.kind.Struct?
      && NodesOf(ss[..n]) !! Nodes(ss[n])
  }

  ghost function ToInf(s: Shape): Inf
    reads Nodes(s)`kind, Nodes(s)`name, Nodes(s)`usrType, Nodes(s)`vals
    decreases s, 1
  {
    if s.inf.kind.Attrib? then Attr(s.inf.name, s.inf.vals) else Group(s.inf.name, s.inf.usrType, ToInfs(s.subs))
  }

  ghost function ToInfs(ss: seq<Shape>): (ts: seq<Inf>)
    ensures |ts| == |ss|
    reads NodesOf(ss)`kind, NodesOf(ss)`name, NodesOf(ss)`usrType, NodesOf(ss)`vals
    decreases ss, 0
  {
    if ss == [] then [] else ToInfs(ss[..|ss| - 1]) + [ToInf(ss[|ss| - 1])]
  }

  // ------------------------------------------------------------------ printing

  class Buffer {
    var data: string

    constructor ()
      ensures data == ""
    {
      data := "";
    }

    method Append(s: string)
      modifies this`data
      ensures data == old(data) + s
    {
      data := data + s;
    }
  }

  lemma {:induction false} PrintSubsSnoc(ts: seq<Inf>, t: Inf, level: nat)
    ensures PrintSubs(ts + [t], level) == PrintSubs(ts, level) + PrintInf(t, level)
  {
    hide PrintInf;
    if ts == [] {
      assert ts + [t] == [t] && [t][1..] == [];
      assert PrintInf(t, level) + "" == PrintInf(t, level) && "" + PrintInf(t, level) == PrintInf(t, level);
    } else {
      assert (ts + [t])[1..] == ts[1..] + [t];
      PrintSubsSnoc(ts[1..], t, level);
      Glue(PrintInf(ts[0], level), PrintSubs(ts[1..], level), PrintInf(t, level));
    }
  }

  /** The i-th item of a tree. */
  lemma {:induction false} SubAt(ss: seq<Shape>, parent: StructInf, i: nat)
    requires i < |ss| && RepOf(ss, parent)
    ensures Rep(ss[i]) && Nodes(ss[i]) <= NodesOf(ss) && Infs(ss)[i] == ss[i].inf && !ss[i].inf.kind.Struct?
    ensures ToInfs(ss[..i + 1]) == ToInfs(ss[..i]) + [ToInf(ss[i])]
    ensures ToInfs(ss)[i] == ToInf(ss[i])
  {
    var n := |ss| - 1;
    assert ss[..i + 1][..i] == ss[..i];
    if i < n {
      SubAt(ss[..n], parent, i);
      assert ss[..n][..i + 1] == ss[..i + 1] && ss[..n][..i] == ss[..i];
    } else {
      assert ss[..i + 1] == ss;
    }
  }

  lemma LevelPads(level: nat, name: string, usrType: string, subsText: string)
    ensures Pad(level * 4) + name + (" \"" + usrType + "\"\r\n" + Pad(level * 4 + 4) + "{\r\n" + subsText + Pad(level * 4 + 4) + "}\r\n")
         == (Pad(level * 4) + name + " \"" + usrType + "\"\r\n" + Pad(level * 4 + 4) + "{\r\n") + subsText + (Pad(level * 4 + 4) + "}\r\n")
  {
    hide Pad;
    var a, p := Pad(level * 4) + name, Pad(level * 4 + 4);
    var head := " \"" + usrType + "\"\r\n" + p + "{\r\n";
    assert a + head == a + " \"" + usrType + "\"\r\n" + p + "{\r\n";
    assert a + (head + subsText + p + "}\r\n") == (a + head) + subsText + (p + "}\r\n");
  }

  /** Prints a group: its header, its items one level in, its closing brace. */
  method GenerateGroup(info: StructInf, buf: Buffer, level: nat, ghost s: Shape, ghost owned: set<StructInf>)
    requires owned == Nodes(s) && Rep(s) && info == s.inf && !info.kind.Attrib?
    modifies buf`data
    ensures buf.data == old(buf.data) + PrintInf(ToInf(s), level)
    decreases s, 1
  {
    hide Pad, PrintSubs;
    ghost var before := buf.data;
    var head := Pad(level * 4) + info.name + " \"" + info.usrType + "\"\r\n" + Pad(level * 4 + 4) + "{\r\n";
    buf.Append(head);
    GenerateSubs(info, buf, level + 1, s, owned);
    buf.Append(Pad(level * 4 + 4) + "}\r\n");
    LevelPads(level, info.name, info.usrType, PrintSubs(ToInfs(s.subs), level + 1));
    assert ((before + head) + PrintSubs(ToInfs(s.subs), level + 1)) + (Pad(level * 4 + 4) + "}\r\n")
        == before + (head + PrintSubs(ToInfs(s.subs), level + 1) + (Pad(level * 4 + 4) + "}\r\n"));
  }

  /** Prints a group's items in order. */
  method GenerateSubs(info: StructInf, buf: Buffer, level: nat, ghost s: Shape, ghost owned: set<StructInf>)
    requires owned == Nodes(s) && Rep(s) && info == s.inf
    modifies buf`data
    ensures buf.data == old(buf.data) + PrintSubs(ToInfs(s.subs), level)
    decreases s, 0
  {
    hide PrintSubs, PrintInf, Rep, RepOf, ToInf, ToInfs, NodesOf, Nodes;
    RepParts(s);
    ghost var before, ts := buf.data, ToInfs(s.subs);
    SubsStartEmpty(ts, level);
    var i := 0;
    while i < |info.subInf|
      invariant 0 <= i <= |info.subInf| == |s.subs| && Rep(s) && ToInfs(s.subs) == ts
      invariant buf.data == before + PrintSubs(ts[..i], level)
    {
      RepParts(s);
      SubAt(s.subs, s.inf, i);
      var sub := info.subInf[i];
      PrintSubsSnoc(ts[..i], ts[i], level);
      assert ts[..i + 1] == ts[..i] + [ts[i]];
      Glue(before, PrintSubs(ts[..i], level), PrintInf(ts[i], level));
      if sub.kind.Attrib? {
        GenerateAttr(sub, buf, level, s.subs[i], Nodes(s.subs[i]));
      } else {
        GenerateGroup(sub, buf, level, s.subs[i], Nodes(s.subs[i]));
      }
      i := i + 1;
    }
    assert ts[..i] == ts;
  }

  lemma RepParts(s: Shape)
    requires Rep(s)
    ensures NodesOf(s.subs) <= Nodes(s)
    ensures RepOf(s.subs, s.inf) && s.inf.subInf == Infs(s.subs) && |s.inf.subInf| == |s.subs|
  {
  }

  lemma SubsStartEmpty(ts: seq<Inf>, level: nat)
    ensures PrintSubs(ts[..0], level) == ""
  {
  }

  /** Prints an attribute: its name, and its values with commas between. */
  method GenerateAttr(info: StructInf, buf: Buffer, level: nat, ghost s: Shape, ghost owned: set<StructInf>)
    requires owned == Nodes(s) && info == s.inf && info.kind.Attrib?
    modifies buf`data
    ensures buf.data == old(buf.data) + PrintInf(ToInf(s), level)
    decreases s, 0
  {
    hide Pad, PrintVals, PrintVal;
    ghost var before := buf.data;
    var head := Pad(level * 4) + info.name + " = ";
    buf.Append(head);
    var vs := info.vals;
    var i := 0;
    assert vs[0..] == vs;
    while i < |vs|
      invariant 0 <= i <= |vs|
      invariant buf.data + PrintVals(vs[i..]) == before + (head + PrintVals(vs))
    {
      ValsStep(vs, i);
      ThreePieces(buf.data, PrintVal(vs[i]), if i + 1 < |vs| then ", " else "\r\n", PrintVals(vs[i + 1..]));
      buf.Append(PrintVal(vs[i]));
      buf.Append(if i + 1 < |vs| then ", " else "\r\n");
      i := i + 1;
    }
    ValsEnd(vs[i..]);
    assert buf.data + "" == buf.data;
  }

  lemma ValsStep(vs: seq<Val>, i: nat)
    requires i < |vs|
    ensures PrintVals(vs[i..]) == PrintVal(vs[i]) + ((if i + 1 < |vs| then ", " else "\r\n") + PrintVals(vs[i + 1..]))
  {
    hide PrintVal;
    assert vs[i..][1..] == vs[i + 1..];
    Glue(PrintVal(vs[i]), if i + 1 < |vs| then ", " else "\r\n", PrintVals(vs[i + 1..]));
  }

  lemma ValsEnd(vs: seq<Val>)
    requires vs == []
    ensures PrintVals(vs) == ""
  {
  }

  /** Prints a whole file. */
  method GenerateMsg(info: StructInf, ghost s: Shape, ghost owned: set<StructInf>) returns (text: string)
    requires owned == Nodes(s) && Rep(s) && info == s.inf && info.kind.Struct?
    ensures text == Print(ToInf(s))
  {
    hide PrintSubs, Pad, Rep, RepOf, ToInfs, Nodes, NodesOf;
    var buf := new Buffer();
    var head := info.name + " \"" + info.usrType + "\"\r\n    {\r\n";
    buf.Append(head);
    ghost var items := PrintSubs(ToInfs(s.subs), 1);
    assert "" + head == head;
    GenerateSubs(info, buf, 1, s, owned);
    buf.Append("    }\r\n");
    text := buf.data;
    TopText(info.name, info.usrType, ToInfs(s.subs));
  }

  /** The text of a file, as it is put together. */
  lemma TopText(name: string, usrType: string, subs: seq<Inf>)
    ensures (name + " \"" + usrType + "\"\r\n    {\r\n") + PrintSubs(subs, 1) + "    }\r\n" == Print(Group(name, usrType, subs))
  {
    hide PrintSubs, Pad;
    var items := PrintSubs(subs, 1);
    FourSpaces();
    LevelPads(0, name, usrType, items);
    NoPad(name, PrintBody(usrType, subs, 0));
    assert Pad(0) + name == name;
    assert name + " \"" + usrType + "\"\r\n" + "    " + "{\r\n" == name + " \"" + usrType + "\"\r\n    {\r\n";
  }

  lemma FourSpaces()
    ensures Pad(4) == "    " && Pad(0) == ""
  {
    assert Pad(1) == " " && Pad(2) == "  " && Pad(3) == "   ";
  }

  lemma NoPad(name: string, body: string)
    ensures Pad(0) + name + body == name + body
  {
    assert "" + name == name;
  }

  // ------------------------------------------------------------------ parsing

  /** The token reader as the parser uses it: one token may be held back. */
  class Session {
    var ahead: seq<Tok>
    var cur: Tok
    var hold: bool

    ghost function View(): seq<Tok>
      reads this
    {
      if hold then [cur] + ahead else ahead
    }

    constructor (toks: seq<Tok>)
      ensures View() == toks
    {
      ahead := toks;
      cur := End;
      hold := false;
    }

    /** The next token; past the last one there is only the end. */
    method NextToken() returns (t: Tok)
      modifies this
      ensures t == cur && !hold
      ensures old(View()) == [] ==> t == End && View() == []
      ensures old(View()) != [] ==> t == old(View())[0] && View() == old(View())[1..]
    {
      if hold {
        hold := false;
        return cur;
      }
      if ahead == [] {
        cur := End;
        return End;
      }
      cur := ahead[0];
      ahead := ahead[1..];
      t := cur;
    }

    /** Gives the current token back. */
    method HoldToken()
      requires !hold
      modifies this`hold
      ensures View() == [cur] + old(View())
    {
      hold := true;
    }
  }

  /** Makes an item the last one of a group, if there is room for it. */
  method AddInf(main: StructInf, sub: StructInf) returns (ok: bool)
    requires main != sub
    modifies main`subInf, sub`parent
    ensures ok <==> old(|main.subInf|) < MAX_SUBINF
    ensures ok ==> main.subInf == old(main.subInf) + [sub] && sub.parent == main
    ensures !ok ==> main.subInf == old(main.subInf) && sub.parent == old(sub.parent)
  {
    if |main.subInf| >= MAX_SUBINF {
      return false;
    }
    main.subInf := main.subInf + [sub];
    sub.parent := main;
    ok := true;
  }

  function Prefixed(done: seq<Val>, r: Parsed<seq<Val>>): Parsed<seq<Val>> {
    if r.Failed? then Failed else Parsed(done + r.v, r.rest)
  }

  lemma PrefixedOn(done: seq<Val>, v: Val, r: Parsed<seq<Val>>)
    ensures Prefixed(done, Prefixed([v], r)) == Prefixed(done + [v], r)
    ensures Prefixed([], r) == r
  {
    if r.Parsed? {
      assert done + ([v] + r.v) == (done + [v]) + r.v;
      assert [] + r.v == r.v;
    }
  }

  lemma ValsUnfold(ts: seq<Tok>, n: nat)
    ensures ParseVals(ts, n) ==
            if ts == [] || !IsValTok(ts[0]) || n >= MAX_VALUES then Failed
            else if |ts| > 1 && ts[1] == Comma then Prefixed([ValOf(ts[0])], ParseVals(ts[2..], n + 1))
            else Parsed([ValOf(ts[0])], ts[1..])
  {
  }

  /** Token sequences end with the end of the text or an error. */
  predicate Terminated(ts: seq<Tok>) {
    ts != [] && (ts[|ts| - 1].End? || ts[|ts| - 1].Other?)
  }

  lemma {:induction false} TokensTerminate(input: string)
    ensures Terminated(Tokens(input))
    decreases |input|
  {
    var (t, rest) := Lex(input);
    if !t.End? && !t.Other? {
      TokensTerminate(rest);
    }
  }

  /** Reads the values of an attribute, the current token being the equals sign. */
  method ParseAttr(s: Session, inf: StructInf) returns (ok: bool)
    requires Terminated(s.View())
    modifies s, inf`vals
    ensures ok <==> ParseVals(old(s.View()), 0).Parsed?
    ensures ok ==> Parsed(inf.vals, s.View()) == ParseVals(old(s.View()), 0) && Terminated(s.View())
  {
    hide ParseVals, Prefixed;
    inf.vals := [];
    ghost var r := ParseVals(s.View(), 0);
    PrefixedOn([], Num(0), r);
    while true
      invariant Prefixed(inf.vals, ParseVals(s.View(), |inf.vals|)) == r && Terminated(s.View())
      invariant |inf.vals| <= MAX_VALUES
      decreases |s.View()|
    {
      ghost var ts, done := s.View(), inf.vals;
      ValsUnfold(ts, |done|);
      PrefixedEnds(done, ValOf2(ts[0]), ts[1..]);
      var t := s.NextToken();
      if !IsValTok(t) {
        return false;
      }
      HeldBack(ts);
      if |inf.vals| == MAX_VALUES {
        return false;
      }
      inf.vals := inf.vals + [ValOf(t)];
      t := s.NextToken();
      if t != Comma {
        s.HoldToken();
        assert s.View() == ts[1..];
        return true;
      }
      PrefixedOn(done, ValOf(ts[0]), ParseVals(ts[2..], |done| + 1));
    }
  }

  /** Something follows any token but the last. */
  lemma HeldBack(ts: seq<Tok>)
    requires Terminated(ts) && !ts[0].End? && !ts[0].Other?
    ensures |ts| > 1 && Terminated(ts[1..])
    ensures ts[1..][0] == ts[1] && ts[1..][1..] == ts[2..] && [ts[1]] + ts[2..] == ts[1..]
    ensures !ts[1].End? && !ts[1].Other? ==> Terminated(ts[2..])
  {
  }

  function ValOf2(t: Tok): Val {
    if IsValTok(t) then ValOf(t) else Num(0)
  }

  lemma PrefixedEnds(done: seq<Val>, v: Val, rest: seq<Tok>)
    ensures Prefixed(done, Failed) == Failed
    ensures Prefixed(done, Parsed([v], rest)) == Parsed(done + [v], rest)
  {
  }

  function PrefixedInfs(done: seq<Inf>, r: Parsed<seq<Inf>>): Parsed<seq<Inf>> {
    if r.Failed? then Failed else Parsed(done + r.v, r.rest)
  }

  lemma InfsOn(done: seq<Inf>, t: Inf, r: Parsed<seq<Inf>>)
    ensures PrefixedInfs(done, PrefixedInfs([t], r)) == PrefixedInfs(done + [t], r)
    ensures PrefixedInfs([], r) == r
    ensures r.Parsed? && r.v == [] ==> PrefixedInfs(done, r) == Parsed(done, r.rest)
    ensures PrefixedInfs(done, Failed) == Failed
  {
    if r.Parsed? {
      assert done + ([t] + r.v) == (done + [t]) + r.v;
      assert [] + r.v == r.v && (r.v == [] ==> done + r.v == done);
    }
  }

  lemma SubsUnfold(ts: seq<Tok>, n: nat)
    requires ts != []
    ensures ts[0] == CloseBrace ==> ParseSubs(ts, n) == Parsed([], ts[1..])
    ensures ts[0] != CloseBrace && (!ts[0].Keyword? || n >= MAX_SUBINF) ==> ParseSubs(ts, n) == Failed
    ensures ts[0].Keyword? && n < MAX_SUBINF ==>
              var x := StText.ParseItem(StText.Cut(ts[0].k, NAME_LENGTH), ts[1..]);
              ParseSubs(ts, n) == if x.Failed? then Failed else PrefixedInfs([x.v], ParseSubs(x.rest, n + 1))
  {
    hide StText.ParseItem;
  }

  /** One more item of a group. */
  lemma RepSnoc(ss: seq<Shape>, sh: Shape, parent: StructInf)
    requires RepOf(ss, parent) && Rep(sh) && sh.inf.parent == parent && !sh.inf.kind.Struct? && NodesOf(ss) !! Nodes(sh)
    ensures RepOf(ss + [sh], parent) && NodesOf(ss + [sh]) == NodesOf(ss) + Nodes(sh)
    ensures Infs(ss + [sh]) == Infs(ss) + [sh.inf] && ToInfs(ss + [sh]) == ToInfs(ss) + [ToInf(sh)]
  {
    hide Rep;
    assert (ss + [sh])[..|ss|] == ss;
  }

  /** Reads the items of a group up to its closing brace, the current token being the opening one. */
  method ParseGroup(s: Session, inf: StructInf) returns (ok: bool, ghost subs: seq<Shape>)
    requires Terminated(s.View()) && inf.subInf == []
    modifies s, inf`subInf
    ensures ok <==> ParseSubs(old(s.View()), 0).Parsed?
    ensures ok ==> RepOf(subs, inf) && inf.subInf == Infs(subs) && fresh(NodesOf(subs)) && Terminated(s.View())
    ensures ok ==> Parsed(ToInfs(subs), s.View()) == ParseSubs(old(s.View()), 0)
    decreases |s.View()|, 2
  {
    hide *;
    ghost var r := ParseSubs(s.View(), 0);
    ghost var owned: set<StructInf> := {};
    subs := [];
    NoSubs(inf);
    InfsOn([], Attr("", []), r);
    while true
      invariant Terminated(s.View()) && SubsFit(subs) && |s.View()| <= |old(s.View())|
      invariant RepOf(subs, inf) && inf.subInf == Infs(subs) && owned == NodesOf(subs) && fresh(owned)
      invariant PrefixedInfs(ToInfs(subs), ParseSubs(s.View(), |subs|)) == r
      decreases |s.View()|
    {
      ghost var ts, done := s.View(), ToInfs(subs);
      TerminatedFacts(ts);
      SubsUnfold(ts, |subs|);
      InfsOn(done, Attr("", []), ParseSubs(ts, |subs|));
      var t := s.NextToken();
      if t == CloseBrace {
        return true, subs;
      }
      if !t.Keyword? {
        return false, subs;
      }
      ghost var sh;
      ok, sh := ParseOne(s, inf, t.k, subs, owned);
      FitsMore(subs, sh);
      if !ok {
        InfsOn(done, Attr("", []), Failed);
        return false, subs;
      }
      RepSnoc(subs, sh, inf);
      InfsOn(done, ToInf(sh), ParseSubs(s.View(), |subs| + 1));
      subs := subs + [sh];
      owned := owned + Nodes(sh);
    }
  }

  ghost predicate SubsFit(subs: seq<Shape>) {
    |subs| <= MAX_SUBINF
  }

  lemma FitsMore(subs: seq<Shape>, sh: Shape)
    ensures SubsFit(subs + [sh]) <==> |subs| < MAX_SUBINF
  {
  }

  lemma TerminatedFacts(ts: seq<Tok>)
    requires Terminated(ts)
    ensures ts != [] && (!ts[0].End? && !ts[0].Other? ==> Terminated(ts[1..]))
  {
  }

  lemma NoSubs(inf: StructInf)
    ensures RepOf([], inf) && Infs([]) == [] && ToInfs([]) == [] && NodesOf([]) == {} && SubsFit([])
  {
  }

  /** Adds one item to a group and reads it in. */
  method ParseOne(s: Session, inf: StructInf, k: string, ghost subs: seq<Shape>, ghost owned: set<StructInf>)
    returns (ok: bool, ghost sh: Shape)
    requires Terminated(s.View()) && owned == NodesOf(subs) && inf !in owned
    requires RepOf(subs, inf) && inf.subInf == Infs(subs)
    modifies s, inf`subInf
    ensures ok <==> |subs| < MAX_SUBINF && StText.ParseItem(StText.Cut(k, NAME_LENGTH), old(s.View())).Parsed?
    ensures ok ==> Rep(sh) && sh.inf.parent == inf && !sh.inf.kind.Struct? && fresh(Nodes(sh)) && Nodes(sh) !! owned
    ensures ok ==> RepOf(subs, inf) && ToInfs(subs) == old(ToInfs(subs)) && inf.subInf == Infs(subs) + [sh.inf]
    ensures ok ==> Terminated(s.View())
    ensures ok ==> Parsed(ToInf(sh), s.View()) == StText.ParseItem(StText.Cut(k, NAME_LENGTH), old(s.View()))
    decreases |s.View()|, 1
  {
    hide StText.ParseItem, Rep, RepOf, ToInf, ToInfs, NodesOf, Nodes, Infs, StText.Cut;
    var sub := new StructInf(Subgroup);
    sh := Shape(sub, []);
    ok := AddInf(inf, sub);
    if !ok {
      return;
    }
    sub.name := StText.Cut(k, NAME_LENGTH);
    ok, sh := ParseItem(s, sub);
  }

  /** Reads an item after its name: an attribute's values, or a group's type and items. */
  method ParseItem(s: Session, sub: StructInf) returns (ok: bool, ghost sh: Shape)
    requires Terminated(s.View()) && sub.subInf == [] && sub.usrType == ""
    modifies s, sub`kind, sub`usrType, sub`vals, sub`subInf
    ensures ok <==> StText.ParseItem(sub.name, old(s.View())).Parsed?
    ensures ok ==> Rep(sh) && sh.inf == sub && !sub.kind.Struct? && (forall n :: n in Nodes(sh) ==> n == sub || fresh(n)) && Terminated(s.View())
    ensures ok ==> Parsed(ToInf(sh), s.View()) == StText.ParseItem(sub.name, old(s.View()))
    decreases |s.View()|, 0
  {
    hide ParseVals, ParseSubs;
    sh := Shape(sub, []);
    ghost var ts := s.View();
    var t := s.NextToken();
    if t.String? {
      sub.usrType := StText.Cut(t.s, TYPE_LENGTH);
      t := s.NextToken();
    }
    if t == Equals {
      if sub.usrType != "" {
        return false, sh;
      }
      sub.kind := Attrib;
      ok := ParseAttr(s, sub);
    } else if t == OpenBrace {
      if sub.usrType == "" {
        return false, sh;
      }
      sub.kind := Subgroup;
      ghost var subs;
      ok, subs := ParseGroup(s, sub);
      sh := Shape(sub, subs);
    } else {
      ok := false;
    }
  }

  /** Reads a whole file; for a form or a script it only says that other code reads on. */
  method ParseStruct(s: Session) returns (info: StructInf?, elsewhere: bool, ghost sh: Shape)
    requires Terminated(s.View())
    modifies s
    ensures elsewhere <==> StText.ParseStruct(old(s.View())).Elsewhere?
    ensures info != null <==> StText.ParseStruct(old(s.View())).Read?
    ensures info != null ==> fresh(Nodes(sh)) && Rep(sh) && sh.inf == info && info.kind.Struct?
    ensures info != null ==> ToInf(sh) == StText.ParseStruct(old(s.View())).t
  {
    hide ParseSubs;
    ghost var ts := s.View();
    info := new StructInf(Struct);
    sh := Shape(info, []);
    var t := s.NextToken();
    if !t.Keyword? {
      return null, false, sh;
    }
    TerminatedFacts(ts);
    info.name := StText.Cut(t.k, NAME_LENGTH);
    if info.name == "BEGIN" {
      elsewhere := BeginForm(s);
      return if elsewhere then null else info, elsewhere, sh;
    }
    t := s.NextToken();
    if !t.String? {
      return null, false, sh;
    }
    info.usrType := StText.Cut(t.s, TYPE_LENGTH);
    TerminatedFacts(ts[1..]);
    t := s.NextToken();
    if t == DblOpenBrace && info.usrType == "system/script" {
      return null, true, sh;
    }
    if t != OpenBrace {
      return null, false, sh;
    }
    TerminatedFacts(ts[1..][1..]);
    assert ts[1..][1..][1..] == ts[3..];
    var ok;
    ghost var subs;
    ok, subs := ParseGroup(s, info);
    if !ok {
      return null, false, sh;
    }
    return info, false, Shape(info, subs);
  }

  /** Whether the reader of forms, which starts by asking for a name, gets past its first token. */
  method BeginForm(s: Session) returns (more: bool)
    requires Terminated(s.View())
    modifies s
    ensures more <==> old(s.View())[0].Keyword? || old(s.View())[0].Other?
  {
    var t := s.NextToken();
    more := t.Keyword? || t.Other?;
  }

  /**
   * Writes a tree and reads it back: for every writable tree the copy is a
   * tree of new objects, with the same contents if and only if the tree fits
   * the reader's limits and is not called BEGIN, or is an empty group of that
   * name, which is what comes back then.
   */
  method WriteAndRead(info: StructInf, ghost s: Shape, ghost owned: set<StructInf>)
    returns (copy: StructInf?, ghost c: Shape)
    requires owned == Nodes(s) && Rep(s) && info == s.inf && info.kind.Struct?
    ensures copy != null ==> fresh(Nodes(c)) && Rep(c) && c.inf == copy
    ensures Writable(ToInf(s)) ==>
              (copy != null && ToInf(c) == ToInf(s) <==>
               FitsOnTop(ToInf(s)) || ToInf(s) == Group("BEGIN", "", []))
    ensures Writable(ToInf(s)) && info.name == "BEGIN" ==> copy != null && ToInf(c) == Group("BEGIN", "", [])
  {
    hide Print, Tokens, StText.ParseStruct, Rep, Writable, FitsOnTop;
    ghost var t := ToInf(s);
    if Writable(t) {
      PrintParses(t);
    }
    var text := GenerateMsg(info, s, owned);
    TokensTerminate(text);
    var session := new Session(Tokens(text));
    var elsewhere;
    copy, elsewhere, c := ParseStruct(session);
  }
}
