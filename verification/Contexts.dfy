/**
 * Security contexts: the order in which endorsements apply, and the plain
 * stack of frames, each push duplicating the top one, that the copy-on-write
 * stack in ContextStack stands for.
 */
module Contexts {
  import opened Options

  const IDENTIFIER_LENGTH: nat := 64

  // ------------------------------------------------------------------ the order

  /** What precedes the first colon. */
  function UpToColon(s: string): (r: string)
    ensures |r| <= |s|
  {
    if s == "" || s[0] == ':' then "" else [s[0]] + UpToColon(s[1..])
  }

  predicate HasColon(s: string) {
    |UpToColon(s)| < |s|
  }

  /** The i-th of the parts that colons separate, empty when there are fewer. */
  function Part(s: string, i: nat): string {
    var p := UpToColon(s);
    if i == 0 then p
    else if |p| < |s| then Part(s[|p| + 1..], i - 1)
    else ""
  }

  /** A part applies when it is the same, when nothing is asked for, or when anything is offered. */
  predicate PartBelow(p: string, q: string) {
    p == q || q == "" || p == "*"
  }

  function Widest(c: string): string {
    if c == "*" then ":::" else c
  }

  /** The first context is the second one or more specific. */
  predicate Below(c: string, d: string) {
    || d == "*"
    || (|Widest(c)| < IDENTIFIER_LENGTH && |d| < IDENTIFIER_LENGTH
        && forall i :: 0 <= i < 4 ==> PartBelow(Part(Widest(c), i), Part(d, i)))
  }

  /** strsep: takes the next part off a string, which becomes None after its last part. */
  datatype Rest = Exhausted | Rest(text: string)

  function PartOf(r: Rest): string {
    if r.Exhausted? then "" else UpToColon(r.text)
  }

  function After(r: Rest): Rest {
    if r.Exhausted? || !HasColon(r.text) then Exhausted else Rest(r.text[|UpToColon(r.text)| + 1..])
  }

  /** What remains after i parts. */
  function AfterParts(s: string, i: nat): Rest {
    if i == 0 then Rest(s) else After(AfterParts(s, i - 1))
  }

  lemma {:induction false} PartAfter(s: string, i: nat)
    ensures PartOf(AfterParts(s, i)) == Part(s, i)
  {
    if i > 0 {
      ShiftParts(s, i);
      if HasColon(s) {
        PartAfter(s[|UpToColon(s)| + 1..], i - 1);
      }
    }
  }

  lemma {:induction false} ShiftParts(s: string, i: nat)
    requires i > 0
    ensures AfterParts(s, i) == if HasColon(s) then AfterParts(s[|UpToColon(s)| + 1..], i - 1) else Exhausted
  {
    if i > 1 {
      ShiftParts(s, i - 1);
    }
  }

  /** Compares two contexts part by part. */
  method CompareContexts(ctx1: string, ctx2: string) returns (r: int)
    ensures r == if Below(ctx1, ctx2) then 0 else -1
  {
    hide Part, UpToColon, After, PartOf, HasColon;
    if ctx2 == "*" {
      return 0;
    }
    var c := if ctx1 == "*" then ":::" else ctx1;
    if |c| >= IDENTIFIER_LENGTH || |ctx2| >= IDENTIFIER_LENGTH {
      return -1;
    }
    var end1, end2 := Rest(c), Rest(ctx2);
    var i := 0;
    while i < 4
      invariant 0 <= i <= 4
      invariant end1 == AfterParts(c, i) && end2 == AfterParts(ctx2, i)
      invariant forall j :: 0 <= j < i ==> PartBelow(Part(c, j), Part(ctx2, j))
    {
      PartAfter(c, i);
      PartAfter(ctx2, i);
      var p, q := PartOf(end1), PartOf(end2);
      end1, end2 := After(end1), After(end2);
      if p != q && q != "" && p != "*" {
        assert !PartBelow(Part(c, i), Part(ctx2, i));
        return -1;
      }
      i := i + 1;
    }
    r := 0;
  }

  /** Parts put together with colons between them. */
  function Join(ps: seq<string>): string
    requires ps != []
  {
    if |ps| == 1 then ps[0] else ps[0] + ":" + Join(ps[1..])
  }

  function PartAt(ps: seq<string>, i: nat): string {
    if i < |ps| then ps[i] else ""
  }

  predicate Plain(ps: seq<string>) {
    ps != [] && forall i :: 0 <= i < |ps| ==> ':' !in ps[i]
  }

  /**
   * One context is below another, both given by their parts, if each of its
   * first four parts is the same as the other's, or "*", or faces an empty or
   * missing one. "*" alone has everything below it, and counts as four empty
   * parts itself. Contexts of 64 characters are too long.
   */
  lemma BelowByParts(ps: seq<string>, qs: seq<string>)
    requires Plain(ps) && Plain(qs)
    ensures var rs := if ps == ["*"] then [""] else ps;
            Below(Join(ps), Join(qs)) <==>
            || qs == ["*"]
            || (|Join(ps)| < 64 && |Join(qs)| < 64
                && forall i :: 0 <= i < 4 ==> PartAt(rs, i) == PartAt(qs, i) || PartAt(qs, i) == "" || PartAt(rs, i) == "*")
  {
    hide Part;
    JoinIsStar(ps);
    JoinIsStar(qs);
    forall i | 0 <= i < 4
      ensures Part(Join(qs), i) == PartAt(qs, i)
      ensures Part(Widest(Join(ps)), i) == PartAt(if ps == ["*"] then [""] else ps, i)
    {
      PartsOfEmpty(i);
      PartOfJoin(ps, i);
      PartOfJoin(qs, i);
    }
  }

  lemma JoinIsStar(ps: seq<string>)
    requires Plain(ps)
    ensures Join(ps) == "*" <==> ps == ["*"]
  {
    if |ps| > 1 {
      assert Join(ps)[|ps[0]|] == ':';
    }
  }

  lemma {:induction false} PartOfJoin(ps: seq<string>, i: nat)
    requires Plain(ps)
    ensures Part(Join(ps), i) == PartAt(ps, i)
  {
    var rest := if |ps| == 1 then "" else ":" + Join(ps[1..]);
    assert Join(ps) == ps[0] + rest;
    NoColon(ps[0]);
    UpToEnd(ps[0], rest);
    if |ps| > 1 && i > 0 {
      assert Join(ps)[|ps[0]| + 1..] == Join(ps[1..]);
      PartOfJoin(ps[1..], i - 1);
    }
  }

  lemma {:induction false} NoColon(p: string)
    requires ':' !in p
    ensures UpToColon(p) == p
  {
    if p != "" {
      NoColon(p[1..]);
    }
  }

  /** A context is below itself exactly when it fits an identifier. */
  lemma BelowReflexive(c: string)
    ensures Below(c, c) <==> |c| < IDENTIFIER_LENGTH
  {
  }

  lemma PartsOfEmpty(i: nat)
    requires i < 4
    ensures Part(":::", i) == ""
  {
    assert UpToColon(":::") == "" && ":::"[1..] == "::" && "::"[1..] == ":" && ":"[1..] == "";
    if i == 1 {
      assert Part("::", 0) == "";
    } else if i == 2 {
      assert Part("::", 1) == Part(":", 0);
    } else if i == 3 {
      assert Part("::", 2) == Part(":", 1) == Part("", 0);
    }
  }

  /** The order is transitive from every context that fits an identifier. */
  lemma BelowTransitive(a: string, b: string, c: string)
    requires |a| < IDENTIFIER_LENGTH && Below(a, b) && Below(b, c)
    ensures Below(a, c)
  {
    hide Part;
    if c != "*" {
      forall i | 0 <= i < 4
        ensures PartBelow(Part(Widest(a), i), Part(c, i))
      {
        assert PartBelow(Part(Widest(b), i), Part(c, i));
        if b == "*" {
          PartsOfEmpty(i);
        } else {
          assert PartBelow(Part(Widest(a), i), Part(b, i));
        }
      }
    }
  }

  /** Beyond that length it is not: anything is below "*", and "*" is below "", but a long context is not below "". */
  lemma LongContextsBreakTransitivity(a: string)
    requires |a| >= IDENTIFIER_LENGTH
    ensures Below(a, "*") && Below("*", "") && !Below(a, "")
  {
    forall i | 0 <= i < 4
      ensures Part("", i) == ""
    {
    }
    assert a != "*";
  }

  // ------------------------------------------------------------------ frames

  /** A string copied into a fixed field: cut to 63 characters. */
  function Cut(s: string): (r: string)
    ensures |r| < IDENTIFIER_LENGTH
    ensures |s| < IDENTIFIER_LENGTH <==> r == s
  {
    if |s| < IDENTIFIER_LENGTH then s else s[..IDENTIFIER_LENGTH - 1]
  }

  datatype Endorsement = Endorsement(name: string, context: string)

  /** A variable may be set to no value at all, which reads as its default. */
  datatype Binding = Binding(name: string, value: Option<string>)

  datatype Frame = Frame(endorsements: seq<Endorsement>, variables: seq<Binding>)

  type Stack = seq<Frame>

  /** The first variable of that name, or the number of variables. */
  function IndexOf(vs: seq<Binding>, name: string): (i: nat)
    ensures i <= |vs|
    ensures i < |vs| ==> vs[i].name == name
    ensures forall j :: 0 <= j < i ==> vs[j].name != name
  {
    if vs == [] || vs[0].name == name then 0 else 1 + IndexOf(vs[1..], name)
  }

  lemma {:induction false} IndexIs(vs: seq<Binding>, name: string, i: nat)
    requires i <= |vs| && (i < |vs| ==> vs[i].name == name)
    requires forall j :: 0 <= j < i ==> vs[j].name != name
    ensures IndexOf(vs, name) == i
  {
  }

  predicate Endorsed(es: seq<Endorsement>, name: string, context: string) {
    exists i :: 0 <= i < |es| && es[i].name == name && Below(context, es[i].context)
  }

  function Set(f: Frame, name: string, value: Option<string>): Frame {
    var i := IndexOf(f.variables, name);
    if i < |f.variables| then f.(variables := f.variables[i := Binding(f.variables[i].name, value)])
    else f.(variables := f.variables + [Binding(Cut(name), value)])
  }

  function Get(f: Frame, name: string, dflt: Option<string>): Option<string> {
    var i := IndexOf(f.variables, name);
    if i < |f.variables| && f.variables[i].value.Some? then f.variables[i].value else dflt
  }

  function Endorse(f: Frame, name: string, context: string): Frame {
    if Endorsed(f.endorsements, name, context) then f
    else f.(endorsements := f.endorsements + [Endorsement(Cut(name), Cut(context))])
  }

  // ------------------------------------------------------------------ the plain stack, top first

  function Push(s: Stack): Stack {
    if s == [] then [Frame([], [])] else [s[0]] + s
  }

  function Pop(s: Stack): Option<Stack> {
    if s == [] then None else Some(s[1..])
  }

  function SetVariable(s: Stack, name: string, value: Option<string>): Option<Stack> {
    if s == [] then None else Some([Set(s[0], name, value)] + s[1..])
  }

  function AddEndorsement(s: Stack, name: string, context: string): Option<Stack> {
    if s == [] then None else Some([Endorse(s[0], name, context)] + s[1..])
  }

  lemma RedundantAdd(s: Stack, name: string, context: string)
    requires s != [] && Endorsed(s[0].endorsements, name, context)
    ensures AddEndorsement(s, name, context) == Some(s)
  {
    assert [s[0]] + s[1..] == s;
  }

  /** What a new thread starts with: the current frame alone. */
  function ThreadCopy(s: Stack): Stack {
    if s == [] then [Frame([], [])] else [s[0]]
  }

  /** Names in a frame are as they were stored: cut. */
  predicate Stored(f: Frame) {
    forall i :: 0 <= i < |f.endorsements| ==> |f.endorsements[i].name| < IDENTIFIER_LENGTH
  }

  lemma EndorseStores(f: Frame, name: string, context: string)
    requires Stored(f)
    ensures Stored(Endorse(f, name, context))
  {
  }

  /** A query for a context too long for the order, after the addition of "*" was skipped because of an endorsement that reaches everything else. */
  predicate Overlooked(f: Frame, name: string, context: string, asked: string, where: string) {
    && context == "*" && asked == name
    && |where| >= IDENTIFIER_LENGTH
    && Endorsed(f.endorsements, name, "*") && !Endorsed(f.endorsements, name, where)
  }

  /**
   * After an endorsement is added, a query holds exactly when it did before or
   * is at or below the endorsement as it is stored, even when the add was
   * redundant; a query that is overlooked is the only exception.
   */
  lemma EndorsementLaw(f: Frame, name: string, context: string, asked: string, where: string)
    requires Stored(f)
    ensures (Endorsed(Endorse(f, name, context).endorsements, asked, where) <==>
             Endorsed(f.endorsements, asked, where) || (asked == Cut(name) && Below(where, Cut(context))))
            <==> !Overlooked(f, name, context, asked, where)
  {
    if Endorsed(f.endorsements, name, context) {
      RedundantLaw(f, name, context, asked, where);
    } else {
      AddedLaw(f, name, context, asked, where);
    }
  }

  lemma AddedLaw(f: Frame, name: string, context: string, asked: string, where: string)
    requires !Endorsed(f.endorsements, name, context)
    ensures Endorsed(Endorse(f, name, context).endorsements, asked, where) <==>
            Endorsed(f.endorsements, asked, where) || (asked == Cut(name) && Below(where, Cut(context)))
  {
    hide Below;
    var es := f.endorsements;
    var more := es + [Endorsement(Cut(name), Cut(context))];
    assert Endorse(f, name, context).endorsements == more;
    if Endorsed(es, asked, where) {
      var i :| 0 <= i < |es| && es[i].name == asked && Below(where, es[i].context);
      assert more[i] == es[i];
    }
    if asked == Cut(name) && Below(where, Cut(context)) {
      assert more[|es|] == Endorsement(asked, Cut(context));
    }
  }

  lemma RedundantLaw(f: Frame, name: string, context: string, asked: string, where: string)
    requires Stored(f) && Endorsed(f.endorsements, name, context)
    ensures Endorsed(f.endorsements, asked, where) || (asked == Cut(name) && Below(where, Cut(context)))
            ==> Endorsed(f.endorsements, asked, where) || Overlooked(f, name, context, asked, where)
    ensures Overlooked(f, name, context, asked, where) ==> asked == Cut(name) && Below(where, Cut(context))
  {
    var es := f.endorsements;
    var i :| 0 <= i < |es| && es[i].name == name && Below(context, es[i].context);
    assert Cut(name) == name;
    if asked == name && Below(where, Cut(context)) {
      if |where| < IDENTIFIER_LENGTH {
        StillBelow(where, context, es[i].context);
      } else {
        OnlyWildcard(where, Cut(context));
      }
    }
  }

  lemma StillBelow(where: string, context: string, d: string)
    requires |where| < IDENTIFIER_LENGTH && Below(where, Cut(context)) && Below(context, d)
    ensures Below(where, d)
  {
    if |context| < IDENTIFIER_LENGTH {
      BelowTransitive(where, context, d);
    } else {
      OnlyWildcard(context, d);
    }
  }

  /** A long context is below "*" alone. */
  lemma OnlyWildcard(c: string, d: string)
    requires |c| >= IDENTIFIER_LENGTH
    ensures Below(c, d) <==> d == "*"
    ensures Cut(d) == "*" <==> d == "*"
  {
  }

  /** Cutting a context can drop its last parts, which then ask for nothing: the endorsement reaches further than it says. */
  lemma CutWidens(p: string, name: string)
    requires |p| == IDENTIFIER_LENGTH - 2 && !HasColon(p)
    ensures var f := Endorse(Frame([], []), name, p + ":b");
            && Endorsed(f.endorsements, Cut(name), p)
            && !PartBelow(Part(p, 1), Part(p + ":b", 1))
  {
    hide Below, Part, PartBelow, UpToColon;
    var context := p + ":b";
    assert Cut(context) == p + ":";
    DropsParts(p);
    var es := Endorse(Frame([], []), name, context).endorsements;
    assert es[0] == Endorsement(Cut(name), p + ":");
  }

  lemma DropsParts(p: string)
    requires |p| == IDENTIFIER_LENGTH - 2 && !HasColon(p)
    ensures Below(p, p + ":") && !PartBelow(Part(p, 1), Part(p + ":b", 1))
  {
    NoMoreParts(p, ":b");
    NoMoreParts(p, ":");
    NoMoreParts(p, "");
    hide Part, UpToColon;
    assert p + "" == p && p != "*";
    forall i | 0 <= i < 4
      ensures PartBelow(Part(p, i), Part(p + ":", i))
    {
    }
  }

  lemma {:induction false} UpToEnd(p: string, rest: string)
    requires !HasColon(p) && (rest == "" || rest[0] == ':')
    ensures UpToColon(p + rest) == p
  {
    if p == "" {
      assert p + rest == rest;
    } else {
      assert (p + rest)[1..] == p[1..] + rest;
      UpToEnd(p[1..], rest);
    }
  }

  /** The parts of a text without colons, and of what may follow it. */
  lemma NoMoreParts(p: string, rest: string)
    requires !HasColon(p) && rest in {"", ":", ":b"}
    ensures Part(p + rest, 0) == p
    ensures Part(p + rest, 1) == if rest == ":b" then "b" else ""
    ensures rest != ":b" ==> Part(p + rest, 2) == "" && Part(p + rest, 3) == ""
  {
    UpToEnd(p, rest);
    if rest != "" {
      assert (p + rest)[|p| + 1..] == rest[1..];
      assert UpToColon("b") == "b" by {
        assert "b"[1..] == "";
      }
    }
  }

  /** A variable whose name fits an identifier is read back as it was set, and no other variable changes. */
  lemma VariableLaw(f: Frame, name: string, value: Option<string>, asked: string, dflt: Option<string>)
    requires |name| < IDENTIFIER_LENGTH
    ensures Get(Set(f, name, value), asked, dflt) ==
            if asked == name then (if value.Some? then value else dflt) else Get(f, asked, dflt)
  {
    var vs, i := f.variables, IndexOf(f.variables, name);
    var us := Set(f, name, value).variables;
    if asked == name {
      IndexIs(us, name, i);
    } else {
      var j := IndexOf(vs, asked);
      IndexIs(us, asked, if i == |vs| && j == |vs| then |us| else j);
    }
  }

  /** A longer name is stored cut, so reading it back gives the default. */
  lemma LongNamesAreLost(f: Frame, name: string, value: Option<string>)
    requires |name| >= IDENTIFIER_LENGTH
    requires forall i :: 0 <= i < |f.variables| ==> |f.variables[i].name| < IDENTIFIER_LENGTH
    ensures Get(Set(f, name, value), name, None) == None
  {
    var us := Set(f, name, value).variables;
    IndexIs(f.variables, name, |f.variables|);
    IndexIs(us, name, |us|);
  }

  // ------------------------------------------------------------------ whole runs

  datatype Op = PushOp | PopOp | SetOp(name: string, value: Option<string>) | EndorseOp(endorsement: string, context: string)

  function Do(s: Stack, op: Op): Option<Stack> {
    match op
    case PushOp => Some(Push(s))
    case PopOp => Pop(s)
    case SetOp(n, v) => SetVariable(s, n, v)
    case EndorseOp(e, c) => AddEndorsement(s, e, c)
  }

  function Run(s: Stack, ops: seq<Op>): Option<Stack>
    decreases ops
  {
    if ops == [] then Some(s)
    else
      var t := Do(s, ops[0]);
      if t.None? then None else Run(t.value, ops[1..])
  }

  /** Pushes minus pops. */
  function Depth(ops: seq<Op>): int {
    if ops == [] then 0
    else Depth(ops[..|ops| - 1]) + match ops[|ops| - 1] case PushOp => 1 case PopOp => -1 case _ => 0
  }

  /** Never pops what was there before it started. */
  predicate Nested(ops: seq<Op>) {
    forall i :: 0 <= i <= |ops| ==> Depth(ops[..i]) >= 0
  }

  lemma {:induction false} RunSnoc(s: Stack, ops: seq<Op>, op: Op)
    ensures Run(s, ops + [op]) == if Run(s, ops).None? then None else Do(Run(s, ops).value, op)
    decreases ops
  {
    if ops == [] {
      assert ops + [op] == [op] && [op][1..] == [];
    } else {
      assert (ops + [op])[1..] == ops[1..] + [op];
      var t := Do(s, ops[0]);
      if t.Some? {
        RunSnoc(t.value, ops[1..], op);
      }
    }
  }

  /** A nested run works above the frames it started on, which it leaves as they were. */
  lemma {:induction false} NestedLeaves(f: Frame, s: Stack, ops: seq<Op>)
    requires Nested(ops)
    ensures Run([f] + s, ops).Some?
    ensures var t := Run([f] + s, ops).value;
            |t| == 1 + Depth(ops) + |s| && t[1 + Depth(ops)..] == s
    decreases ops
  {
    if ops != [] {
      var n := |ops| - 1;
      var init, op := ops[..n], ops[n];
      assert ops == init + [op];
      assert Depth(init) >= 0 && Depth(ops[..n + 1]) >= 0;
      assert ops[..n + 1] == ops;
      NestedInit(ops);
      NestedLeaves(f, s, init);
      RunSnoc([f] + s, init, op);
      var t, d := Run([f] + s, init).value, Depth(init);
      StepLeaves(t, s, d, op);
    }
  }

  lemma NestedInit(ops: seq<Op>)
    requires ops != [] && Nested(ops)
    ensures Nested(ops[..|ops| - 1])
  {
    var init := ops[..|ops| - 1];
    forall i | 0 <= i <= |init|
      ensures Depth(init[..i]) >= 0
    {
      assert init[..i] == ops[..i];
    }
  }

  lemma StepLeaves(t: Stack, s: Stack, d: nat, op: Op)
    requires |t| == 1 + d + |s| && t[1 + d..] == s && (op.PopOp? ==> d > 0)
    ensures Do(t, op).Some?
    ensures var u := Do(t, op).value;
            var e := if op.PushOp? then d + 1 else if op.PopOp? then d - 1 else d;
            |u| == 1 + e + |s| && u[1 + e..] == s
  {
  }

  /** A pop returns the stack to exactly what it was before the push it matches, whatever ran in between. */
  lemma PopRestores(s: Stack, ops: seq<Op>)
    requires s != [] && Nested(ops) && Depth(ops) == 0
    ensures Run(s, [PushOp] + ops + [PopOp]) == Some(s)
  {
    hide Nested, Depth;
    NestedLeaves(s[0], s, ops);
    var all := [PushOp] + ops;
    assert all[0] == PushOp && all[1..] == ops;
    assert Run(s, all) == Run([s[0]] + s, ops);
    RunSnoc(s, all, PopOp);
  }

  // ------------------------------------------------------------------ what a run leaves visible

  /** Two frames that answer every question alike. */
  ghost predicate SameSettings(f: Frame, g: Frame) {
    && (forall name, dflt :: Get(f, name, dflt) == Get(g, name, dflt))
    && (forall name, where :: Endorsed(f.endorsements, name, where) == Endorsed(g.endorsements, name, where))
  }

  /** A frame that has nothing to say. */
  ghost predicate SaysNothing(f: Frame) {
    && (forall name, dflt :: Get(f, name, dflt) == dflt)
    && (forall name, where :: !Endorsed(f.endorsements, name, where))
  }

  /** A push hides no setting and makes none, on top of the frames that were there; in a new thread the same is all there is. */
  lemma PushDuplicates(s: Stack)
    ensures |Push(s)| == |s| + 1 && Push(s)[1..] == s
    ensures |ThreadCopy(s)| == 1
    ensures if s == [] then SaysNothing(Push(s)[0]) && SaysNothing(ThreadCopy(s)[0])
            else SameSettings(Push(s)[0], s[0]) && SameSettings(ThreadCopy(s)[0], s[0])
  {
  }

  /** The operations of a run that are still in force: a pop takes back everything since the push it matches. */
  function Live(ops: seq<Op>): seq<Op> {
    if ops == [] then []
    else
      var n := |ops| - 1;
      if ops[n].PopOp? then BeforePush(Live(ops[..n])) else Live(ops[..n]) + [ops[n]]
  }

  /** What comes before the last push. */
  function BeforePush(ops: seq<Op>): seq<Op> {
    if ops == [] then []
    else if ops[|ops| - 1].PushOp? then ops[..|ops| - 1]
    else BeforePush(ops[..|ops| - 1])
  }

  function Pushes(ops: seq<Op>): nat {
    if ops == [] then 0 else Pushes(ops[..|ops| - 1]) + if ops[|ops| - 1].PushOp? then 1 else 0
  }

  /**
   * What operations leave a variable at: the last value it was set to. A name
   * of 64 characters or more is never found, but a variable that is not there
   * yet is made by one that begins with its name of 63.
   */
  function LastSet(ops: seq<Op>, name: string): Option<Option<string>> {
    if ops == [] then None
    else
      var before, op := LastSet(ops[..|ops| - 1], name), ops[|ops| - 1];
      if op.SetOp? && |name| < 64 && op.name == name then Some(op.value)
      else if op.SetOp? && |op.name| >= 64 && op.name[..63] == name && before.None? then Some(op.value)
      else before
  }

  /** An endorsement that was made for this name and a context at or above this one, each cut to 63 characters. */
  predicate Granted(ops: seq<Op>, name: string, where: string) {
    exists i :: 0 <= i < |ops| && Grants(ops[i], name, where)
  }

  predicate Grants(op: Op, name: string, where: string) {
    && op.EndorseOp?
    && name == (if |op.endorsement| < 64 then op.endorsement else op.endorsement[..63])
    && Below(where, if |op.context| < 64 then op.context else op.context[..63])
  }

  /** A frame that shows what operations have left. */
  ghost predicate Shows(f: Frame, ops: seq<Op>) {
    && (forall i :: 0 <= i < |f.variables| ==> |f.variables[i].name| < 64)
    && Stored(f)
    && (forall name :: ShowsValue(f, ops, name))
    && (forall name, where :: ShowsGrant(f, ops, name, where))
  }

  predicate ShowsValue(f: Frame, ops: seq<Op>, name: string) {
    var i := IndexOf(f.variables, name);
    LastSet(ops, name) == if i < |f.variables| then Some(f.variables[i].value) else None
  }

  /** Contexts too long for the order may have been overlooked. */
  predicate ShowsGrant(f: Frame, ops: seq<Op>, name: string, where: string) {
    && (Endorsed(f.endorsements, name, where) ==> Granted(ops, name, where))
    && (Granted(ops, name, where) && |where| < 64 ==> Endorsed(f.endorsements, name, where))
  }

  /** A stack whose frames show the history, each without the scopes above it. */
  ghost predicate Matches(s: Stack, ops: seq<Op>)
    decreases s
  {
    if s == [] then ops == []
    else |s| == Pushes(ops) && Shows(s[0], ops) && Matches(s[1..], BeforePush(ops))
  }

  /**
   * After any run the current frame holds what the operations still in force
   * say: variables the last value they were set to, since the outermost push
   * on, and endorsements all that were made.
   */
  lemma {:induction false} HistoryTells(ops: seq<Op>)
    requires Run([], ops).Some?
    ensures Matches(Run([], ops).value, Live(ops))
  {
    if ops != [] {
      var n := |ops| - 1;
      assert ops == ops[..n] + [ops[n]];
      RunSnoc([], ops[..n], ops[n]);
      HistoryTells(ops[..n]);
      StepTells(Run([], ops[..n]).value, Live(ops[..n]), ops[n]);
    }
  }

  /** In particular a read and a query give just that. */
  lemma CurrentTells(ops: seq<Op>, name: string, dflt: Option<string>, where: string)
    requires Run([], ops).Some? && Run([], ops).value != []
    ensures var f, last := Run([], ops).value[0], LastSet(Live(ops), name);
            && Get(f, name, dflt) == (if last.Some? && last.value.Some? then last.value else dflt)
            && (Endorsed(f.endorsements, name, where) ==> Granted(Live(ops), name, where))
            && (Granted(Live(ops), name, where) && |where| < 64 ==> Endorsed(f.endorsements, name, where))
  {
    HistoryTells(ops);
    var f := Run([], ops).value[0];
    assert ShowsValue(f, Live(ops), name) && ShowsGrant(f, Live(ops), name, where);
  }

  lemma StepTells(s: Stack, live: seq<Op>, op: Op)
    requires Matches(s, live) && Do(s, op).Some?
    ensures Matches(Do(s, op).value, if op.PopOp? then BeforePush(live) else live + [op])
  {
    hide Shows, Set, Endorse;
    if !op.PopOp? {
      var more := live + [op];
      assert more[..|more| - 1] == live && more[|more| - 1] == op;
      match op
      case PushOp =>
        if s == [] {
          EmptyShows();
        }
        PushShows(if s == [] then Frame([], []) else s[0], live);
      case SetOp(n, v) => SetShows(s[0], live, n, v);
      case EndorseOp(e, c) => EndorseShows(s[0], live, e, c);
    }
  }

  lemma EmptyShows()
    ensures Shows(Frame([], []), [])
  {
  }

  lemma PushShows(f: Frame, ops: seq<Op>)
    requires Shows(f, ops)
    ensures Shows(f, ops + [PushOp])
  {
    var more := ops + [PushOp];
    assert more[..|ops|] == ops;
    forall name
      ensures ShowsValue(f, more, name)
    {
      assert ShowsValue(f, ops, name);
    }
    forall name, where
      ensures ShowsGrant(f, more, name, where)
    {
      assert ShowsGrant(f, ops, name, where);
      GrantedSnoc(ops, PushOp, name, where);
    }
  }

  lemma GrantedSnoc(ops: seq<Op>, op: Op, name: string, where: string)
    ensures Granted(ops + [op], name, where) <==> Granted(ops, name, where) || Grants(op, name, where)
  {
    hide Grants;
    var more := ops + [op];
    if Granted(ops, name, where) {
      var i :| 0 <= i < |ops| && Grants(ops[i], name, where);
      assert Grants(more[i], name, where);
    }
    assert more[|ops|] == op;
  }

  lemma SetShows(f: Frame, ops: seq<Op>, n: string, v: Option<string>)
    requires Shows(f, ops)
    ensures Shows(Set(f, n, v), ops + [SetOp(n, v)])
  {
    var more := ops + [SetOp(n, v)];
    assert more[..|ops|] == ops;
    var g := Set(f, n, v);
    forall name
      ensures ShowsValue(g, more, name)
    {
      assert ShowsValue(f, ops, name);
      SetShowsValue(f, ops, n, v, name);
    }
    forall name, where
      ensures ShowsGrant(g, more, name, where)
    {
      assert ShowsGrant(f, ops, name, where);
      GrantedSnoc(ops, SetOp(n, v), name, where);
    }
  }

  lemma SetShowsValue(f: Frame, ops: seq<Op>, n: string, v: Option<string>, name: string)
    requires forall i :: 0 <= i < |f.variables| ==> |f.variables[i].name| < 64
    requires ShowsValue(f, ops, name)
    ensures ShowsValue(Set(f, n, v), ops + [SetOp(n, v)], name)
  {
    var more := ops + [SetOp(n, v)];
    assert more[..|ops|] == ops;
    var vs, us := f.variables, Set(f, n, v).variables;
    var i, j := IndexOf(vs, n), IndexOf(vs, name);
    if j < |vs| {
      IndexIs(us, name, j);
    } else if i == |vs| {
      IndexIs(us, name, if Cut(n) == name then |vs| else |us|);
    } else {
      IndexIs(us, name, |us|);
    }
  }

  lemma EndorseShows(f: Frame, ops: seq<Op>, e: string, c: string)
    requires Shows(f, ops)
    ensures Shows(Endorse(f, e, c), ops + [EndorseOp(e, c)])
  {
    hide Granted, Endorsed, Below;
    var op := EndorseOp(e, c);
    var more := ops + [op];
    assert more[..|ops|] == ops;
    var g := Endorse(f, e, c);
    EndorseStores(f, e, c);
    forall name
      ensures ShowsValue(g, more, name)
    {
      assert ShowsValue(f, ops, name);
    }
    forall name, where
      ensures ShowsGrant(g, more, name, where)
    {
      assert ShowsGrant(f, ops, name, where);
      GrantedSnoc(ops, op, name, where);
      EndorsementLaw(f, e, c, name, where);
      assert Grants(op, name, where) <==> name == Cut(e) && Below(where, Cut(c));
    }
  }
}
