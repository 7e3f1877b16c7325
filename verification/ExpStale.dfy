/**
 * Runs from a compiled expression and an empty parameter list that end with a
 * value the expression has not got.
 */
module ExpStale {
  import opened Options
  import opened ExpTree
  import opened ExpFail
  import opened ExpRun

  function NoStamps(): (z: seq<nat>)
    ensures |z| == MAX_PARAMS && forall i :: 0 <= i < MAX_PARAMS ==> z[i] == 0
  {
    seq(MAX_PARAMS, i => 0)
  }

  const BLANK: Cache := Cache(Null(IntegerType), false)

  /** A compiled expression and an empty parameter list, before any stamp was given out. */
  function Start(t: Tree): World {
    World(t, Control(0, NoStamps()), Params(map[], {}, 0, NoStamps(), 1, false), 1, 2)
  }

  lemma StartIsCompiled(t: Tree)
    requires Covers(t) && AllNew(t)
    ensures JustCompiled(Start(t))
  {
  }

  lemma Advance(steps: seq<Step>, i: nat, w: World, v: World)
    requires i < |steps| && Shaped(w) && Allowed(w, steps[i]) && Do(w, steps[i]) == Some(v)
    ensures Shaped(v) && Run(w, steps[i..]) == Run(v, steps[i + 1..])
  {
    hide Do, Allowed;
    assert steps[i..][0] == steps[i] && steps[i..][1..] == steps[i + 1..];
  }

  lemma Arrive(steps: seq<Step>, w: World)
    requires Shaped(w)
    ensures Run(w, steps[|steps|..]) == Some(w) && steps[0..] == steps
  {
  }

  // ------------------------------------------------------------------ a failure: a AND 6 / y, for attribute a of object 0 and y of object 1

  function Flag(a: int): Tree {
    Node(Property(0, "a"), [], {0}, {}, false, Cache(Int(a), false))
  }

  function Below(y: int): Tree {
    Node(Property(1, "y"), [], {1}, {}, false, Cache(Int(y), false))
  }

  function Six(): Tree {
    Node(Const, [], {}, {}, false, Cache(Int(6), false))
  }

  function Ratio(value: int, delay: Mask, y: int): Tree {
    Node(Divide, [Six(), Below(y)], {1}, delay, false, Cache(Int(value), false))
  }

  function Guarded(a: int, ratio: Tree, value: int): Tree {
    Node(And, [Flag(a), ratio], {0, 1}, {}, false, Cache(Int(value), false))
  }

  function FreshRatio(): Tree {
    Node(Divide, [Node(Const, [], {}, {}, true, Cache(Int(6), false)), Node(Property(1, "y"), [], {1}, {}, true, BLANK)],
         {1}, {}, true, BLANK)
  }

  function FreshGuarded(): Tree {
    Node(And, [Node(Property(0, "a"), [], {0}, {}, true, BLANK), FreshRatio()], {0, 1}, {}, true, BLANK)
  }

  function A(a: int): map<string, Value> {
    map["a" := Int(a)]
  }

  function Y(y: int): map<string, Value> {
    map["y" := Int(y)]
  }

  function Attributes(a: int, y: int): Env {
    map[0 := A(a), 1 := Y(y)]
  }

  /** Both objects there, with their values and stamps. */
  function Stage(t: Tree, c: Control, a: int, y: int, s: nat, s': nat, next: nat): World {
    World(t, c, Params(Attributes(a, y), {0, 1}, 2, Pair(s, s'), 1, false), next, 2)
  }

  function Pair(s: nat, s': nat): (r: seq<nat>)
    ensures |r| == MAX_PARAMS && r[0] == s && r[1] == s' && forall i :: 2 <= i < MAX_PARAMS ==> r[i] == 0
  {
    NoStamps()[0 := s][1 := s']
  }

  const SEEN: Mask := {EXTREF_BIT, 0, INDETERMINATE_BIT}
  const BOTH: Mask := {EXTREF_BIT, 0, 1, INDETERMINATE_BIT}

  /** The first evaluation, with a true and y three. */
  lemma RatioFirst(mask: Mask)
    ensures Eval(FreshRatio(), Attributes(1, 3), mask, false) == Some(Ratio(2, {}, 3))
  {
    FewOperands(FreshRatio().kids, Attributes(1, 3), mask + {}, false);
  }

  lemma GuardedFirst(mask: Mask)
    ensures Eval(FreshGuarded(), Attributes(1, 3), mask, false) == Some(Guarded(1, Ratio(2, {}, 3), 1))
  {
    var t, flag, ratio := FreshGuarded(), Flag(1), Ratio(2, {}, 3);
    RatioFirst(mask);
    hide Operated, Combined, FreshRatio, EvalUntil, Joined;
    JunctionOfTwo(And, t.kids[0], t.kids[1], flag, ratio, Attributes(1, 3), mask);
    JoinedTwo(flag.cache, ratio.cache);
    JunctionIs(t, Attributes(1, 3), mask, [flag, ratio], Cache(Int(1), false));
  }

  /** A junction whose operands are known. */
  lemma JunctionIs(t: Tree, env: Env, mask: Mask, ks: seq<Tree>, c: Cache)
    requires IsJunction(t.kind) && t.delay == {} && (t.isNew || !(t.cov !! mask))
    requires EvalUntil(t.kind, t.kids, env, mask, false, false) == Some(ks) && Joined(t.kind, Caches(ks)) == c
    ensures Eval(t, env, mask, false) == Some(Refreshed(t, ks, c))
  {
    hide EvalUntil, Joined;
    assert mask + {} == mask;
  }

  /** Two operands of which none decides. */
  lemma JunctionOfTwo(k: Kind, t: Tree, u: Tree, t': Tree, u': Tree, env: Env, mask: Mask)
    requires IsJunction(k) && Eval(t, env, mask, false) == Some(t') && Eval(u, env, mask, false) == Some(u')
    requires IsBoolean(t'.cache) && IsBoolean(u'.cache) && !Decides(k, t'.cache)
    ensures EvalUntil(k, [t, u], env, mask, false, false) == Some([t', u'])
    ensures Caches([t', u']) == [t'.cache, u'.cache]
  {
    hide Eval;
    assert [t, u][1..] == [u] && [u][1..] == [];
    assert EvalUntil(k, [], env, mask, false, Decides(k, u'.cache)) == Some([]) && [u'] + [] == [u'];
    assert EvalUntil(k, [u], env, mask, false, false) == Some([u']);
    assert [t'] + [u'] == [t', u'];
  }

  /** Two true operands. */
  lemma JoinedTwo(c: Cache, d: Cache)
    requires c.value.Int? && d.value.Int? && c.value.i != 0 && d.value.i != 0 && !c.indet && !d.indet
    ensures Joined(And, [c, d]) == Cache(Int(1), false)
  {
    assert [c, d][1..] == [d] && [d][1..] == [];
    assert Joined(And, [d]) == Cache(Truth(true), false);
  }

  /** With a false and y zero, y is not looked at. */
  lemma GuardedDefers()
    ensures Eval(Guarded(1, Ratio(2, {}, 3), 1), Attributes(0, 0), BOTH, false) == Some(Guarded(0, Ratio(2, {1}, 3), 0))
  {
    var t, flag, ratio := Guarded(1, Ratio(2, {}, 3), 1), Flag(0), Ratio(2, {1}, 3);
    assert {} + BOTH * {1} == {1};
    assert Deferred(Ratio(2, {}, 3), BOTH) == ratio;
    assert Eval(Flag(1), Attributes(0, 0), BOTH, false) == Some(flag);
    hide Operated, Combined, Eval;
    OneDecides(And, Flag(1), Ratio(2, {}, 3), flag, Attributes(0, 0), BOTH);
    assert Joined(And, [flag.cache, ratio.cache]) == Cache(Int(0), false);
    JunctionIs(t, Attributes(0, 0), BOTH, [flag, ratio], Cache(Int(0), false));
  }

  /** Two operands of which the first decides. */
  lemma OneDecides(k: Kind, t: Tree, u: Tree, t': Tree, env: Env, mask: Mask)
    requires IsJunction(k) && Eval(t, env, mask, false) == Some(t') && IsBoolean(t'.cache) && Decides(k, t'.cache)
    ensures EvalUntil(k, [t, u], env, mask, false, false) == Some([t', Deferred(u, mask)])
    ensures Caches([t', Deferred(u, mask)]) == [t'.cache, u.cache]
  {
    hide Eval;
    assert [t, u][1..] == [u] && [u][1..] == [];
    assert EvalUntil(k, [], env, mask, false, true) == Some([]) && [Deferred(u, mask)] + [] == [Deferred(u, mask)];
    assert EvalUntil(k, [u], env, mask, false, true) == Some([Deferred(u, mask)]);
    assert [t'] + [Deferred(u, mask)] == [t', Deferred(u, mask)];
  }

  lemma RatioFails()
    ensures Eval(Ratio(2, {1}, 3), Attributes(1, 0), SEEN, false).None?
    ensures Wreck(Ratio(2, {1}, 3), Ratio(-1, {}, 0), Attributes(1, 0), SEEN + {1}, false)
  {
  }

  /** With a true again, y is looked at and the division fails... */
  lemma GuardedFails()
    ensures var t := Guarded(0, Ratio(2, {1}, 3), 0);
            && Eval(t, Attributes(1, 0), SEEN, false).None?
            && Wreck(t, Guarded(1, Ratio(-1, {}, 0), 0), Attributes(1, 0), SEEN + {}, false)
  {
    RatioFails();
    hide Operated;
    var t := Guarded(0, Ratio(2, {1}, 3), 0);
    assert t.kids[1..] == [Ratio(2, {1}, 3)];
    assert Eval(Flag(0), Attributes(1, 0), SEEN, false) == Some(Flag(1));
  }

  /** ...and the next evaluation passes it over. */
  lemma GuardedPasses()
    ensures Eval(Guarded(1, Ratio(-1, {}, 0), 0), Attributes(1, 0), SEEN, false) == Some(Guarded(1, Ratio(-1, {}, 0), 1))
  {
    var t, flag, ratio := Guarded(1, Ratio(-1, {}, 0), 0), Flag(1), Ratio(-1, {}, 0);
    assert Eval(flag, Attributes(1, 0), SEEN, false) == Some(flag);
    assert Eval(ratio, Attributes(1, 0), SEEN, false) == Some(ratio);
    hide Operated, Combined, Eval;
    JunctionOfTwo(And, flag, ratio, flag, ratio, Attributes(1, 0), SEEN);
    JoinedTwo(flag.cache, ratio.cache);
    JunctionIs(t, Attributes(1, 0), SEEN, [flag, ratio], Cache(Int(1), false));
  }

  lemma RatioHasNone()
    ensures Scratch(Ratio(-1, {}, 0), Attributes(1, 0)).None?
  {
  }

  lemma GuardedHasNone()
    ensures Scratch(Guarded(1, Ratio(-1, {}, 0), 1), Attributes(1, 0)).None?
  {
    RatioHasNone();
    hide Combined;
    var t := Guarded(1, Ratio(-1, {}, 0), 1);
    assert t.kids[1..] == [Ratio(-1, {}, 0)];
  }

  lemma FreshIsCompiled()
    ensures JustCompiled(Start(FreshGuarded()))
  {
    var t, ratio := FreshGuarded(), FreshRatio();
    assert t.kids[1..] == [ratio] && ratio.kids[1..] == [ratio.kids[1]];
    assert Covers(ratio) && AllNew(ratio);
    assert Covers(t) && AllNew(t);
    hide Covers, AllNew, FreshGuarded;
    StartIsCompiled(t);
  }

  /** Stamps that moved. */
  lemma StageSees(w: World, t: nat, t': nat)
    requires w.params.seqs == Pair(t, t') && w.params.nObjects == 2 && Shaped(w)
    requires w.control.pSeq == w.params.pSeq && |w.control.objSeq| == MAX_PARAMS && w.control.objSeq[1] == t'
    ensures w.control.objSeq[0] != t ==> ChangeMask(w.control, w.params) == SEEN
  {
    if w.control.objSeq[0] != t {
      assert Stale(w.control, w.params) == {0};
      assert 0 in Bits(MAX_PARAMS);
    }
  }

  lemma StageSeesBoth(w: World)
    requires w.params.seqs == Pair(3, 4) && w.params.nObjects == 2 && Shaped(w)
    requires w.control == Control(w.params.pSeq, Pair(1, 2))
    ensures ChangeMask(w.control, w.params) == BOTH
  {
    assert Stale(w.control, w.params) == {0, 1};
    assert 0 in Bits(MAX_PARAMS);
  }

  /** The stages of the run: loaded, evaluated, changed, evaluated, changed again, failed. */
  function Loaded(): World {
    Stage(FreshGuarded(), Control(0, NoStamps()), 1, 3, 1, 2, 3)
  }

  function EvaluatedOnce(): World {
    Stage(Guarded(1, Ratio(2, {}, 3), 1), Control(1, Pair(1, 2)), 1, 3, 1, 2, 3)
  }

  function ChangedTwice(): World {
    Stage(Guarded(1, Ratio(2, {}, 3), 1), Control(1, Pair(1, 2)), 0, 0, 3, 4, 5)
  }

  function EvaluatedTwice(): World {
    Stage(Guarded(0, Ratio(2, {1}, 3), 0), Control(1, Pair(3, 4)), 0, 0, 3, 4, 5)
  }

  function ChangedAgain(t: Tree): World {
    Stage(t, Control(1, Pair(3, 4)), 1, 0, 5, 4, 6)
  }

  /** Two additions set the stage. */
  lemma Loading(t: Tree, a: int, y: int) returns (v: World)
    ensures var w := Start(t); Shaped(w) && Allowed(w, Add(Some(A(a)))) && Do(w, Add(Some(A(a)))) == Some(v)
    ensures Shaped(v) && Allowed(v, Add(Some(Y(y))))
    ensures Do(v, Add(Some(Y(y)))) == Some(Stage(t, Control(0, NoStamps()), a, y, 1, 2, 3))
  {
    v := Do(Start(t), Add(Some(A(a)))).value;
    assert FirstFree({}, 0) == 0;
    assert FirstFree({0}, 0) == 1;
    assert {} + {0} == {0} && {0} + {1} == {0, 1};
    assert Stored(Stored(map[], 0, Some(A(a))), 1, Some(Y(y))) == Attributes(a, y);
  }

  lemma StageShaped(t: Tree, c: Control, a: int, y: int, s: nat, s': nat, next: nat)
    requires |c.objSeq| == MAX_PARAMS
    ensures Shaped(Stage(t, c, a, y, s, s', next))
  {
  }

  /** An evaluation on stage. */
  lemma StageEvaluates(t: Tree, c: Control, a: int, y: int, s: nat, s': nat, next: nat, t': Tree)
    requires |c.objSeq| == MAX_PARAMS && Shaped(Stage(t, c, a, y, s, s', next))
    requires var w := Stage(t, c, a, y, s, s', next); Eval(t, Attributes(a, y), ChangeMask(c, w.params), false) == Some(t')
    ensures var w := Stage(t, c, a, y, s, s', next);
            Allowed(w, Evaluate) && Do(w, Evaluate) == Some(Stage(t', Control(1, Pair(s, s')), a, y, s, s', next))
  {
    hide Eval, ChangeMask, Attributes, Pair, Shaped;
    EvaluatedFrom(Stage(t, c, a, y, s, s', next));
  }

  lemma FirstEvaluation()
    ensures Shaped(Loaded()) && Allowed(Loaded(), Evaluate) && Do(Loaded(), Evaluate) == Some(EvaluatedOnce())
  {
    hide Eval, ChangeMask, FreshGuarded, Guarded, Attributes, Pair, Do, Allowed, Shaped;
    StageShaped(FreshGuarded(), Control(0, NoStamps()), 1, 3, 1, 2, 3);
    GuardedFirst(ChangeMask(Loaded().control, Loaded().params));
    StageEvaluates(FreshGuarded(), Control(0, NoStamps()), 1, 3, 1, 2, 3, Guarded(1, Ratio(2, {}, 3), 1));
  }

  lemma Changing() returns (v: World)
    ensures Allowed(EvaluatedOnce(), Modify(0, Some(A(0)))) && Do(EvaluatedOnce(), Modify(0, Some(A(0)))) == Some(v)
    ensures Shaped(v) && Allowed(v, Modify(1, Some(Y(0)))) && Do(v, Modify(1, Some(Y(0)))) == Some(ChangedTwice())
  {
    hide Guarded, Ratio;
    v := Do(EvaluatedOnce(), Modify(0, Some(A(0)))).value;
    assert Stored(Stored(Attributes(1, 3), 0, Some(A(0))), 1, Some(Y(0))) == Attributes(0, 0);
    assert Pair(1, 2)[0 := 3][1 := 4] == Pair(3, 4);
  }

  lemma SecondEvaluation()
    ensures Shaped(ChangedTwice()) && Allowed(ChangedTwice(), Evaluate) && Do(ChangedTwice(), Evaluate) == Some(EvaluatedTwice())
  {
    StageShaped(Guarded(1, Ratio(2, {}, 3), 1), Control(1, Pair(1, 2)), 0, 0, 3, 4, 5);
    StageSeesBoth(ChangedTwice());
    GuardedDefers();
    hide Eval, ChangeMask, Guarded, Ratio, Attributes, Pair, Do, Allowed, Shaped;
    StageEvaluates(Guarded(1, Ratio(2, {}, 3), 1), Control(1, Pair(1, 2)), 0, 0, 3, 4, 5, Guarded(0, Ratio(2, {1}, 3), 0));
  }

  lemma ChangingBack()
    ensures Allowed(EvaluatedTwice(), Modify(0, Some(A(1))))
    ensures Do(EvaluatedTwice(), Modify(0, Some(A(1)))) == Some(ChangedAgain(Guarded(0, Ratio(2, {1}, 3), 0)))
  {
    hide Guarded, Ratio;
    assert Stored(Attributes(0, 0), 0, Some(A(1))) == Attributes(1, 0);
    assert Pair(3, 4)[0 := 5] == Pair(5, 4);
  }

  lemma AgainSees(t: Tree)
    ensures Shaped(ChangedAgain(t)) && ChangeMask(ChangedAgain(t).control, ChangedAgain(t).params) == SEEN
  {
    StageShaped(t, Control(1, Pair(3, 4)), 1, 0, 5, 4, 6);
    StageSees(ChangedAgain(t), 5, 4);
  }

  /** A failure on stage. */
  lemma StageFails(t: Tree, c: Control, a: int, y: int, s: nat, s': nat, next: nat, u: Tree)
    requires |c.objSeq| == MAX_PARAMS && Shaped(Stage(t, c, a, y, s, s', next))
    requires var m := ChangeMask(c, Stage(t, c, a, y, s, s', next).params);
             Eval(t, Attributes(a, y), m, false).None? && Wreck(t, u, Attributes(a, y), m + t.delay, false)
    ensures var w := Stage(t, c, a, y, s, s', next);
            Allowed(w, Fail(u)) && Do(w, Fail(u)) == Some(Stage(u, c, a, y, s, s', next))
  {
    hide Eval, Wreck, ChangeMask, Attributes, Pair, Shaped;
  }

  lemma Failing(u: Tree)
    requires u == Guarded(1, Ratio(-1, {}, 0), 0)
    ensures var w := ChangedAgain(Guarded(0, Ratio(2, {1}, 3), 0));
            Shaped(w) && Allowed(w, Fail(u)) && Do(w, Fail(u)) == Some(ChangedAgain(u))
  {
    var t := Guarded(0, Ratio(2, {1}, 3), 0);
    AgainSees(t);
    GuardedFails();
    assert t.delay == {};
    hide Eval, ChangeMask, Guarded, Ratio, Wreck, Attributes, Pair, Shaped, Do, Allowed;
    StageFails(t, Control(1, Pair(3, 4)), 1, 0, 5, 4, 6, u);
  }

  lemma Retrying(u: Tree) returns (w: World)
    requires u == Guarded(1, Ratio(-1, {}, 0), 0)
    ensures Shaped(ChangedAgain(u)) && Allowed(ChangedAgain(u), Evaluate) && Do(ChangedAgain(u), Evaluate) == Some(w)
    ensures w.tree == Guarded(1, Ratio(-1, {}, 0), 1) && w.params.env == Attributes(1, 0) && Shaped(w)
  {
    AgainSees(u);
    GuardedPasses();
    hide Eval, ChangeMask, Guarded, Ratio, Attributes, Pair, Do, Allowed;
    StageEvaluates(u, Control(1, Pair(3, 4)), 1, 0, 5, 4, 6, Guarded(1, Ratio(-1, {}, 0), 1));
    w := Do(ChangedAgain(u), Evaluate).value;
  }

  /**
   * A failure drops the delayed changes of the nodes it passes through. With a
   * false, y becomes zero and is not looked at; when a becomes true again the
   * division fails, and the same evaluation done again succeeds, with a value
   * the expression has not got.
   */
  lemma FailureForgets() returns (w: World, u: Tree, w': World)
    ensures JustCompiled(w)
    ensures Run(w, [Add(Some(A(1))), Add(Some(Y(3))), Evaluate,
                    Modify(0, Some(A(0))), Modify(1, Some(Y(0))), Evaluate,
                    Modify(0, Some(A(1))), Fail(u), Evaluate]) == Some(w')
    ensures w'.tree.cache == Cache(Int(1), false)
    ensures Scratch(w'.tree, w'.params.env) == None
  {
    hide Do, Allowed, JustCompiled, Scratch, Run, FreshGuarded, Ratio;
    FreshIsCompiled();
    w := Start(FreshGuarded());
    u := Guarded(1, Ratio(-1, {}, 0), 0);
    var ss := [Add(Some(A(1))), Add(Some(Y(3))), Evaluate,
               Modify(0, Some(A(0))), Modify(1, Some(Y(0))), Evaluate,
               Modify(0, Some(A(1))), Fail(u), Evaluate];
    var v := Loading(FreshGuarded(), 1, 3);
    var x := Changing();
    FirstEvaluation();
    SecondEvaluation();
    ChangingBack();
    Failing(u);
    w' := Retrying(u);
    Advance(ss, 0, w, v);
    Advance(ss, 1, v, Loaded());
    Advance(ss, 2, Loaded(), EvaluatedOnce());
    Advance(ss, 3, EvaluatedOnce(), x);
    Advance(ss, 4, x, ChangedTwice());
    Advance(ss, 5, ChangedTwice(), EvaluatedTwice());
    Advance(ss, 6, EvaluatedTwice(), ChangedAgain(Guarded(0, Ratio(2, {1}, 3), 0)));
    Advance(ss, 7, ChangedAgain(Guarded(0, Ratio(2, {1}, 3), 0)), ChangedAgain(u));
    Advance(ss, 8, ChangedAgain(u), w');
    Arrive(ss, w');
    GuardedHasNone();
  }

  // ------------------------------------------------------------------ removals

  /** A reference to an attribute of one of the objects on stage. */
  function Reference(i: nat, name: string, isNew: bool, c: Cache): Tree {
    Node(Property(i, name), [], {i}, {}, isNew, c)
  }

  lemma ReferenceVisited(i: nat, name: string, v: int, env: Env, mask: Mask)
    requires i in env && name in env[i] && env[i][name] == Int(v)
    ensures Eval(Reference(i, name, true, BLANK), env, mask, false) == Some(Reference(i, name, false, Cache(Int(v), false)))
    ensures Covers(Reference(i, name, true, BLANK)) && AllNew(Reference(i, name, true, BLANK))
  {
  }

  lemma ReferenceEvaluates(i: nat, name: string, v: int, a: int, y: int) returns (w: World)
    requires i < 2 && name in Attributes(a, y)[i] && Attributes(a, y)[i][name] == Int(v)
    ensures JustCompiled(Start(Reference(i, name, true, BLANK)))
    ensures var w0 := Stage(Reference(i, name, true, BLANK), Control(0, NoStamps()), a, y, 1, 2, 3);
            Shaped(w0) && Allowed(w0, Evaluate) && Do(w0, Evaluate) == Some(w)
    ensures w == Stage(Reference(i, name, false, Cache(Int(v), false)), Control(1, Pair(1, 2)), a, y, 1, 2, 3)
  {
    hide Eval, ChangeMask, Pair, Do, Allowed, Shaped, JustCompiled, Reference, Covers, AllNew;
    var t, u := Reference(i, name, true, BLANK), Reference(i, name, false, Cache(Int(v), false));
    var m := ChangeMask(Control(0, NoStamps()), Stage(t, Control(0, NoStamps()), a, y, 1, 2, 3).params);
    ReferenceVisited(i, name, v, Attributes(a, y), m);
    StartIsCompiled(t);
    StageShaped(t, Control(0, NoStamps()), a, y, 1, 2, 3);
    StageEvaluates(t, Control(0, NoStamps()), a, y, 1, 2, 3, u);
    w := Stage(u, Control(1, Pair(1, 2)), a, y, 1, 2, 3);
  }

  lemma ReferenceIsSettled(i: nat, name: string, v: int, a: int, y: int)
    requires i < 2 && name in Attributes(a, y)[i] && Attributes(a, y)[i][name] == Int(v)
    ensures Settled(Stage(Reference(i, name, false, Cache(Int(v), false)), Control(1, Pair(1, 2)), a, y, 1, 2, 3))
  {
  }

  /** A reference does not notice that its object has gone, and should be NULL. */
  lemma RemoveLeavesStale() returns (w: World, w': World)
    ensures JustCompiled(w)
    ensures Run(w, [Add(Some(A(5))), Add(Some(Y(0))), Evaluate, Remove(0), Evaluate]) == Some(w')
    ensures w'.tree.cache == Cache(Int(5), false)
    ensures Scratch(w'.tree, w'.params.env) == Some(Cache(Null(IntegerType), false))
  {
    hide Evaluated, Sound, Settled, JustCompiled, Run, Pair, ChangeMask;
    var t := Reference(0, "a", true, BLANK);
    w := Start(t);
    var v := Loading(t, 5, 0);
    var x := ReferenceEvaluates(0, "a", 5, 5, 0);
    ReferenceIsSettled(0, "a", 5, 5, 0);
    SettledIsSound(x);
    RemoveIsUnseen(x, 0);
    var u := Do(x, Remove(0)).value;
    EvaluateKeepsObjects(u);
    w' := Evaluated(u).value;
    var ss := [Add(Some(A(5))), Add(Some(Y(0))), Evaluate, Remove(0), Evaluate];
    hide *;
    Advance(ss, 0, w, v);
    Advance(ss, 1, v, Stage(t, Control(0, NoStamps()), 5, 0, 1, 2, 3));
    Advance(ss, 2, Stage(t, Control(0, NoStamps()), 5, 0, 1, 2, 3), x);
    Advance(ss, 3, x, u);
    Advance(ss, 4, u, w');
    Arrive(ss, w');
  }

  /** Nor that its attribute has become 6, in a slot that is no longer counted. */
  lemma LastSlotLeavesStale() returns (w: World, w': World)
    ensures JustCompiled(w)
    ensures Run(w, [Add(Some(A(0))), Add(Some(Y(5))), Evaluate, Remove(0), Modify(1, Some(Y(6))), Evaluate]) == Some(w')
    ensures w'.tree.cache == Cache(Int(5), false)
    ensures Scratch(w'.tree, w'.params.env) == Some(Cache(Int(6), false))
  {
    hide Evaluated, Sound, Settled, JustCompiled, Run, Pair, ChangeMask;
    var t := Reference(1, "y", true, BLANK);
    w := Start(t);
    var v := Loading(t, 0, 5);
    var x := ReferenceEvaluates(1, "y", 5, 0, 5);
    ReferenceIsSettled(1, "y", 5, 0, 5);
    SettledIsSound(x);
    LastSlotIsUnseen(x, 0, Some(Y(6)));
    var u := Do(x, Remove(0)).value;
    var z := Do(u, Modify(1, Some(Y(6)))).value;
    EvaluateKeepsObjects(z);
    w' := Evaluated(z).value;
    var ss := [Add(Some(A(0))), Add(Some(Y(5))), Evaluate, Remove(0), Modify(1, Some(Y(6))), Evaluate];
    hide *;
    Advance(ss, 0, w, v);
    Advance(ss, 1, v, Stage(t, Control(0, NoStamps()), 0, 5, 1, 2, 3));
    Advance(ss, 2, Stage(t, Control(0, NoStamps()), 0, 5, 1, 2, 3), x);
    Advance(ss, 3, x, u);
    Advance(ss, 4, u, z);
    Advance(ss, 5, z, w');
    Arrive(ss, w');
  }
}
