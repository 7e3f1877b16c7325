/**
 * An expression together with the parameter objects it is evaluated against:
 * sequence numbers say which objects changed since the last evaluation that
 * succeeded, and the evaluator is told only about those.
 */
module ExpRun {
  import opened Options
  import opened ExpTree
  import opened ExpFail

  /** The sequence numbers an expression remembers from its last successful evaluation. */
  datatype Control = Control(pSeq: nat, objSeq: seq<nat>)

  /** The parameter object list: slots in use, with or without an object, and how many there are. */
  datatype Params = Params(env: Env, used: set<nat>, nObjects: nat, seqs: seq<nat>, pSeq: nat, recalc: bool)

  /** nextMod and nextP are the evaluator's global counters, from which every stamp is taken. */
  datatype World = World(tree: Tree, control: Control, params: Params, nextMod: nat, nextP: nat)

  /** An object with its attributes, or none. */
  type Slot = Option<map<string, Value>>

  function Stored(env: Env, i: nat, o: Slot): Env {
    if o.Some? then env[i := o.value] else env - {i}
  }

  /** The first slot from i on that is not in use. */
  function FirstFree(used: set<nat>, i: nat): (k: nat)
    requires i <= MAX_PARAMS
    ensures i <= k <= MAX_PARAMS
    ensures k < MAX_PARAMS ==> k !in used
    ensures forall j :: i <= j < k ==> j in used
    decreases MAX_PARAMS - i
  {
    if i == MAX_PARAMS || i !in used then i else FirstFree(used, i + 1)
  }

  /** A set that contains the first n numbers has at least n. */
  lemma {:induction false} AtLeast(used: set<nat>, n: nat)
    requires forall j: nat :: j < n ==> j in used
    ensures |used| >= n
  {
    if n > 0 {
      AtLeast(used - {n - 1}, n - 1);
    }
  }

  /** There is a free slot while the count is below the number of slots, and it is no higher than the count. */
  lemma FreeSlot(used: set<nat>)
    ensures FirstFree(used, 0) <= |used|
  {
    AtLeast(used, FirstFree(used, 0));
  }

  /** The objects whose stamp differs from the one remembered. */
  function Stale(c: Control, p: Params): (m: Mask)
    requires |c.objSeq| == |p.seqs| && p.nObjects <= |p.seqs|
    ensures forall i :: i in m <==> 0 <= i < p.nObjects && p.seqs[i] != c.objSeq[i]
  {
    StaleBelow(c, p, p.nObjects)
  }

  function StaleBelow(c: Control, p: Params, n: nat): (m: Mask)
    requires |c.objSeq| == |p.seqs| && n <= |p.seqs|
    ensures forall i :: i in m <==> 0 <= i < n && p.seqs[i] != c.objSeq[i]
  {
    if n == 0 then {}
    else StaleBelow(c, p, n - 1) + if p.seqs[n - 1] != c.objSeq[n - 1] then {n - 1} else {}
  }

  /** The mask an evaluation starts with. */
  function ChangeMask(c: Control, p: Params): Mask
    requires |c.objSeq| == |p.seqs| && p.nObjects <= |p.seqs|
  {
    var m := {EXTREF_BIT} + if c.pSeq != p.pSeq then Bits(32) else Stale(c, p);
    if m !! Bits(MAX_PARAMS) then m else m + {INDETERMINATE_BIT}
  }

  // ------------------------------------------------------------------ steps

  datatype Step =
    | Modify(slot: nat, obj: Slot)
    | Add(newObj: Slot)
    | ChangeAll(env: Env)
    | Recalc
    | Evaluate
    | Fail(wreck: Tree)
    | Remove(gone: nat)

  /** Stamps a slot that received a new or modified object. */
  function Stamped(w: World, i: nat, o: Slot, used: set<nat>, n: nat): World
    requires i < |w.params.seqs|
  {
    w.(params := w.params.(env := Stored(w.params.env, i, o), used := used, nObjects := n, seqs := w.params.seqs[i := w.nextMod]),
       nextMod := w.nextMod + 1)
  }

  /** A successful evaluation remembers the current stamps; a failed one changes none. */
  function Evaluated(w: World): (r: Option<World>)
    requires Shaped(w)
    ensures r.Some? ==> Shaped(r.value)
  {
    var t := Eval(w.tree, w.params.env, ChangeMask(w.control, w.params), w.params.recalc);
    if t.None? then None
    else Some(w.(tree := t.value, control := Control(w.params.pSeq, w.params.seqs), params := w.params.(recalc := false)))
  }

  lemma EvaluatedFrom(w: World)
    requires Shaped(w)
    ensures var t := Eval(w.tree, w.params.env, ChangeMask(w.control, w.params), w.params.recalc);
            Evaluated(w) ==
            if t.None? then None
            else
              var p := w.params;
              Some(World(t.value, Control(p.pSeq, p.seqs), Params(p.env, p.used, p.nObjects, p.seqs, p.pSeq, false), w.nextMod, w.nextP))
  {
    hide Eval, ChangeMask;
  }

  predicate Shaped(w: World) {
    && |w.params.seqs| == |w.control.objSeq| == MAX_PARAMS
    && w.params.nObjects == |w.params.used| <= MAX_PARAMS
    && forall i :: i in w.params.used ==> i < MAX_PARAMS
  }

  /**
   * The steps a caller may take: only slots in use are modified or removed, and
   * only MAX_PARAMS are there. An evaluation that fails is a step of its own,
   * with what it leaves of the tree.
   */
  predicate Allowed(w: World, s: Step)
    requires Shaped(w)
  {
    match s
    case Modify(i, _) => i in w.params.used
    case Add(_) => w.params.nObjects < MAX_PARAMS
    case ChangeAll(env) => forall i :: i in env ==> i in w.params.used
    case Remove(i) => i in w.params.used
    case Recalc => true
    case Evaluate => true
    case Fail(u) =>
      var m := ChangeMask(w.control, w.params);
      Eval(w.tree, w.params.env, m, w.params.recalc).None?
      && Wreck(w.tree, u, w.params.env, m + w.tree.delay, w.params.recalc)
  }

  function Do(w: World, s: Step): (r: Option<World>)
    requires Shaped(w) && Allowed(w, s)
    ensures r.Some? ==> Shaped(r.value)
  {
    var p := w.params;
    match s
    case Modify(i, o) => Some(Stamped(w, i, o, p.used, p.nObjects))
    case Add(o) =>
      FreeSlot(p.used);
      var i := FirstFree(p.used, 0);
      Some(Stamped(w, i, o, p.used + {i}, p.nObjects + 1))
    case ChangeAll(env) =>
      Some(w.(params := p.(env := env, pSeq := w.nextP), nextP := w.nextP + 1))
    case Recalc => Some(w.(params := p.(recalc := true)))
    case Evaluate => Evaluated(w)
    case Fail(u) => Some(w.(tree := u))
    case Remove(i) =>
      Some(w.(params := p.(env := p.env - {i}, used := p.used - {i}, nObjects := p.nObjects - 1)))
  }

  /** A run: None when a step is not allowed, or an evaluation fails that is not said to. */
  function Run(w: World, steps: seq<Step>): (r: Option<World>)
    requires Shaped(w)
    ensures r.Some? ==> Shaped(r.value)
    decreases steps
  {
    if steps == [] then Some(w)
    else if !Allowed(w, steps[0]) then None
    else
      var w' := Do(w, steps[0]);
      if w'.None? then None else Run(w'.value, steps[1..])
  }

  /** What the failure of an evaluation of w would forget, and which operands would miss it. */
  predicate FailureForgetsNode(w: World)
    requires Shaped(w)
  {
    Forgets(w.tree, w.params.env, Unseen(w), ChangeMask(w.control, w.params), w.params.recalc)
  }

  predicate FailureIsMissed(w: World)
    requires Shaped(w)
  {
    Misses(w.tree, w.params.env, Unseen(w), ChangeMask(w.control, w.params), w.params.recalc)
  }

  /** A condition on masks alone under which no operand misses what a failure drops. */
  predicate FailureStrands(w: World)
    requires Shaped(w)
  {
    Strands(w.tree, w.params.env, Unseen(w), {}, ChangeMask(w.control, w.params), w.params.recalc)
  }

  /**
   * A step that leaves the caches right. A removal does if the expression
   * refers neither to the slot removed nor to the last of the slots that
   * evaluations look at, of which there is one less afterwards; a failure if it
   * forgets no node and no operand misses the changes it drops.
   */
  predicate Spares(w: World, s: Step)
    requires Shaped(w) && Allowed(w, s)
  {
    && (s.Remove? ==> s.gone !in w.tree.cov && w.params.nObjects - 1 !in w.tree.cov)
    && (s.Fail? ==> !FailureForgetsNode(w) && !FailureIsMissed(w))
  }

  predicate AllSpare(w: World, steps: seq<Step>)
    requires Shaped(w)
    decreases steps
  {
    steps != [] && Allowed(w, steps[0]) ==>
      && Spares(w, steps[0])
      && (Do(w, steps[0]).Some? ==> AllSpare(Do(w, steps[0]).value, steps[1..]))
  }

  // ------------------------------------------------------------------ the invariant

  /** The objects the expression has not seen in their present state. */
  function Pending(w: World): Mask
    requires Shaped(w)
  {
    if w.control.pSeq != w.params.pSeq then Bits(MAX_PARAMS) else Stale(w.control, w.params)
  }

  /** What the next evaluation is sure to look at again: those, and what lies outside the objects. */
  function Unseen(w: World): Mask
    requires Shaped(w)
  {
    Pending(w) + {EXTREF_BIT}
  }

  predicate Stamps(w: World)
    requires Shaped(w)
  {
    && (forall i :: 0 <= i < MAX_PARAMS ==> w.params.seqs[i] < w.nextMod && w.control.objSeq[i] < w.nextMod)
    && w.params.pSeq < w.nextP
    && w.control.pSeq < w.nextP
    && (forall i :: i in w.params.env ==> i in w.params.used)
    && (forall i :: i in w.params.used && i in w.tree.cov ==> i < w.params.nObjects)
  }

  predicate Sound(w: World) {
    && Shaped(w)
    && Stamps(w)
    && Covers(w.tree)
    && Coherent(w.tree, w.params.env, Unseen(w))
  }

  /** A tree fresh from the compiler: every node is new. */
  predicate AllNew(t: Tree)
    decreases t
  {
    t.isNew && AllNews(t.kids)
  }

  predicate AllNews(ts: seq<Tree>)
    decreases ts
  {
    ts != [] ==> AllNew(ts[0]) && AllNews(ts[1..])
  }

  lemma {:induction false} NewIsCoherent(t: Tree, env: Env, pending: Mask)
    requires AllNew(t)
    ensures Coherent(t, env, pending)
    decreases t
  {
    NewsAreCoherent(t.kids, env, pending + t.delay);
  }

  lemma {:induction false} NewsAreCoherent(ts: seq<Tree>, env: Env, pending: Mask)
    requires AllNews(ts)
    ensures CoherentAll(ts, env, pending)
    decreases ts
  {
    if ts != [] {
      NewIsCoherent(ts[0], env, pending);
      NewsAreCoherent(ts[1..], env, pending);
    }
  }

  /** An expression fresh from the compiler, whatever the objects are. */
  predicate JustCompiled(w: World) {
    Shaped(w) && Stamps(w) && Covers(w.tree) && AllNew(w.tree)
  }

  lemma CompiledIsSound(w: World)
    requires JustCompiled(w)
    ensures Sound(w)
  {
    NewIsCoherent(w.tree, w.params.env, Unseen(w));
  }

  /** Where a stamp may go: a slot in use or to be used, and one that is counted if the expression refers to it. */
  predicate Stampable(w: World, i: nat, used: set<nat>, n: nat) {
    && i < MAX_PARAMS
    && used == w.params.used + {i}
    && w.params.nObjects <= n == |used| <= MAX_PARAMS
    && (i in w.tree.cov ==> i < n)
  }

  lemma StampedStamps(w: World, i: nat, o: Slot, used: set<nat>, n: nat)
    requires Shaped(w) && Stamps(w) && Stampable(w, i, used, n)
    ensures Shaped(Stamped(w, i, o, used, n)) && Stamps(Stamped(w, i, o, used, n))
  {
  }

  lemma StampedPending(w: World, i: nat, o: Slot, used: set<nat>, n: nat)
    requires Shaped(w) && Stamps(w) && Stampable(w, i, used, n) && Shaped(Stamped(w, i, o, used, n))
    ensures (Unseen(w) + {i}) * w.tree.cov <= Unseen(Stamped(w, i, o, used, n))
  {
  }

  /** A new stamp makes its slot pending and takes none away. */
  lemma StampKeeps(w: World, i: nat, o: Slot, used: set<nat>, n: nat)
    requires Sound(w) && Stampable(w, i, used, n)
    ensures Sound(Stamped(w, i, o, used, n))
  {
    hide Coherent, Covers, Stamps, Unseen;
    var w' := Stamped(w, i, o, used, n);
    StampedStamps(w, i, o, used, n);
    StampedPending(w, i, o, used, n);
    ChangeKeeps(w.tree, w.params.env, w'.params.env, Unseen(w), {i});
    CoherentWiden(w.tree, w'.params.env, Unseen(w) + {i}, Unseen(w'));
  }

  lemma RemoveStamps(w: World, i: nat)
    requires Shaped(w) && Stamps(w) && Allowed(w, Remove(i)) && Spares(w, Remove(i))
    ensures var v := Do(w, Remove(i)).value;
            Stamps(v) && (Unseen(w) + {i}) * w.tree.cov <= Unseen(v) && Agree(w.params.env, v.params.env, {i})
  {
    hide Eval, Wreck, Forgets, Misses, Evaluated, ChangeMask, FailureForgetsNode, FailureIsMissed;
  }

  /** Removing an object that the expression does not refer to. */
  lemma RemoveKeeps(w: World, i: nat)
    requires Sound(w) && Allowed(w, Remove(i)) && Spares(w, Remove(i))
    ensures Sound(Do(w, Remove(i)).value)
  {
    hide Coherent, Covers, Stamps, Unseen, Agree;
    var w' := Do(w, Remove(i)).value;
    RemoveStamps(w, i);
    ChangeKeeps(w.tree, w.params.env, w'.params.env, Unseen(w), {i});
    CoherentWiden(w.tree, w'.params.env, Unseen(w) + {i}, Unseen(w'));
  }

  lemma ChangeAllKeeps(w: World, env: Env)
    requires Sound(w) && Allowed(w, ChangeAll(env))
    ensures Sound(Do(w, ChangeAll(env)).value)
  {
    hide Coherent, Covers;
    var w' := Do(w, ChangeAll(env)).value;
    ChangeKeeps(w.tree, w.params.env, env, Unseen(w), Bits(MAX_PARAMS));
    CoherentWiden(w.tree, env, Unseen(w) + Bits(MAX_PARAMS), Unseen(w'));
  }

  /**
   * An evaluation succeeds exactly when the expression has a value, leaves
   * nothing pending, and caches that value at the root.
   */
  lemma EvaluateRight(w: World)
    requires Sound(w)
    ensures Evaluated(w).None? <==> Scratch(w.tree, w.params.env).None?
    ensures Evaluated(w).Some? ==>
              var w' := Evaluated(w).value;
              && Sound(w') && Pending(w') == {} && SameShape(w.tree, w'.tree)
              && Scratch(w.tree, w.params.env) == Some(w'.tree.cache)
  {
    hide Coherent, Covers, Eval, Scratch, SameShape, ChangeMask, Unseen, Stamps, Pending;
    var mask := ChangeMask(w.control, w.params);
    UnseenInMask(w);
    CoherentWiden(w.tree, w.params.env, Unseen(w), mask);
    if Evaluated(w).None? {
      EvalFails(w.tree, w.params.env, mask, w.params.recalc);
    } else {
      var w' := Evaluated(w).value;
      EvalRight(w.tree, w'.tree, w.params.env, mask, w.params.recalc);
      CoversShape(w.tree, w'.tree);
      CoherentWiden(w'.tree, w.params.env, {}, Unseen(w'));
      SameMask(w.tree, w'.tree);
      NothingPending(w, w');
    }
  }

  lemma UnseenInMask(w: World)
    requires Shaped(w)
    ensures Unseen(w) <= ChangeMask(w.control, w.params)
  {
  }

  lemma NothingPending(w: World, w': World)
    requires Shaped(w) && Stamps(w) && Evaluated(w) == Some(w') && w'.tree.cov == w.tree.cov
    ensures Stamps(w') && Pending(w') == {}
  {
    hide Eval, ChangeMask;
  }

  /**
   * A failed evaluation leaves the caches right exactly when it spares them;
   * where the changes it drops reach no operand behind the failing one, that
   * is when it forgets no node.
   */
  lemma FailTells(w: World, u: Tree)
    requires Sound(w) && Allowed(w, Fail(u))
    ensures SameShape(w.tree, u)
    ensures Sound(w.(tree := u)) <==> Spares(w, Fail(u))
    ensures !FailureStrands(w) ==> (Sound(w.(tree := u)) <==> !FailureForgetsNode(w))
  {
    hide Coherent, Covers, Wreck, Eval, SameShape, Forgets, Misses, Strands, ChangeMask, Unseen, Stamps;
    var mask := ChangeMask(w.control, w.params);
    UnseenInMask(w);
    CoherentWiden(w.tree, w.params.env, Unseen(w), mask);
    WreckShape(w.tree, u, w.params.env, mask, w.params.recalc);
    WreckTells(w.tree, u, w.params.env, Unseen(w), mask, w.params.recalc);
    CoversShape(w.tree, u);
    SameMask(w.tree, u);
    SameButTree(w, u);
    if !FailureStrands(w) {
      assert Unseen(w) + {} == Unseen(w);
      UnstrandedMissesNothing(w.tree, w.params.env, Unseen(w), {}, mask, w.params.recalc);
    }
  }

  /** After such a failure the evaluation fails again, until something changes. */
  lemma RetryFails(w: World, u: Tree)
    requires Sound(w) && Allowed(w, Fail(u)) && Spares(w, Fail(u))
    ensures Evaluated(w.(tree := u)).None?
  {
    hide Coherent, Covers, Wreck, Eval, SameShape, Forgets, Misses, ChangeMask, Unseen, Stamps, Scratch;
    FailTells(w, u);
    EvaluateRight(w);
    ScratchShape(w.tree, u, w.params.env);
    EvaluateRight(w.(tree := u));
  }

  lemma SameButTree(w: World, u: Tree)
    requires Shaped(w) && u.cov == w.tree.cov
    ensures var v := w.(tree := u);
            Shaped(v) && (Stamps(v) <==> Stamps(w)) && Unseen(v) == Unseen(w)
  {
  }

  lemma SameMask(t: Tree, u: Tree)
    requires SameShape(t, u)
    ensures t.cov == u.cov
  {
  }

  lemma StampStepKeeps(w: World, s: Step, w': World)
    requires Sound(w) && (s.Modify? || s.Add?) && Allowed(w, s) && Do(w, s) == Some(w')
    ensures Sound(w') && w'.tree == w.tree
  {
    hide Coherent, Covers, Stamps, Sound;
    SoundIsShaped(w);
    match s
    case Modify(i, o) =>
      assert w.params.used + {i} == w.params.used;
      StampableSlot(w, i, w.params.nObjects);
      StampKeeps(w, i, o, w.params.used, w.params.nObjects);
    case Add(o) =>
      FreeSlot(w.params.used);
      var i := FirstFree(w.params.used, 0);
      StampableSlot(w, i, w.params.nObjects + 1);
      StampKeeps(w, i, o, w.params.used + {i}, w.params.nObjects + 1);
  }

  /** A slot in use, or the first one free. */
  lemma StampableSlot(w: World, i: nat, n: nat)
    requires Sound(w) && w.params.nObjects <= n <= MAX_PARAMS
    requires if i in w.params.used then n == w.params.nObjects else i <= w.params.nObjects < n == w.params.nObjects + 1
    ensures Stampable(w, i, w.params.used + {i}, n)
  {
    hide Coherent, Covers;
    if i in w.params.used {
      assert w.params.used + {i} == w.params.used;
    }
  }

  lemma RecalcKeeps(w: World)
    requires Sound(w)
    ensures Sound(Do(w, Recalc).value)
  {
    hide Coherent, Covers;
    assert Unseen(Do(w, Recalc).value) == Unseen(w);
  }

  lemma StepKeeps(w: World, s: Step, w': World)
    requires Sound(w) && Allowed(w, s) && Spares(w, s) && Do(w, s) == Some(w')
    ensures Sound(w') && SameShape(w.tree, w'.tree)
  {
    hide Evaluated, SameShape, Sound, Allowed, Spares;
    SoundIsShaped(w);
    SameShapeRefl(w.tree);
    match s
    case Modify(_, _) => StampStepKeeps(w, s, w');
    case Add(_) => StampStepKeeps(w, s, w');
    case ChangeAll(env) => ChangeAllKeeps(w, env);
    case Recalc => RecalcKeeps(w);
    case Evaluate => EvaluateRight(w);
    case Fail(u) => FailTells(w, u);
    case Remove(i) => RemoveKeeps(w, i);
  }

  lemma {:induction false} RunKeeps(w: World, steps: seq<Step>, w': World)
    requires Sound(w) && AllSpare(w, steps) && Run(w, steps) == Some(w')
    ensures Sound(w') && SameShape(w.tree, w'.tree)
    decreases steps
  {
    hide Coherent, Covers, Stamps, SameShape, Do;
    if steps == [] {
      SameShapeRefl(w.tree);
    } else {
      var v := Do(w, steps[0]).value;
      StepKeeps(w, steps[0], v);
      RunKeeps(v, steps[1..], w');
      SameShapeTrans(w.tree, v.tree, w'.tree);
    }
  }

  /** What an evaluation after a run must come to: the value of the expression from scratch, or a failure where it has none. */
  predicate Tells(w1: World, t: Tree)
    requires Shaped(w1)
  {
    Scratch(t, w1.params.env) == match Evaluated(w1) case None => None case Some(w2) => Some(w2.tree.cache)
  }

  /**
   * The cache is never wrong: over every run of object changes and
   * evaluations, starting with a freshly compiled expression, an evaluation
   * caches at the root exactly what the expression is worth from scratch, and
   * fails exactly when it is worth nothing. Of removals and failures only
   * those that spare it are allowed.
   */
  lemma IncrementalIsScratch(w: World, steps: seq<Step>, w1: World)
    requires JustCompiled(w)
    requires AllSpare(w, steps) && Run(w, steps) == Some(w1)
    ensures Tells(w1, w.tree)
  {
    hide Coherent, SameShape, Scratch, Run, Covers, AllNew, Stamps, Eval, Evaluated;
    CompiledIsSound(w);
    RunKeeps(w, steps, w1);
    EvaluateRight(w1);
    ScratchShape(w.tree, w1.tree, w1.params.env);
  }

  // ------------------------------------------------------------------ failures that matter

  /** Of the removals in a run, only such that spare the expression. */
  predicate RemovalsSpare(w: World, steps: seq<Step>)
    requires Shaped(w)
    decreases steps
  {
    steps != [] && Allowed(w, steps[0]) ==>
      && (steps[0].Remove? ==> Spares(w, steps[0]))
      && (Do(w, steps[0]).Some? ==> RemovalsSpare(Do(w, steps[0]).value, steps[1..]))
  }

  lemma PlainStep(w: World, s: Step, v: World)
    requires Sound(w) && Plain(w.tree) && Allowed(w, s) && Do(w, s) == Some(v)
    ensures Plain(v.tree) && (s.Fail? ==> Spares(w, s))
  {
    hide Eval, Plain, Wreck, ChangeMask, Unseen, Forgets, Misses, Strands, Coherent, Covers;
    var mask := ChangeMask(w.control, w.params);
    if s.Evaluate? {
      EvalPlain(w.tree, w.params.env, mask, w.params.recalc);
    } else if s.Fail? {
      UnseenInMask(w);
      WreckPlain(w.tree, s.wreck, w.params.env, mask + w.tree.delay, w.params.recalc);
      PlainForgetsNothing(w.tree, w.params.env, Unseen(w), mask, w.params.recalc);
      PlainStrandsNothing(w.tree, w.params.env, Unseen(w), mask, w.params.recalc);
      assert Unseen(w) + {} == Unseen(w);
      UnstrandedMissesNothing(w.tree, w.params.env, Unseen(w), {}, mask, w.params.recalc);
    }
  }

  lemma {:induction false} PlainSpares(w: World, steps: seq<Step>)
    requires Sound(w) && Plain(w.tree) && RemovalsSpare(w, steps)
    ensures AllSpare(w, steps)
    decreases steps
  {
    hide Plain, Do, Allowed, Spares, Sound;
    SoundIsShaped(w);
    if steps != [] && Allowed(w, steps[0]) {
      SparedOrFails(w, steps[0]);
      if Do(w, steps[0]).Some? {
        var v := Do(w, steps[0]).value;
        PlainStep(w, steps[0], v);
        StepKeeps(w, steps[0], v);
        PlainSpares(v, steps[1..]);
      }
    }
  }

  lemma SoundIsShaped(w: World)
    requires Sound(w)
    ensures Shaped(w)
  {
  }

  lemma SparedOrFails(w: World, s: Step)
    requires Shaped(w) && Allowed(w, s)
    ensures s.Remove? || s.Fail? || Spares(w, s)
    ensures s.Fail? ==> Do(w, s).Some?
  {
  }

  /**
   * Without AND and OR failures do no harm: whatever evaluations fail in
   * between, the next one comes to what the expression is worth.
   */
  lemma PlainIsScratch(w: World, steps: seq<Step>, w1: World)
    requires JustCompiled(w) && Plain(w.tree)
    requires RemovalsSpare(w, steps) && Run(w, steps) == Some(w1)
    ensures Tells(w1, w.tree)
  {
    hide *;
    CompiledIsSound(w);
    PlainSpares(w, steps);
    IncrementalIsScratch(w, steps, w1);
  }

  // ------------------------------------------------------------------ removals that matter

  /** An expression that has seen all there is to see. */
  predicate Settled(w: World) {
    && Sound(w)
    && Pending(w) == {}
    && !w.tree.isNew && w.tree.delay == {} && EXTREF_BIT !in w.tree.cov
    && !w.params.recalc
  }

  /** With no stamp moved among the slots counted, an evaluation leaves the tree as it is. */
  lemma NothingSeen(w: World, v: World)
    requires Settled(w) && Shaped(v) && v.tree == w.tree && v.control == w.control
    requires v.params.pSeq == w.params.pSeq && !v.params.recalc && v.params.nObjects <= w.params.nObjects
    requires forall i :: 0 <= i < v.params.nObjects ==> v.params.seqs[i] == w.params.seqs[i]
    ensures Evaluated(v).Some? && Evaluated(v).value.tree == w.tree
    ensures Scratch(w.tree, w.params.env) == Some(w.tree.cache)
  {
    hide Scratch, Covers, CoherentAll;
    assert 0 in Bits(MAX_PARAMS);
    assert Stale(v.control, v.params) == {};
    assert Current(v.tree, ChangeMask(v.control, v.params), v.params.recalc);
  }

  /** The root's cache is what the expression is worth. */
  predicate Right(w: World) {
    Scratch(w.tree, w.params.env) == Some(w.tree.cache)
  }

  /** An expression with a value that any operand it lacks would make NULL. */
  predicate StrictWithValue(t: Tree) {
    Strict(t) && !t.cache.value.Null?
  }

  /**
   * Removing an object stamps nothing, so an expression that is up to date
   * keeps the value it had with the object there. That is right when it does
   * not refer to the object, and, for a strict expression with a value, only
   * then.
   */
  lemma RemoveIsUnseen(w: World, i: nat)
    requires Settled(w) && Allowed(w, Remove(i))
    ensures var v := Do(w, Remove(i)).value;
            && Evaluated(v).Some? && Evaluated(v).value.tree == w.tree && Evaluated(v).value.params.env == v.params.env
            && (i !in w.tree.cov ==> Right(Evaluated(v).value))
            && (StrictWithValue(w.tree) ==> (Right(Evaluated(v).value) <==> i !in w.tree.cov))
  {
    hide Scratch, Settled, Evaluated, Strict, Covers, Coherent;
    SettledIsSound(w);
    var v := Do(w, Remove(i)).value;
    NothingSeen(w, v);
    EvaluateKeepsObjects(v);
    if i in w.tree.cov && StrictWithValue(w.tree) {
      AbsentIsNull(w.tree, v.params.env, i);
    }
    if i !in w.tree.cov {
      ScratchAgree(w.tree, w.params.env, v.params.env, {i});
    }
  }

  /**
   * And the slot that the count no longer reaches may change unseen. Whatever
   * is put there, the next evaluation is right when the removal spared the
   * expression; when it is emptied and the expression is strict with a value,
   * only then.
   */
  lemma LastSlotIsUnseen(w: World, i: nat, o: Slot)
    requires Settled(w) && Allowed(w, Remove(i))
    requires i != w.params.nObjects - 1 && w.params.nObjects - 1 in w.params.used
    ensures var last, u := w.params.nObjects - 1, Do(w, Remove(i)).value;
            && Allowed(u, Modify(last, o))
            && var v := Do(u, Modify(last, o)).value;
            && Evaluated(v).Some? && Evaluated(v).value.tree == w.tree && Evaluated(v).value.params.env == v.params.env
            && (Spares(w, Remove(i)) ==> Right(Evaluated(v).value))
            && (StrictWithValue(w.tree) && o.None? ==> (Right(Evaluated(v).value) <==> Spares(w, Remove(i))))
  {
    hide *;
    SettledIsSound(w);
    var v := LastSlotChanged(w, i, o);
    NothingSeen(w, v);
    EvaluateKeepsObjects(v);
    RightIs(w);
    RightIs(Evaluated(v).value);
    if Spares(w, Remove(i)) {
      ScratchAgree(w.tree, w.params.env, v.params.env, {i, w.params.nObjects - 1});
    } else if StrictWithValue(w.tree) && o.None? {
      StrictIs(w.tree);
      AbsentIsNull(w.tree, v.params.env, if i in w.tree.cov then i else w.params.nObjects - 1);
    }
  }

  /** The world in between. */
  lemma LastSlotChanged(w: World, i: nat, o: Slot) returns (v: World)
    requires Shaped(w) && Allowed(w, Remove(i)) && !w.params.recalc
    requires i != w.params.nObjects - 1 && w.params.nObjects - 1 in w.params.used
    ensures var last, u := w.params.nObjects - 1, Do(w, Remove(i)).value;
            && last >= 0 && i < MAX_PARAMS && last < MAX_PARAMS
            && Allowed(u, Modify(last, o)) && v == Do(u, Modify(last, o)).value
            && Shaped(v) && v.tree == w.tree && v.control == w.control
            && v.params.pSeq == w.params.pSeq && !v.params.recalc && v.params.nObjects <= w.params.nObjects
            && (forall j :: 0 <= j < v.params.nObjects ==> v.params.seqs[j] == w.params.seqs[j])
            && Agree(w.params.env, v.params.env, {i, last})
            && i !in v.params.env && (o.None? ==> last !in v.params.env)
            && (Spares(w, Remove(i)) <==> w.tree.cov !! {i, last})
            && (!Spares(w, Remove(i)) <==> i in w.tree.cov || last in w.tree.cov)
  {
    hide Eval, ChangeMask, Wreck, Unseen;
    v := Do(Do(w, Remove(i)).value, Modify(w.params.nObjects - 1, o)).value;
  }

  lemma RightIs(w: World)
    ensures Right(w) <==> Scratch(w.tree, w.params.env) == Some(w.tree.cache)
  {
  }

  lemma StrictIs(t: Tree)
    ensures StrictWithValue(t) <==> Strict(t) && !t.cache.value.Null?
  {
  }

  lemma SettledIsSound(w: World)
    requires Settled(w)
    ensures Sound(w) && Shaped(w) && !w.params.recalc && Covers(w.tree)
  {
  }

  lemma EvaluateKeepsObjects(w: World)
    requires Shaped(w) && Evaluated(w).Some?
    ensures Evaluated(w).value.params.env == w.params.env
  {
  }
}
