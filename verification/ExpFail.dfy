/**
 * Evaluations that fail: when they do, and when what they leave of the caches
 * can be trusted.
 */
module ExpFail {
  import opened Options
  import opened ExpTree

  /** The evaluator fails only where there is no value. */
  lemma {:induction false} EvalFails(t: Tree, env: Env, mask: Mask, recalc: bool)
    requires Covers(t) && Coherent(t, env, mask) && Eval(t, env, mask, recalc).None?
    ensures Scratch(t, env).None?
    decreases t
  {
    hide Combined, Read, Joined, Coherent, Covers, EvalUntil, ScratchUntil, EvalAll, ScratchAll;
    var m := mask + t.delay;
    BelowIs(t, env, mask);
    if IsJunction(t.kind) {
      EvalUntilFails(t.kind, t.kids, t.cov, env, m, recalc);
    } else if !IsLeaf(t.kind) && |t.kids| == if IsBinary(t.kind) then 2 else 1 {
      assert Operated(t.kind, t.kids, env, m, recalc).None?;
      EvalAllFails(t.kids, t.cov, env, m, recalc);
    }
  }

  lemma BelowIs(t: Tree, env: Env, pending: Mask)
    requires Covers(t) && Coherent(t, env, pending)
    ensures CoversAll(t.kids, t.cov) && CoherentAll(t.kids, env, pending + t.delay)
  {
  }

  /** Operands that are all visited have the values of those from scratch; otherwise one has none. */
  lemma {:induction false} EvalAllFails(ts: seq<Tree>, cov: Mask, env: Env, mask: Mask, recalc: bool)
    requires CoversAll(ts, cov) && CoherentAll(ts, env, mask)
    ensures var r := EvalAll(ts, env, mask, recalc);
            ScratchAll(ts, env) == if r.None? then None else Some(Caches(r.value))
    decreases ts
  {
    hide Scratch, Eval, Coherent, Covers, SameShape;
    if ts != [] {
      var u := Eval(ts[0], env, mask, recalc);
      if u.None? {
        EvalFails(ts[0], env, mask, recalc);
      } else {
        EvalRight(ts[0], u.value, env, mask, recalc);
      }
      EvalAllFails(ts[1..], cov, env, mask, recalc);
    }
  }

  lemma {:induction false} EvalUntilFails(k: Kind, ts: seq<Tree>, cov: Mask, env: Env, mask: Mask, recalc: bool)
    requires IsJunction(k) && CoversAll(ts, cov) && CoherentAll(ts, env, mask)
    requires EvalUntil(k, ts, env, mask, recalc, false).None?
    ensures ScratchUntil(k, ts, env).None?
    decreases ts
  {
    hide Scratch, Eval, Coherent, Covers, SameShape, Decides;
    var u := Eval(ts[0], env, mask, recalc);
    if u.None? {
      EvalFails(ts[0], env, mask, recalc);
    } else {
      EvalRight(ts[0], u.value, env, mask, recalc);
      if Decides(k, u.value.cache) {
        DecidedNeverFails(k, ts[1..], env, mask, recalc);
      } else if IsBoolean(u.value.cache) {
        EvalUntilFails(k, ts[1..], cov, env, mask, recalc);
      }
    }
  }

  /** What is deferred cannot fail. */
  lemma {:induction false} DecidedNeverFails(k: Kind, ts: seq<Tree>, env: Env, mask: Mask, recalc: bool)
    requires IsJunction(k)
    ensures EvalUntil(k, ts, env, mask, recalc, true).Some?
    decreases ts
  {
    if ts != [] {
      DecidedNeverFails(k, ts[1..], env, mask, recalc);
    }
  }

  /**
   * Of the nodes a failure passes through, on the way down from t, one is
   * neither new nor touched by the changes that remain pending: the next
   * evaluation will not look at it again.
   */
  predicate Forgets(t: Tree, env: Env, pending: Mask, mask: Mask, recalc: bool)
    decreases t
  {
    || (!t.isNew && t.cov !! pending)
    || (Enters(t) && ForgetsBelow(IsJunction(t.kind), t.kids, env, pending, mask + t.delay, recalc))
  }

  predicate ForgetsBelow(junction: bool, ts: seq<Tree>, env: Env, pending: Mask, mask: Mask, recalc: bool)
    decreases ts
  {
    && ts != []
    && var u := Eval(ts[0], env, mask, recalc);
       if u.None? then Forgets(ts[0], env, pending, mask, recalc)
       else (junction ==> IsBoolean(u.value.cache)) && ForgetsBelow(junction, ts[1..], env, pending, mask, recalc)
  }

  /**
   * The delayed changes dropped on the way, dropped being those of the nodes
   * above, reach an operand behind the failing one.
   */
  predicate Strands(t: Tree, env: Env, pending: Mask, dropped: Mask, mask: Mask, recalc: bool)
    decreases t
  {
    if Enters(t) then StrandsBelow(IsJunction(t.kind), t.kids, env, pending, dropped + t.delay, mask + t.delay, recalc)
    else Reaches(t.kids, dropped + t.delay, pending)
  }

  predicate StrandsBelow(junction: bool, ts: seq<Tree>, env: Env, pending: Mask, dropped: Mask, mask: Mask, recalc: bool)
    decreases ts
  {
    && ts != []
    && var u := Eval(ts[0], env, mask, recalc);
       if u.None? then Strands(ts[0], env, pending, dropped, mask, recalc) || Reaches(ts[1..], dropped, pending)
       else if junction && !IsBoolean(u.value.cache) then Reaches(ts[1..], dropped, pending)
       else StrandsBelow(junction, ts[1..], env, pending, dropped, mask, recalc)
  }

  predicate Reaches(ts: seq<Tree>, dropped: Mask, pending: Mask) {
    ts != [] && (!(dropped * ts[0].cov <= pending) || Reaches(ts[1..], dropped, pending))
  }

  /** Operands that the dropped changes do not reach do not miss them. */
  lemma {:induction false} UnreachedKeep(ts: seq<Tree>, cov: Mask, env: Env, p: Mask, dropped: Mask)
    requires CoversAll(ts, cov) && CoherentAll(ts, env, p + dropped) && !Reaches(ts, dropped, p)
    ensures CoherentAll(ts, env, p)
    decreases ts
  {
    hide Coherent, Covers;
    if ts != [] {
      CoherentWiden(ts[0], env, p + dropped, p);
      UnreachedKeep(ts[1..], cov, env, p, dropped);
    }
  }

  /** A failed visit leaves the expression the same. */
  lemma {:induction false} WreckShape(t: Tree, t': Tree, env: Env, mask: Mask, recalc: bool)
    requires Covers(t) && Coherent(t, env, mask)
    requires Eval(t, env, mask, recalc).None? && Wreck(t, t', env, mask + t.delay, recalc)
    ensures SameShape(t, t')
    decreases t
  {
    hide Scratch, Coherent, Covers, WreckBelow;
    BelowIs(t, env, mask);
    SameShapesRefl(t.kids);
    if Enters(t) {
      WreckBelowShape(IsJunction(t.kind), t.kids, t'.kids, t.cov, env, mask + t.delay, recalc);
    }
  }

  lemma {:induction false} WreckBelowShape(junction: bool, ts: seq<Tree>, ts': seq<Tree>, cov: Mask, env: Env, mask: Mask, recalc: bool)
    requires CoversAll(ts, cov) && CoherentAll(ts, env, mask) && WreckBelow(junction, ts, ts', env, mask, recalc)
    ensures SameShapes(ts, ts')
    decreases ts
  {
    hide Scratch, Eval, Covers, Coherent, SameShape, Wreck;
    if ts != [] {
      var u := Eval(ts[0], env, mask, recalc);
      SameShapesRefl(ts[1..]);
      if u.None? {
        WreckShape(ts[0], ts'[0], env, mask, recalc);
      } else {
        EvalRight(ts[0], u.value, env, mask, recalc);
        if ts'[1..] != ts[1..] {
          WreckBelowShape(junction, ts[1..], ts'[1..], cov, env, mask, recalc);
        }
      }
    }
  }

  /** An operand behind the failing one trusts its cache, wrongly, once the delayed changes are dropped. */
  predicate Misses(t: Tree, env: Env, pending: Mask, mask: Mask, recalc: bool)
    decreases t
  {
    if Enters(t) then MissesBelow(IsJunction(t.kind), t.kids, env, pending, mask + t.delay, recalc)
    else !CoherentAll(t.kids, env, pending)
  }

  predicate MissesBelow(junction: bool, ts: seq<Tree>, env: Env, pending: Mask, mask: Mask, recalc: bool)
    decreases ts
  {
    && ts != []
    && var u := Eval(ts[0], env, mask, recalc);
       if u.None? then Misses(ts[0], env, pending, mask, recalc) || !CoherentAll(ts[1..], env, pending)
       else if junction && !IsBoolean(u.value.cache) then !CoherentAll(ts[1..], env, pending)
       else MissesBelow(junction, ts[1..], env, pending, mask, recalc)
  }

  /**
   * A failed visit keeps the caches that are trusted right exactly when it
   * forgets no node it passes through, since these have no value, and no
   * operand behind the failing one misses what was dropped.
   */
  lemma {:induction false} WreckTells(t: Tree, t': Tree, env: Env, p: Mask, mask: Mask, recalc: bool)
    requires Covers(t) && Coherent(t, env, mask)
    requires Eval(t, env, mask, recalc).None? && Wreck(t, t', env, mask + t.delay, recalc)
    ensures Coherent(t', env, p) <==> !Forgets(t, env, p, mask, recalc) && !Misses(t, env, p, mask, recalc)
    decreases t
  {
    hide Scratch, Eval, Covers, CoherentAll, CoversAll, WreckBelow, ForgetsBelow, MissesBelow;
    EvalFails(t, env, mask, recalc);
    WreckShape(t, t', env, mask, recalc);
    ScratchShape(t, t', env);
    BelowIs(t, env, mask);
    assert p + {} == p;
    if Enters(t) {
      WreckBelowTells(IsJunction(t.kind), t.kids, t'.kids, t.cov, env, p, mask + t.delay, recalc);
    }
  }

  lemma {:induction false} WreckBelowTells(junction: bool, ts: seq<Tree>, ts': seq<Tree>, cov: Mask, env: Env,
                                           p: Mask, mask: Mask, recalc: bool)
    requires CoversAll(ts, cov) && CoherentAll(ts, env, mask) && WreckBelow(junction, ts, ts', env, mask, recalc)
    ensures CoherentAll(ts', env, p) <==>
            !ForgetsBelow(junction, ts, env, p, mask, recalc) && !MissesBelow(junction, ts, env, p, mask, recalc)
    decreases ts
  {
    hide Scratch, Eval, Covers, Coherent, SameShape, Wreck, Forgets, Misses;
    if ts != [] {
      var u := Eval(ts[0], env, mask, recalc);
      if u.None? {
        WreckTells(ts[0], ts'[0], env, p, mask, recalc);
      } else {
        EvalRight(ts[0], u.value, env, mask, recalc);
        CoversShape(ts[0], u.value);
        CoherentWiden(u.value, env, {}, p);
        if !junction || IsBoolean(u.value.cache) {
          WreckBelowTells(junction, ts[1..], ts'[1..], cov, env, p, mask, recalc);
        }
      }
    }
  }

  /** Where the dropped changes reach no operand behind the failing one, none misses them. */
  lemma {:induction false} UnstrandedMissesNothing(t: Tree, env: Env, p: Mask, dropped: Mask, mask: Mask, recalc: bool)
    requires Covers(t) && Coherent(t, env, p + dropped) && !Strands(t, env, p, dropped, mask, recalc)
    ensures !Misses(t, env, p, mask, recalc)
    decreases t
  {
    hide Scratch, Eval, Covers, Coherent, CoherentAll, CoversAll, StrandsBelow, MissesBelow;
    BelowIs(t, env, p + dropped);
    assert p + dropped + t.delay == p + (dropped + t.delay);
    if Enters(t) {
      UnstrandedBelow(IsJunction(t.kind), t.kids, t.cov, env, p, dropped + t.delay, mask + t.delay, recalc);
    } else {
      UnreachedKeep(t.kids, t.cov, env, p, dropped + t.delay);
    }
  }

  lemma {:induction false} UnstrandedBelow(junction: bool, ts: seq<Tree>, cov: Mask, env: Env, p: Mask, dropped: Mask, mask: Mask, recalc: bool)
    requires CoversAll(ts, cov) && CoherentAll(ts, env, p + dropped)
    requires !StrandsBelow(junction, ts, env, p, dropped, mask, recalc)
    ensures !MissesBelow(junction, ts, env, p, mask, recalc)
    decreases ts
  {
    hide Scratch, Eval, Covers, Coherent, Strands, Misses, Reaches;
    if ts != [] {
      var u := Eval(ts[0], env, mask, recalc);
      if u.None? {
        UnstrandedMissesNothing(ts[0], env, p, dropped, mask, recalc);
        UnreachedKeep(ts[1..], cov, env, p, dropped);
      } else if junction && !IsBoolean(u.value.cache) {
        UnreachedKeep(ts[1..], cov, env, p, dropped);
      } else {
        UnstrandedBelow(junction, ts[1..], cov, env, p, dropped, mask, recalc);
      }
    }
  }

  /** An expression without AND and OR, and so without delayed changes. */
  predicate Plain(t: Tree)
    decreases t
  {
    !IsJunction(t.kind) && t.delay == {} && PlainAll(t.kids)
  }

  predicate PlainAll(ts: seq<Tree>)
    decreases ts
  {
    ts != [] ==> Plain(ts[0]) && PlainAll(ts[1..])
  }

  /** Without delayed changes a node is visited, and fails, only if it is new or touched by pending changes. */
  lemma {:induction false} PlainForgetsNothing(t: Tree, env: Env, p: Mask, mask: Mask, recalc: bool)
    requires Plain(t) && Covers(t) && Coherent(t, env, p) && p * t.cov <= mask && Eval(t, env, mask, recalc).None?
    ensures !Forgets(t, env, p, mask, recalc)
    decreases t
  {
    hide Scratch, Eval, Covers, CoherentAll, CoversAll, PlainAll, ForgetsBelow;
    CoherentWiden(t, env, p, mask);
    EvalFails(t, env, mask, recalc);
    BelowIs(t, env, p);
    assert p + {} == p && mask + {} == mask;
    PlainForgetsNothingBelow(IsJunction(t.kind), t.kids, t.cov, env, p, mask, recalc);
  }

  lemma {:induction false} PlainForgetsNothingBelow(junction: bool, ts: seq<Tree>, cov: Mask, env: Env, p: Mask, mask: Mask, recalc: bool)
    requires PlainAll(ts) && CoversAll(ts, cov) && CoherentAll(ts, env, p) && p * cov <= mask
    ensures !ForgetsBelow(junction, ts, env, p, mask, recalc)
    decreases ts
  {
    hide Scratch, Eval, Covers, Coherent, Plain, Forgets;
    if ts != [] {
      assert p * ts[0].cov <= mask;
      if Eval(ts[0], env, mask, recalc).None? {
        PlainForgetsNothing(ts[0], env, p, mask, recalc);
      } else {
        PlainForgetsNothingBelow(junction, ts[1..], cov, env, p, mask, recalc);
      }
    }
  }

  lemma {:induction false} PlainStrandsNothing(t: Tree, env: Env, p: Mask, mask: Mask, recalc: bool)
    requires Plain(t)
    ensures !Strands(t, env, p, {}, mask, recalc)
    decreases t
  {
    hide Eval, PlainAll, StrandsBelow;
    assert {} + t.delay == {} && mask + {} == mask;
    NothingReaches(t.kids, p);
    PlainStrandsNothingBelow(IsJunction(t.kind), t.kids, env, p, mask, recalc);
  }

  lemma {:induction false} PlainStrandsNothingBelow(junction: bool, ts: seq<Tree>, env: Env, p: Mask, mask: Mask, recalc: bool)
    requires PlainAll(ts)
    ensures !StrandsBelow(junction, ts, env, p, {}, mask, recalc)
    decreases ts
  {
    hide Eval, Plain, Strands, Reaches;
    if ts != [] {
      NothingReaches(ts[1..], p);
      PlainStrandsNothing(ts[0], env, p, mask, recalc);
      PlainStrandsNothingBelow(junction, ts[1..], env, p, mask, recalc);
    }
  }

  lemma {:induction false} NothingReaches(ts: seq<Tree>, p: Mask)
    ensures !Reaches(ts, {}, p)
  {
    if ts != [] {
      NothingReaches(ts[1..], p);
    }
  }

  /** A visit, successful or not, leaves it so, and its mask alone. */
  lemma {:induction false} EvalPlain(t: Tree, env: Env, mask: Mask, recalc: bool)
    requires Plain(t)
    ensures Eval(t, env, mask, recalc).Some? ==>
              Plain(Eval(t, env, mask, recalc).value) && Eval(t, env, mask, recalc).value.cov == t.cov
    decreases t
  {
    hide EvalAll, Read, Combined, PlainAll;
    EvalAllPlain(t.kids, env, mask + t.delay, recalc);
    var r := Eval(t, env, mask, recalc);
    if r.Some? {
      VisitedIs(t, env, mask + t.delay, recalc);
      assert Plain(r.value) <== PlainAll(r.value.kids) && r.value.delay == {} && r.value.kind == t.kind;
    }
  }

  lemma VisitedIs(t: Tree, env: Env, m: Mask, recalc: bool)
    requires !IsJunction(t.kind) && t.delay == {}
    ensures var r := Visited(t, env, m, recalc);
            r.Some? ==> r.value.kind == t.kind && r.value.cov == t.cov && r.value.delay == {} &&
                        (r.value.kids == t.kids || EvalAll(t.kids, env, m, recalc) == Some(r.value.kids))
  {
    hide EvalAll, Read, Combined;
  }

  lemma {:induction false} EvalAllPlain(ts: seq<Tree>, env: Env, mask: Mask, recalc: bool)
    requires PlainAll(ts)
    ensures EvalAll(ts, env, mask, recalc).Some? ==> PlainAll(EvalAll(ts, env, mask, recalc).value)
    decreases ts
  {
    if ts != [] {
      EvalPlain(ts[0], env, mask, recalc);
      EvalAllPlain(ts[1..], env, mask, recalc);
    }
  }

  lemma {:induction false} WreckPlain(t: Tree, t': Tree, env: Env, m: Mask, recalc: bool)
    requires Plain(t) && Wreck(t, t', env, m, recalc)
    ensures Plain(t') && t'.cov == t.cov
    decreases t
  {
    if t'.kids != t.kids {
      WreckBelowPlain(IsJunction(t.kind), t.kids, t'.kids, env, m, recalc);
    }
  }

  lemma {:induction false} WreckBelowPlain(junction: bool, ts: seq<Tree>, ts': seq<Tree>, env: Env, mask: Mask, recalc: bool)
    requires PlainAll(ts) && WreckBelow(junction, ts, ts', env, mask, recalc)
    ensures PlainAll(ts')
    decreases ts
  {
    hide Eval, Plain, Wreck;
    if ts != [] {
      EvalPlain(ts[0], env, mask, recalc);
      if Eval(ts[0], env, mask, recalc).None? {
        WreckPlain(ts[0], ts'[0], env, mask + ts[0].delay, recalc);
      }
      if ts'[1..] != ts[1..] {
        WreckBelowPlain(junction, ts[1..], ts'[1..], env, mask, recalc);
      }
    }
  }
}
