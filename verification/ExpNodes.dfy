/**
 * The evaluator as it runs: expression nodes whose cached value, flags and
 * masks are updated in place while the parameter list's change mask is
 * widened and restored around each node.
 */
module ExpNodes {
  import opened Options
  import opened ExpTree
  import opened ExpOps
  import opened ExpFail
  import opened ExpRun

  /** The evaluator's global stamp counters. */
  class Globals {
    var nextMod: nat
    var nextP: nat

    constructor ()
      ensures nextMod == 1 && nextP == 1
    {
      nextMod := 1;
      nextP := 1;
    }
  }

  /** The slot looked at in the i-th turn of a search. */
  function SearchSlot(i: nat, reverse: bool): nat
    requires i < MAX_PARAMS
  {
    if reverse then MAX_PARAMS - 1 - i else i
  }

  /** The first slot that has a name, from either end and from the i-th turn on, or the number of slots. */
  function SlotOf(names: map<nat, string>, name: string, reverse: bool, i: nat): (k: nat)
    requires i <= MAX_PARAMS
    ensures k <= MAX_PARAMS
    ensures k < MAX_PARAMS ==> k in names && names[k] == name
    ensures forall j :: i <= j < MAX_PARAMS && SearchSlot(j, reverse) in names && names[SearchSlot(j, reverse)] == name ==>
                          k < MAX_PARAMS && if reverse then SearchSlot(j, reverse) <= k else k <= SearchSlot(j, reverse)
    ensures k < MAX_PARAMS ==> if reverse then k < MAX_PARAMS - i else i <= k
    decreases MAX_PARAMS - i
  {
    if i == MAX_PARAMS then MAX_PARAMS
    else if SearchSlot(i, reverse) in names && names[SearchSlot(i, reverse)] == name then SearchSlot(i, reverse)
    else SlotOf(names, name, reverse, i + 1)
  }

  /** What is asked for when an object is added. */
  datatype Flags = Flags(dups: bool, replace: bool, reverse: bool, current: bool, parent: bool, preserveParent: bool)

  /**
   * The slot an object is added to, or -1. A name that is taken refuses the
   * object, unless it may replace the one that has it or be a duplicate; a
   * duplicate, like any new name, goes to the first free slot.
   */
  predicate Chosen(names: map<nat, string>, n: nat, name: string, flags: Flags, r: int) {
    var taken := exists i :: 0 <= i < 30 && i in names && names[i] == name;
    && -1 <= r < 30
    && (r == -1 <==> n >= 30 || (taken && !flags.dups && !flags.replace))
    && (r >= 0 && taken && flags.replace ==>
          && r in names && names[r] == name
          && forall j :: 0 <= j < 30 && j in names && names[j] == name ==> if flags.reverse then j <= r else r <= j)
    && (r >= 0 && !(taken && flags.replace) ==> r !in names && forall j :: 0 <= j < r ==> j in names)
  }

  /** One step of the runs that ExpRun is about. */
  predicate Steps(w: World, s: Step, w': World) {
    ExpRun.Shaped(w) ==> Allowed(w, s) && Do(w, s) == Some(w')
  }

  /**
   * A parameter object list: the names of the slots in use, their objects and
   * stamps, which of them are the current and the parent object, and the change
   * mask of the evaluation under way.
   */
  class ParamObjects {
    var env: Env
    var names: map<nat, string>
    var nObjects: nat
    var currentId: int
    var parentId: int
    var seqs: seq<nat>
    var pSeq: nat
    var recalc: bool
    var modMask: Mask

    function Params(): Params
      reads `env, `names, `nObjects, `seqs, `pSeq, `recalc
    {
      ExpRun.Params(env, names.Keys, nObjects, seqs, pSeq, recalc)
    }

    /** Together with an expression and the counters. */
    ghost function World(t: Tree, c: Control, g: Globals): World
      reads `env, `names, `nObjects, `seqs, `pSeq, `recalc, g
    {
      ExpRun.World(t, c, Params(), g.nextMod, g.nextP)
    }

    constructor (g: Globals)
      modifies g
      ensures currentId == parentId == -1
      ensures Params() == ExpRun.Params(map[], {}, 0, seq(MAX_PARAMS, i => 0), old(g.nextP), false)
      ensures g.nextP == old(g.nextP) + 1 && g.nextMod == old(g.nextMod)
    {
      env := map[];
      names := map[];
      nObjects := 0;
      currentId := -1;
      parentId := -1;
      seqs := seq(MAX_PARAMS, i => 0);
      pSeq := g.nextP;
      recalc := false;
      modMask := {};
      new;
      g.nextP := g.nextP + 1;
    }

    /** Puts a modified object into a slot, under a new stamp. */
    method Modify(i: nat, o: Slot, g: Globals, ghost t: Tree, ghost c: Control)
      requires i < |seqs|
      modifies this`env, this`seqs, g`nextMod
      ensures Params() == old(Params().(env := Stored(env, i, o), seqs := seqs[i := g.nextMod]))
      ensures g.nextMod == old(g.nextMod) + 1
      ensures old(i in names) ==> Steps(old(World(t, c, g)), Step.Modify(i, o), World(t, c, g))
    {
      env := Stored(env, i, o);
      seqs := seqs[i := g.nextMod];
      g.nextMod := g.nextMod + 1;
    }

    /** Searches the slots for a name, from either end. */
    method Lookup(name: string, reverse: bool) returns (i: nat)
      ensures i == SlotOf(names, name, reverse, 0)
    {
      var n := 0;
      while n < MAX_PARAMS && !(SearchSlot(n, reverse) in names && names[SearchSlot(n, reverse)] == name)
        invariant n <= MAX_PARAMS && SlotOf(names, name, reverse, n) == SlotOf(names, name, reverse, 0)
      {
        n := n + 1;
      }
      i := if n == MAX_PARAMS then MAX_PARAMS else SearchSlot(n, reverse);
    }

    /** The first slot without a name. */
    method FirstUnused() returns (i: nat)
      ensures i == FirstFree(names.Keys, 0)
    {
      i := 0;
      while i < MAX_PARAMS && i in names
        invariant i <= MAX_PARAMS && FirstFree(names.Keys, i) == FirstFree(names.Keys, 0)
      {
        i := i + 1;
      }
    }

    /** The slot a new object goes to, or -1. */
    ghost function Target(name: string, flags: Flags): int
      reads this`names, this`nObjects
    {
      var exist := SlotOf(names, name, flags.reverse, 0);
      if nObjects >= MAX_PARAMS || (exist < MAX_PARAMS && !flags.dups && !flags.replace) then -1
      else if exist < MAX_PARAMS && flags.replace then exist
      else FirstFree(names.Keys, 0)
    }

    lemma TargetTells(name: string, flags: Flags)
      requires nObjects == |names|
      ensures Chosen(names, nObjects, name, flags, Target(name, flags))
    {
      FreeSlot(names.Keys);
      assert |names.Keys| == |names|;
      FoundSlot(names, name, flags.reverse);
    }

    static lemma FoundSlot(names: map<nat, string>, name: string, reverse: bool)
      ensures SlotOf(names, name, reverse, 0) == MAX_PARAMS <==> !exists i :: 0 <= i < 30 && i in names && names[i] == name
      ensures forall j :: 0 <= j < 30 && j in names && names[j] == name ==>
                if reverse then j <= SlotOf(names, name, reverse, 0) else SlotOf(names, name, reverse, 0) <= j
    {
      forall j | 0 <= j < 30 && j in names && names[j] == name
        ensures SlotOf(names, name, reverse, 0) < MAX_PARAMS
        ensures if reverse then j <= SlotOf(names, name, reverse, 0) else SlotOf(names, name, reverse, 0) <= j
      {
        assert SearchSlot(if reverse then 29 - j else j, reverse) == j;
      }
    }

    /**
     * Adds an object under a name, with a new stamp: in the first free slot, or
     * in the one that has the name if it may be replaced. -1 when there are too
     * many, or the name is taken and neither duplicates nor replacing are asked
     * for. To an evaluator it is an addition or a modification.
     */
    method Add(name: string, o: Slot, flags: Flags, g: Globals, ghost t: Tree, ghost c: Control) returns (r: int)
      requires |seqs| == MAX_PARAMS && nObjects == |names|
      modifies this, g`nextMod
      ensures r == old(Target(name, flags)) && Chosen(old(names), old(nObjects), name, flags, r)
      ensures r < 0 ==> Params() == old(Params()) && names == old(names) && g.nextMod == old(g.nextMod)
      ensures r < 0 ==> currentId == old(currentId) && parentId == old(parentId) && modMask == old(modMask)
      ensures r >= 0 ==> names == old(names)[r := name] && nObjects == |names| && modMask == old(modMask) + {r}
      ensures r >= 0 ==> Params() == old(Params()).(env := Stored(old(env), r, o), used := old(names).Keys + {r},
                                                    nObjects := nObjects, seqs := old(seqs)[r := old(g.nextMod)])
      ensures r >= 0 ==> g.nextMod == old(g.nextMod) + 1
      ensures r >= 0 ==> currentId == if flags.current || nObjects == 1 then r else old(currentId)
      ensures r >= 0 ==> parentId == if flags.parent then r
                                     else if flags.current && old(currentId) >= 0 && !flags.preserveParent then old(currentId)
                                     else old(parentId)
      ensures r >= 0 ==>
                Steps(old(World(t, c, g)), if r in old(names) then Step.Modify(r, o) else Step.Add(o), World(t, c, g))
    {
      hide *;
      r := Choose(name, flags);
      if r >= 0 {
        Enter(r, name, o, g, t, c);
        Focus(r, flags);
        modMask := modMask + {r};
      }
    }

    /** Sets up the entry of a slot. */
    method Enter(i: nat, name: string, o: Slot, g: Globals, ghost t: Tree, ghost c: Control)
      requires |seqs| == MAX_PARAMS && nObjects == |names| < MAX_PARAMS
      requires i < MAX_PARAMS && (i in names || i == FirstFree(names.Keys, 0))
      modifies this`env, this`names, this`nObjects, this`seqs, g`nextMod
      ensures names == old(names)[i := name] && nObjects == |names|
      ensures Params() == old(Params()).(env := Stored(old(env), i, o), used := old(names).Keys + {i},
                                         nObjects := nObjects, seqs := old(seqs)[i := old(g.nextMod)])
      ensures g.nextMod == old(g.nextMod) + 1
      ensures Steps(old(World(t, c, g)), if i in old(names) then Step.Modify(i, o) else Step.Add(o), World(t, c, g))
    {
      hide FirstFree, Steps;
      ghost var w := World(t, c, g);
      Name(i, name);
      Modify(i, o, g, t, c);
      AddIsStep(w, i, o, World(t, c, g));
    }

    /** Looks for that slot. */
    method Choose(name: string, flags: Flags) returns (r: int)
      requires nObjects == |names|
      ensures r == Target(name, flags) && r < MAX_PARAMS && Chosen(names, nObjects, name, flags, r)
      ensures r >= 0 ==> nObjects < MAX_PARAMS && (r in names || r == FirstFree(names.Keys, 0))
    {
      TargetTells(name, flags);
      hide Chosen;
      if nObjects >= MAX_PARAMS {
        return -1;
      }
      var exist := Lookup(name, flags.reverse);
      if exist < MAX_PARAMS && !(flags.dups || flags.replace) {
        return -1;
      }
      FreeSlot(names.Keys);
      assert |names.Keys| == |names|;
      var i := FirstUnused();
      if exist < MAX_PARAMS && flags.replace {
        i := exist;
      }
      r := i;
    }

    /** Who is current and who is parent after an addition; a sole object is always current. */
    method Focus(i: nat, flags: Flags)
      modifies this`currentId, this`parentId
      ensures currentId == if flags.current || nObjects == 1 then i else old(currentId)
      ensures parentId == if flags.parent then i
                          else if flags.current && old(currentId) >= 0 && !flags.preserveParent then old(currentId)
                          else old(parentId)
    {
      if flags.parent {
        parentId := i;
      } else if flags.current && currentId >= 0 && !flags.preserveParent {
        parentId := currentId;
      }
      if flags.current {
        currentId := i;
      }
      if nObjects == 1 {
        currentId := i;
      }
    }

    /** Gives a slot a name; one that had none is counted. */
    method Name(i: nat, name: string)
      requires nObjects == |names|
      modifies this`names, this`nObjects
      ensures names == old(names)[i := name] && nObjects == |names|
      ensures nObjects == if i in old(names) then old(nObjects) else old(nObjects) + 1
    {
      if i !in names {
        nObjects := nObjects + 1;
      }
      names := names[i := name];
    }

    /** Frees a slot; no stamp tells of it. The slot below takes over its roles. */
    method Remove(i: nat, ghost g: Globals, ghost t: Tree, ghost c: Control)
      requires i in names && nObjects > 0
      modifies this`env, this`names, this`nObjects, this`currentId, this`parentId
      ensures Params() == old(Params().(env := env - {i}, used := names.Keys - {i}, nObjects := nObjects - 1))
      ensures names == old(names) - {i}
      ensures currentId == if old(currentId) == i then i - 1 else old(currentId)
      ensures parentId == if old(parentId) == i then i - 1 else old(parentId)
      ensures Steps(old(World(t, c, g)), Step.Remove(i), World(t, c, g))
    {
      hide Steps;
      ghost var w := World(t, c, g);
      env := env - {i};
      names := names - {i};
      nObjects := nObjects - 1;
      if currentId == i {
        currentId := if i == 0 then -1 else currentId - 1;
      }
      if parentId == i {
        parentId := if i == 0 then -1 else parentId - 1;
      }
      RemoveIsStep(w, i, World(t, c, g));
    }

    /** Says that every object may have changed. */
    method AllChanged(env': Env, g: Globals, ghost t: Tree, ghost c: Control)
      modifies this`env, this`pSeq, g`nextP
      ensures Params() == old(Params().(env := env', pSeq := g.nextP)) && g.nextP == old(g.nextP) + 1
      ensures (forall i :: i in env' ==> i in names) ==> Steps(old(World(t, c, g)), Step.ChangeAll(env'), World(t, c, g))
    {
      env := env';
      pSeq := g.nextP;
      g.nextP := g.nextP + 1;
    }
  }

  lemma RemoveIsStep(w: World, i: nat, w': World)
    requires i in w.params.used && w.params.nObjects > 0
    requires var p := w.params;
             w' == w.(params := p.(env := p.env - {i}, used := p.used - {i}, nObjects := p.nObjects - 1))
    ensures Steps(w, Step.Remove(i), w')
  {
  }

  /** A new stamp for a slot in use is a modification, and for the first free one an addition. */
  lemma AddIsStep(w: World, i: nat, o: Slot, w': World)
    requires i < MAX_PARAMS && w.params.nObjects < MAX_PARAMS && i < |w.params.seqs|
    requires i in w.params.used || i == FirstFree(w.params.used, 0)
    requires w' == Stamped(w, i, o, w.params.used + {i}, if i in w.params.used then w.params.nObjects else w.params.nObjects + 1)
    ensures Steps(w, if i in w.params.used then Step.Modify(i, o) else Step.Add(o), w')
  {
    hide FirstFree;
    if i in w.params.used {
      assert w.params.used + {i} == w.params.used;
    }
  }

  class Expression {
    const kind: Kind
    const kids: seq<Expression>
    ghost const height: nat
    ghost const repr: set<Expression>
    var cov: Mask
    var delay: Mask
    var isNew: bool
    var value: Value
    var indet: bool

    /** A tree: every child owns its nodes, and none is shared. */
    ghost predicate Shaped()
      decreases height
    {
      && this in repr
      && (forall i :: 0 <= i < |kids| ==>
            kids[i].height < height && kids[i].repr <= repr && this !in kids[i].repr && kids[i].Shaped())
      && (forall i, j :: 0 <= i < j < |kids| ==> kids[i].repr !! kids[j].repr)
    }

    /** The tree this node stands for. */
    ghost function Model(): Tree
      requires Shaped()
      reads repr
      decreases height, |kids| + 1
    {
      Node(kind, KidModels(|kids|), cov, delay, isNew, Cache(value, indet))
    }

    ghost function KidModels(n: nat): (ts: seq<Tree>)
      requires Shaped() && n <= |kids|
      ensures |ts| == n
      ensures forall i :: 0 <= i < n ==> ts[i] == kids[i].Model()
      reads repr
      decreases height, n
    {
      if n == 0 then []
      else
        KidModels(n - 1) + [kids[n - 1].Model()]
    }

    constructor (kind: Kind, kids: seq<Expression>, cov: Mask, value: Value)
      requires forall i :: 0 <= i < |kids| ==> kids[i].Shaped()
      requires forall i, j :: 0 <= i < j < |kids| ==> kids[i].repr !! kids[j].repr
      ensures Shaped()
      ensures this.kind == kind && this.kids == kids
      ensures this.cov == cov && delay == {} && isNew && this.value == value && !indet
    {
      this.kind := kind;
      this.kids := kids;
      height := Tallest(kids, |kids|) + 1;
      repr := {this} + Nodes(kids, |kids|);
      this.cov := cov;
      delay := {};
      isNew := true;
      this.value := value;
      indet := false;
    }

    static ghost function Tallest(ks: seq<Expression>, n: nat): (h: nat)
      requires n <= |ks|
      ensures forall i :: 0 <= i < n ==> ks[i].height <= h
    {
      if n == 0 then 0
      else
        var h := Tallest(ks, n - 1);
        if ks[n - 1].height > h then ks[n - 1].height else h
    }

    static ghost function Nodes(ks: seq<Expression>, n: nat): (s: set<Expression>)
      requires n <= |ks|
      ensures forall i :: 0 <= i < n ==> ks[i].repr <= s
    {
      if n == 0 then {} else Nodes(ks, n - 1) + ks[n - 1].repr
    }

    /** Children left alone keep their models. */
    twostate lemma KidsUnchanged()
      requires Shaped()
      requires forall i :: 0 <= i < |kids| ==> unchanged(kids[i].repr)
      ensures KidModels(|kids|) == old(KidModels(|kids|))
    {
      assert forall i :: 0 <= i < |kids| ==> kids[i].Model() == old(kids[i].Model());
    }

    /**
     * Visits the node: skips it when it is current, and otherwise runs its
     * kind's evaluator with the node's own delayed changes added to the mask.
     */
    method Visit(ol: ParamObjects) returns (ok: bool)
      requires Shaped()
      modifies repr, ol`modMask
      ensures ol.modMask == old(ol.modMask)
      ensures ok <==> old(Eval(Model(), ol.env, ol.modMask, ol.recalc)).Some?
      ensures ok ==> Model() == old(Eval(Model(), ol.env, ol.modMask, ol.recalc)).value
      ensures !ok ==> Wreck(old(Model()), Model(), ol.env, ol.modMask + old(delay), ol.recalc)
      decreases height, 6
    {
      hide Visited, Wreck;
      var oldMask := ol.modMask;
      ol.modMask := ol.modMask + delay;
      if !isNew && cov !! ol.modMask && !ol.recalc {
        ol.modMask := oldMask;
        return true;
      }
      ok := Dispatch(ol);
      ol.modMask := oldMask;
      if !ok {
        DropDelay();
      }
    }

    /** A failure drops the delayed changes as well. */
    method DropDelay()
      requires Shaped()
      modifies this`delay
      ensures Model() == old(Model().(delay := {}))
    {
      delay := {};
      KidsUnchanged();
    }

    /** Calls the evaluator of the node's kind. */
    method Dispatch(ol: ParamObjects) returns (ok: bool)
      requires Shaped()
      modifies repr, ol`modMask
      ensures ol.modMask == old(ol.modMask)
      ensures ok <==> old(Visited(Model(), ol.env, ol.modMask, ol.recalc)).Some?
      ensures ok ==> Model() == old(Visited(Model(), ol.env, ol.modMask, ol.recalc)).value
      ensures !ok ==> Wreck(old(Model()), Model().(delay := {}), ol.env, ol.modMask, ol.recalc)
      decreases height, 5
    {
      hide Operated, EvalUntil, Joined, Caches, Read, WreckBelow;
      if IsJunction(kind) {
        ok := VisitJunction(ol);
      } else if IsLeaf(kind) {
        ok := VisitLeaf(ol);
      } else {
        ok := VisitOperator(ol);
      }
    }

    /** A constant only sheds its flags; a reference reads its object; an unbound one is NULL and indeterminate. */
    method VisitLeaf(ol: ParamObjects) returns (ok: bool)
      requires Shaped() && IsLeaf(kind)
      modifies this
      ensures ok <==> old(Visited(Model(), ol.env, ol.modMask, ol.recalc)).Some?
      ensures ok ==> Model() == old(Visited(Model(), ol.env, ol.modMask, ol.recalc)).value
      ensures !ok ==> Model() == old(Model())
    {
      hide Read;
      match kind {
        case Const =>
          indet := false;
          isNew := false;
          ok := true;
          KidsUnchanged();
        case Unbound =>
          Settle(Null(IntegerType), true);
          ok := true;
        case Property(obj, name) =>
          var v := Read(ol.env, obj, name);
          ok := v.Some?;
          if ok {
            Settle(v.value, false);
          }
      }
    }

    /** The end of a successful visit. */
    method Settle(v: Value, unknown: bool)
      requires Shaped()
      modifies this`value, this`indet, this`isNew, this`delay
      ensures value == v && indet == unknown && !isNew && delay == {}
      ensures KidModels(|kids|) == old(KidModels(|kids|))
    {
      value := v;
      indet := unknown;
      isNew := false;
      delay := {};
      KidsUnchanged();
    }

    /** Visits one child with the mask as it stands; the other children keep their state. */
    method VisitKid(i: nat, ol: ParamObjects) returns (ok: bool)
      requires Shaped() && i < |kids|
      modifies kids[i].repr, ol`modMask
      ensures ol.modMask == old(ol.modMask)
      ensures var r := old(Eval(KidModels(|kids|)[i], ol.env, ol.modMask, ol.recalc));
              && (ok <==> r.Some?)
              && (ok ==> KidModels(|kids|) == old(KidModels(|kids|))[i := r.value])
      ensures !ok ==>
                && KidModels(|kids|) == old(KidModels(|kids|))[i := KidModels(|kids|)[i]]
                && Wreck(old(KidModels(|kids|)[i]), KidModels(|kids|)[i], ol.env, ol.modMask + old(KidModels(|kids|)[i].delay), ol.recalc)
      decreases height, 0
    {
      hide Eval, Wreck;
      ok := kids[i].Visit(ol);
      forall j | 0 <= j < |kids| && j != i
        ensures kids[j].Model() == old(kids[j].Model())
      {
        assert unchanged(kids[j].repr);
      }
    }

    /** Visits the one or two operands of an operator, stopping at an error. */
    method VisitOperands(ol: ParamObjects) returns (ok: bool)
      requires Shaped() && 1 <= |kids| <= 2
      modifies repr - {this}, ol`modMask
      ensures ol.modMask == old(ol.modMask)
      ensures var r := old(EvalAll(KidModels(|kids|), ol.env, ol.modMask, ol.recalc));
              && (ok <==> r.Some?)
              && (ok ==> KidModels(|kids|) == r.value)
      ensures !ok ==> WreckBelow(false, old(KidModels(|kids|)), KidModels(|kids|), ol.env, ol.modMask, ol.recalc)
      decreases height, 1
    {
      hide Eval, EvalAll, Wreck, WreckBelow;
      ghost var ts, env, m, rc := KidModels(|kids|), ol.env, ol.modMask, ol.recalc;
      FewOperands(ts, env, m, rc);
      ok := VisitKid(0, ol);
      if ok && |kids| == 2 {
        ok := VisitKid(1, ol);
      }
      if !ok {
        FewVisited(ts, KidModels(|kids|), env, m, rc);
      }
    }

    method VisitOperator(ol: ParamObjects) returns (ok: bool)
      requires Shaped() && (IsBinary(kind) || IsUnary(kind))
      modifies repr, ol`modMask
      ensures ol.modMask == old(ol.modMask)
      ensures cov == old(cov)
      ensures var r := old(Operated(kind, KidModels(|kids|), ol.env, ol.modMask, ol.recalc));
              && (ok <==> r.Some?)
              && (ok ==> Model() == Refreshed(old(Model()), r.value.0, r.value.1))
      ensures !ok ==> Wreck(old(Model()), Model().(delay := {}), ol.env, ol.modMask, ol.recalc)
      decreases height, 2
    {
      hide Eval, EvalAll, Combined, Caches, Refuses, Computes, Proper, WreckBelow;
      if |kids| != if IsBinary(kind) then 2 else 1 {
        return false;
      }
      ghost var ts := KidModels(|kids|);
      ok := VisitOperands(ol);
      if ok {
        AllVisited(ts, KidModels(|kids|), ol.env, ol.modMask, ol.recalc);
        ok := Conclude();
      }
    }

    /** The operator's value from its operands' values, indeterminate when one of them is. */
    method Conclude() returns (ok: bool)
      requires Shaped() && (IsBinary(kind) || IsUnary(kind))
      requires |kids| == if IsBinary(kind) then 2 else 1
      modifies this`value, this`indet, this`isNew, this`delay
      ensures KidModels(|kids|) == old(KidModels(|kids|))
      ensures var c := Combined(kind, Caches(old(KidModels(|kids|))));
              && (ok <==> c.Some?)
              && (ok ==> c.value == Cache(value, indet) && !isNew && delay == {})
      ensures !ok ==> isNew == old(isNew)
      ensures var args := Values(Caches(old(KidModels(|kids|))));
              (forall a :: a in args ==> Proper(a)) ==>
                && (ok <==> !Refuses(kind, args))
                && (ok ==> Computes(kind, args, value))
    {
      hide Apply, Refuses, Computes, Proper;
      ghost var cs := Caches(KidModels(|kids|));
      var args := if IsBinary(kind) then [kids[0].value, kids[1].value] else [kids[0].value];
      assert args == Values(cs);
      var v := Apply(kind, args);
      WhenProper(kind, args);
      ok := v.Some?;
      if ok {
        var unknown := false;
        var i := 0;
        while i < |kids|
          invariant 0 <= i <= |kids|
          invariant unknown <==> exists j :: 0 <= j < i && cs[j].indet
        {
          unknown := unknown || kids[i].indet;
          i := i + 1;
        }
        assert unknown <==> exists c :: c in cs && c.indet;
        Settle(v.value, unknown);
      }
    }

    static lemma WhenProper(k: Kind, args: seq<Value>)
      requires (IsBinary(k) || IsUnary(k)) && |args| == if IsBinary(k) then 2 else 1
      ensures (forall a :: a in args ==> Proper(a)) ==>
                && (Apply(k, args).None? <==> Refuses(k, args))
                && (Apply(k, args).Some? ==> Computes(k, args, Apply(k, args).value))
    {
      if forall a :: a in args ==> Proper(a) {
        OperatorsCompute(k, args);
      }
    }

    /** Notes on a skipped child the changes it has not seen. */
    method DeferKid(i: nat, ol: ParamObjects)
      requires Shaped() && i < |kids|
      modifies {kids[i]}`delay
      ensures KidModels(|kids|) == old(KidModels(|kids|)[i := Deferred(KidModels(|kids|)[i], ol.modMask)])
    {
      var kid := kids[i];
      kid.delay := kid.delay + ol.modMask * kid.cov;
      kid.KidsUnchanged();
      forall j | 0 <= j < |kids| && j != i
        ensures kids[j].Model() == old(kids[j].Model())
      {
        assert unchanged(kids[j].repr);
      }
    }

    /** Visits one operand of a junction, which must come out an integer or NULL. */
    method VisitTerm(i: nat, ol: ParamObjects) returns (ok: bool)
      requires Shaped() && i < |kids|
      modifies kids[i].repr, ol`modMask
      ensures ol.modMask == old(ol.modMask)
      ensures var r := old(Eval(KidModels(|kids|)[i], ol.env, ol.modMask, ol.recalc));
              && (ok <==> r.Some? && IsBoolean(r.value.cache))
              && (ok ==> KidModels(|kids|) == old(KidModels(|kids|))[i := r.value])
      ensures !ok ==>
                && KidModels(|kids|) == old(KidModels(|kids|))[i := KidModels(|kids|)[i]]
                && StopsAt(old(KidModels(|kids|)[i]), KidModels(|kids|)[i], ol.env, ol.modMask, ol.recalc)
      decreases height, 1
    {
      ok := VisitKid(i, ol);
      if ok {
        ok := kids[i].value.Null? || TypeOf(kids[i].value) == IntegerType;
        assert KidModels(|kids|)[i].cache == Cache(kids[i].value, kids[i].indet);
      }
    }

    /** One turn of a junction's loop: visits the operand, or defers it once the outcome is decided. */
    method Turn(i: nat, ol: ParamObjects, decided: bool) returns (ok: bool)
      requires Shaped() && i < |kids|
      modifies kids[i].repr, ol`modMask
      ensures ol.modMask == old(ol.modMask)
      ensures var r := old(Turned(KidModels(|kids|)[i], ol.env, ol.modMask, ol.recalc, decided));
              && (ok <==> r.Some?)
              && (ok ==> KidModels(|kids|) == old(KidModels(|kids|))[i := r.value])
      ensures !ok ==>
                && !decided
                && KidModels(|kids|) == old(KidModels(|kids|))[i := KidModels(|kids|)[i]]
                && StopsAt(old(KidModels(|kids|)[i]), KidModels(|kids|)[i], ol.env, ol.modMask, ol.recalc)
      decreases height, 2
    {
      if decided {
        DeferKid(i, ol);
        ok := true;
      } else {
        ok := VisitTerm(i, ol);
      }
    }

    /** The loop of AND and OR over their operands, with its three flags. */
    method VisitTerms(ol: ParamObjects) returns (ok: bool, decided: bool, hasNull: bool, unknown: bool)
      requires Shaped() && IsJunction(kind)
      modifies repr - {this}, ol`modMask
      ensures ol.modMask == old(ol.modMask)
      ensures var r := old(EvalUntil(kind, KidModels(|kids|), ol.env, ol.modMask, ol.recalc, false));
              && (ok <==> r.Some?)
              && (ok ==> KidModels(|kids|) == r.value && Tally(kind, Caches(r.value), decided, hasNull, unknown))
      ensures !ok ==> WreckBelow(true, old(KidModels(|kids|)), KidModels(|kids|), ol.env, ol.modMask, ol.recalc)
      decreases height, 3
    {
      hide *;
      ghost var ts, env, m, rc := KidModels(|kids|), ol.env, ol.modMask, ol.recalc;
      ghost var done: seq<Tree> := [];
      decided, hasNull, unknown := false, false, false;
      var i := 0;
      DoingStart(kind, ts, env, m, rc);
      ok := true;
      while i < |kids|
        invariant 0 <= i <= |kids| && ol.modMask == m && ol.env == env && ol.recalc == rc && ok
        invariant |done| == i
        invariant Doing(kind, ts, KidModels(|kids|), done, env, m, rc, decided, hasNull, unknown)
      {
        KidOwned(i);
        ghost var us := KidModels(|kids|);
        DoingAt(kind, ts, us, done, env, m, rc, decided, hasNull, unknown);
        ok := Turn(i, ol, decided);
        ghost var t := KidModels(|kids|)[i];
        if !ok {
          DoingStops(kind, ts, us, done, t, env, m, rc, hasNull, unknown);
          return;
        }
        DoingStep(kind, ts, us, done, t, env, m, rc, decided, hasNull, unknown);
        KidCache(i);
        done := done + [t];
        if !decided {
          hasNull := hasNull || kids[i].value.Null?;
          unknown := unknown || kids[i].indet;
          decided := Decides(kind, Cache(kids[i].value, kids[i].indet));
        }
        i := i + 1;
      }
      DoingEnd(kind, ts, KidModels(|kids|), done, env, m, rc, decided, hasNull, unknown);
    }

    lemma KidOwned(i: nat)
      requires Shaped() && i < |kids|
      ensures kids[i].repr <= repr - {this} && this in repr
    {
    }

    lemma KidCache(i: nat)
      requires Shaped() && i < |kids|
      ensures KidModels(|kids|)[i].cache == Cache(kids[i].value, kids[i].indet)
    {
    }

    /**
     * AND and OR: operands in order, short-circuiting at the first deciding
     * one; NULL when undecided and an operand was NULL.
     */
    method VisitJunction(ol: ParamObjects) returns (ok: bool)
      requires Shaped() && IsJunction(kind)
      modifies repr, ol`modMask
      ensures ol.modMask == old(ol.modMask)
      ensures cov == old(cov)
      ensures var r := old(EvalUntil(kind, KidModels(|kids|), ol.env, ol.modMask, ol.recalc, false));
              && (ok <==> r.Some?)
              && (ok ==> Model() == Refreshed(old(Model()), r.value, Joined(kind, Caches(r.value))))
      ensures !ok ==> Wreck(old(Model()), Model().(delay := {}), ol.env, ol.modMask, ol.recalc)
      decreases height, 4
    {
      hide Joined, EvalUntil, Caches, WreckBelow;
      var decided, hasNull, unknown;
      ok, decided, hasNull, unknown := VisitTerms(ol);
      if ok {
        TallyEnd(kind, Caches(KidModels(|kids|)), decided, hasNull, unknown);
        Settle(if decided then Truth(kind.Or?) else if hasNull then Null(IntegerType) else Truth(kind.And?), unknown);
      }
    }

    /** Collects the children's masks, bottom up. */
    method SetCoverageMask()
      requires Shaped()
      modifies repr
      ensures Model() == old(Masked(Model()))
      decreases height, 1
    {
      if kind.Object? || kind.Property? {
        return;
      }
      MaskKids();
    }

    method MaskKids()
      requires Shaped()
      modifies repr
      ensures KidModels(|kids|) == old(MaskedAll(KidModels(|kids|)))
      ensures cov == old(cov) + Union(KidModels(|kids|))
      ensures delay == old(delay) && isNew == old(isNew) && value == old(value) && indet == old(indet)
      decreases height, 0, 1
    {
      hide *;
      ghost var ts, c := KidModels(|kids|), cov;
      var i := 0;
      MaskStart(ts);
      while i < |kids|
        invariant 0 <= i <= |kids|
        invariant KidModels(|kids|) == MaskedAll(ts[..i]) + ts[i..]
        invariant cov == c + Union(MaskedAll(ts[..i]))
        invariant delay == old(delay) && isNew == old(isNew) && value == old(value) && indet == old(indet)
      {
        MaskStep(ts, i);
        KidOwned(i);
        MaskKid(i);
        i := i + 1;
      }
      assert ts[..i] == ts && ts[i..] == [];
    }

    /** Masks one child and adds its mask to this node's. */
    method MaskKid(i: nat)
      requires Shaped() && i < |kids|
      modifies kids[i].repr, this`cov
      ensures KidModels(|kids|) == old(KidModels(|kids|)[i := Masked(KidModels(|kids|)[i])])
      ensures cov == old(cov + Masked(KidModels(|kids|)[i]).cov)
      decreases height, 0, 0
    {
      kids[i].SetCoverageMask();
      cov := cov + kids[i].cov;
      forall j | 0 <= j < |kids|
        ensures kids[j].Model() == old(if j == i then Masked(kids[j].Model()) else kids[j].Model())
      {
      }
    }
  }

  /** A compiled expression with the stamps of its last successful evaluation. */
  class Compiled {
    const root: Expression
    var control: Control

    /** A new expression remembers stamp 0, which no parameter list has. */
    constructor (root: Expression)
      ensures this.root == root && control == Control(0, seq(MAX_PARAMS, i => 0))
    {
      this.root := root;
      control := Control(0, seq(MAX_PARAMS, i => 0));
    }

    ghost function World(ol: ParamObjects, g: Globals): World
      requires root.Shaped()
      reads this, root.repr, ol, g
    {
      ol.World(root.Model(), control, g)
    }

    /** The objects whose stamps moved since the last successful evaluation, and the bits that go with them. */
    method Changes(ol: ParamObjects) returns (mask: Mask)
      requires |control.objSeq| == |ol.seqs| && ol.nObjects <= |ol.seqs|
      ensures mask == ChangeMask(control, ol.Params())
    {
      mask := {EXTREF_BIT};
      if control.pSeq != ol.pSeq {
        mask := mask + Bits(32);
      } else {
        var i := 0;
        while i < ol.nObjects
          invariant 0 <= i <= ol.nObjects
          invariant mask == {EXTREF_BIT} + StaleBelow(control, ol.Params(), i)
        {
          if ol.seqs[i] != control.objSeq[i] {
            mask := mask + {i};
          }
          i := i + 1;
        }
      }
      if !(mask !! Bits(MAX_PARAMS)) {
        mask := mask + {INDETERMINATE_BIT};
      }
    }

    /** One visit from the root with the given mask, which does not outlive it. */
    method VisitWith(mask: Mask, ol: ParamObjects) returns (ok: bool)
      requires root.Shaped()
      modifies root.repr, ol`modMask
      ensures ol.modMask == old(ol.modMask)
      ensures ok <==> Eval(old(root.Model()), ol.env, mask, ol.recalc).Some?
      ensures ok ==> root.Model() == Eval(old(root.Model()), ol.env, mask, ol.recalc).value
      ensures !ok ==> Wreck(old(root.Model()), root.Model(), ol.env, mask + old(root.Model()).delay, ol.recalc)
    {
      hide Eval, Wreck;
      var oldMask := ol.modMask;
      ol.modMask := mask;
      ok := root.Visit(ol);
      ol.modMask := oldMask;
    }

    /** Evaluates the expression, and on success remembers the stamps it was evaluated under. */
    method EvalTree(ol: ParamObjects, ghost g: Globals) returns (ok: bool)
      requires root.Shaped() && ExpRun.Shaped(World(ol, g))
      modifies this, root.repr, ol
      ensures ol.modMask == old(ol.modMask)
      ensures ok <==> Evaluated(old(World(ol, g))).Some?
      ensures ok ==> World(ol, g) == Evaluated(old(World(ol, g))).value
      ensures !ok ==> Allowed(old(World(ol, g)), Fail(root.Model()))
      ensures !ok ==> World(ol, g) == Do(old(World(ol, g)), Fail(root.Model())).value
    {
      hide Eval, ChangeMask, Evaluated, Stale, Bits, Wreck;
      ghost var w := World(ol, g);
      EvaluatedFrom(w);
      var mask := Changes(ol);
      ok := VisitWith(mask, ol);
      if ok {
        control := Control(ol.pSeq, ol.seqs);
        ol.recalc := false;
      }
    }
  }
}
