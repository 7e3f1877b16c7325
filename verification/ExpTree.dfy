/**
 * Expression trees as values: what one node evaluates to, what the
 * incremental evaluator computes and caches, and what an evaluation from
 * scratch gives. The evaluator that updates nodes in place is in ExpNodes.
 */
module ExpTree {
  import opened Options
  import opened Ints
  import opened Money

  const MAX_PARAMS: nat := 30
  const INDETERMINATE_BIT: nat := 30
  const EXTREF_BIT: nat := 31

  /** A 32-bit coverage mask: one bit per parameter object, one for indeterminate values, one for external references. */
  type Mask = set<nat>

  /** The lowest n bits. */
  function Bits(n: nat): (m: Mask)
    ensures forall b :: b in m <==> 0 <= b < n
  {
    if n == 0 then {} else Bits(n - 1) + {n - 1}
  }

  datatype DType = IntegerType | MoneyType

  /** A typed value; a NULL keeps its data type, but its payload is never looked at. */
  datatype Value = Null(dtype: DType) | Int(i: int) | Amount(m: Money)

  function TypeOf(v: Value): DType {
    match v
    case Null(t) => t
    case Int(_) => IntegerType
    case Amount(_) => MoneyType
  }

  /** What a node remembers of its last evaluation. */
  datatype Cache = Cache(value: Value, indet: bool)

  datatype Kind =
    | Const
    | Property(obj: nat, name: string)
    | Unbound
    | Object
    | And
    | Or
    | Not
    | IsNull
    | IsNotNull
    | Compare(eq: bool, gt: bool, lt: bool)
    | Plus
    | Minus
    | Multiply
    | Divide

  datatype Tree = Node(kind: Kind, kids: seq<Tree>, cov: Mask, delay: Mask, isNew: bool, cache: Cache)

  /** The parameter objects: a slot may be empty, and an object offers named attributes. */
  type Env = map<nat, map<string, Value>>

  // ------------------------------------------------------------------ operators

  /** The three-way comparison of two non-NULL values; integers are compared by a 32-bit subtraction. */
  function Order(a: Value, b: Value): int
    requires !a.Null? && !b.Null?
  {
    match (a, b)
    case (Int(i), Int(j)) => Wrap32(i - j)
    case (Int(i), Amount(m)) => IntOrder(i, m)
    case (Amount(m), Int(j)) => -IntOrder(j, m)
    case (Amount(m), Amount(n)) => if m.whole != n.whole then m.whole - n.whole else m.frac - n.frac
  }

  function IntOrder(i: int, m: Money): int {
    if m.whole > i then -1
    else if m.whole < i then 1
    else if m.frac != 0 then -1 else 0
  }

  function Truth(b: bool): Value {
    Int(if b then 1 else 0)
  }

  function Compared(k: Kind, a: Value, b: Value): Value
    requires k.Compare?
  {
    if a.Null? || b.Null? then Truth(false)
    else
      var v := Order(a, b);
      Truth((k.eq && v == 0) || (k.gt && v > 0) || (k.lt && v < 0))
  }

  function Added(a: Value, b: Value): Value {
    if a.Null? || b.Null? then Null(TypeOf(a))
    else
      match (a, b)
      case (Int(i), Int(j)) => Int(Wrap32(i + j))
      case (Int(i), Amount(m)) => Amount(PlusInt(m, i))
      case (Amount(m), Int(j)) => Amount(PlusMoney(m, Money(j, 0)))
      case (Amount(m), Amount(n)) => Amount(PlusMoney(m, n))
  }

  function Subtracted(a: Value, b: Value): Value {
    if a.Null? || b.Null? then Null(IntegerType)
    else
      match (a, b)
      case (Int(i), Int(j)) => Int(Wrap32(i - j))
      case (Int(i), Amount(m)) => Amount(IntMinusMoney(i, m))
      case (Amount(m), Int(j)) => Amount(MoneyMinusInt(m, j))
      case (Amount(m), Amount(n)) => Amount(MinusMoney(m, n))
  }

  function Multiplied(a: Value, b: Value): Option<Value> {
    if a.Null? || b.Null? then Some(Null(IntegerType))
    else
      match (a, b)
      case (Int(i), Int(j)) => Some(Int(Wrap32(i * j)))
      case (Int(i), Amount(m)) => Some(Amount(TimesInt(m, i)))
      case (Amount(m), Int(j)) => Some(Amount(TimesInt(m, j)))
      case (Amount(_), Amount(_)) => None
  }

  /** Integer by money is refused; money by money is an integer when it divides, and a double otherwise, which is not modelled. */
  function Divided(a: Value, b: Value): Option<Value> {
    if a.Null? || b.Null? then Some(Null(IntegerType))
    else
      match (a, b)
      case (Int(i), Int(j)) => if j == 0 then None else Some(Int(Wrap32(Quot(i, j))))
      case (Int(_), Amount(_)) => None
      case (Amount(m), Int(j)) =>
        if DivideInt(m, j).Quotient? then Some(Amount(DivideInt(m, j).value)) else None
      case (Amount(m), Amount(n)) =>
        if Units(n) == 0 then None
        else if Rem(Units(m), Units(n)) == 0 && IsInt32(Quot(Units(m), Units(n)))
        then Some(Int(Quot(Units(m), Units(n))))
        else None
  }

  /** NOT reads its operand's integer field, which only an integer operand sets: anything else is refused here. */
  function Negation(a: Value): Option<Value> {
    match a
    case Null(_) => Some(Null(IntegerType))
    case Int(i) => Some(Truth(i == 0))
    case Amount(_) => None
  }

  predicate IsJunction(k: Kind) {
    k.And? || k.Or?
  }

  predicate IsBinary(k: Kind) {
    k.Compare? || k.Plus? || k.Minus? || k.Multiply? || k.Divide?
  }

  predicate IsUnary(k: Kind) {
    k.Not? || k.IsNull? || k.IsNotNull? || k.Object?
  }

  predicate IsLeaf(k: Kind) {
    k.Const? || k.Property? || k.Unbound?
  }

  /** The value of a node other than a leaf or a junction, from its operands' values. */
  function Apply(k: Kind, args: seq<Value>): Option<Value>
    requires IsBinary(k) || IsUnary(k)
    requires |args| == if IsBinary(k) then 2 else 1
  {
    match k
    case Compare(_, _, _) => Some(Compared(k, args[0], args[1]))
    case Plus => Some(Added(args[0], args[1]))
    case Minus => Some(Subtracted(args[0], args[1]))
    case Multiply => Multiplied(args[0], args[1])
    case Divide => Divided(args[0], args[1])
    case Not => Negation(args[0])
    case IsNull => Some(Truth(args[0].Null?))
    case IsNotNull => Some(Truth(!args[0].Null?))
    case Object => Some(args[0])
  }

  /** An attribute read: an empty slot gives NULL, an object without the attribute an error. */
  function Read(env: Env, obj: nat, name: string): Option<Value> {
    if obj !in env then Some(Null(IntegerType))
    else if name in env[obj] then Some(env[obj][name])
    else None
  }

  // ------------------------------------------------------------------ AND and OR

  /** A known false decides an AND, a known true an OR. */
  predicate Decides(k: Kind, c: Cache)
    requires IsJunction(k)
  {
    !c.indet && c.value.Int? && (k.And? <==> c.value.i == 0)
  }

  /** AND and OR accept integers and NULLs only. */
  predicate IsBoolean(c: Cache) {
    TypeOf(c.value) == IntegerType || c.value.Null?
  }

  /** What a junction concludes from its operands, in order, up to the first deciding one. */
  function Joined(k: Kind, cs: seq<Cache>): Cache
    requires IsJunction(k)
  {
    if cs == [] then Cache(Truth(k.And?), false)
    else if Decides(k, cs[0]) then Cache(Truth(k.Or?), false)
    else
      var rest := Joined(k, cs[1..]);
      var unknown := cs[0].value.Null? && rest.value == Truth(k.And?);
      Cache(if unknown then Null(IntegerType) else rest.value, cs[0].indet || rest.indet)
  }

  predicate Undecided(k: Kind, cs: seq<Cache>)
    requires IsJunction(k)
  {
    forall i :: 0 <= i < |cs| ==> !Decides(k, cs[i])
  }

  /** One more operand: it changes nothing after a deciding one, and otherwise decides or adds its own doubt. */
  lemma {:induction false} JoinedSnoc(k: Kind, cs: seq<Cache>, c: Cache)
    requires IsJunction(k)
    ensures !Undecided(k, cs) ==> Joined(k, cs + [c]) == Joined(k, cs)
    ensures Undecided(k, cs) ==> Joined(k, cs).value in {Null(IntegerType), Truth(k.And?)}
    ensures Undecided(k, cs) && Decides(k, c) ==>
              Joined(k, cs + [c]) == Cache(Truth(k.Or?), Joined(k, cs).indet)
    ensures Undecided(k, cs) && !Decides(k, c) ==>
              Joined(k, cs + [c]) ==
              Cache(if c.value.Null? then Null(IntegerType) else Joined(k, cs).value, Joined(k, cs).indet || c.indet)
  {
    if cs == [] {
      assert (cs + [c])[1..] == [];
    } else {
      assert (cs + [c])[1..] == cs[1..] + [c];
      assert (cs + [c])[0] == cs[0];
      JoinedSnoc(k, cs[1..], c);
      if !Decides(k, cs[0]) {
        UndecidedTail(k, cs);
      }
    }
  }

  lemma UndecidedTail(k: Kind, cs: seq<Cache>)
    requires IsJunction(k) && cs != [] && !Decides(k, cs[0])
    ensures Undecided(k, cs) <==> Undecided(k, cs[1..])
  {
    if Undecided(k, cs[1..]) {
      forall i | 0 <= i < |cs|
        ensures !Decides(k, cs[i])
      {
        assert i > 0 ==> cs[i] == cs[1..][i - 1];
      }
    }
  }

  // ------------------------------------------------------------------ evaluation from scratch

  /** The value of a tree, computed from its constants and the objects alone. */
  function Scratch(t: Tree, env: Env): Option<Cache>
    decreases t
  {
    if t.kind.Const? then Some(Cache(t.cache.value, false))
    else if t.kind.Unbound? then Some(Cache(Null(IntegerType), true))
    else if t.kind.Property? then
      var v := Read(env, t.kind.obj, t.kind.name);
      if v.Some? then Some(Cache(v.value, false)) else None
    else if IsJunction(t.kind) then
      var cs := ScratchUntil(t.kind, t.kids, env);
      if cs.Some? then Some(Joined(t.kind, cs.value)) else None
    else if |t.kids| != (if IsBinary(t.kind) then 2 else 1) then None
    else
      var cs := ScratchAll(t.kids, env);
      if cs.Some? then Combined(t.kind, cs.value) else None
  }

  /** An operator node: its value from its operands', indeterminate when one of them is. */
  function Combined(k: Kind, cs: seq<Cache>): Option<Cache>
    requires IsBinary(k) || IsUnary(k)
    requires |cs| == if IsBinary(k) then 2 else 1
  {
    var v := Apply(k, Values(cs));
    if v.Some? then Some(Cache(v.value, exists c :: c in cs && c.indet)) else None
  }

  function Values(cs: seq<Cache>): (vs: seq<Value>)
    ensures |vs| == |cs|
    ensures forall i :: 0 <= i < |cs| ==> vs[i] == cs[i].value
  {
    if cs == [] then [] else [cs[0].value] + Values(cs[1..])
  }

  function ScratchAll(ts: seq<Tree>, env: Env): (r: Option<seq<Cache>>)
    ensures r.Some? ==> |r.value| == |ts|
    decreases ts
  {
    if ts == [] then Some([])
    else
      var c := Scratch(ts[0], env);
      if c.None? then None
      else
        var rest := ScratchAll(ts[1..], env);
        if rest.Some? then Some([c.value] + rest.value) else None
  }

  /** The operands of a junction up to the first deciding one. */
  function ScratchUntil(k: Kind, ts: seq<Tree>, env: Env): Option<seq<Cache>>
    requires IsJunction(k)
    decreases ts
  {
    if ts == [] then Some([])
    else
      var c := Scratch(ts[0], env);
      if c.None? || !IsBoolean(c.value) then None
      else if Decides(k, c.value) then Some([c.value])
      else
        var rest := ScratchUntil(k, ts[1..], env);
        if rest.Some? then Some([c.value] + rest.value) else None
  }

  // ------------------------------------------------------------------ incremental evaluation

  /** A node that need not be visited: it is not new and nothing it depends on is in the mask. */
  predicate Current(t: Tree, mask: Mask, recalc: bool) {
    !t.isNew && t.cov !! mask + t.delay && !recalc
  }

  /** One visit of the evaluator: the tree with its caches, stale marks and delayed masks brought up to date. */
  function Eval(t: Tree, env: Env, mask: Mask, recalc: bool): Option<Tree>
    decreases t, 1
  {
    if Current(t, mask, recalc) then Some(t) else Visited(t, env, mask + t.delay, recalc)
  }

  /** The node's own evaluator, with its delayed changes already in the mask. */
  function Visited(t: Tree, env: Env, m: Mask, recalc: bool): Option<Tree>
    decreases t, 0
  {
    if t.kind.Const? then Some(t.(isNew := false, cache := Cache(t.cache.value, false)))
    else if t.kind.Unbound? then Some(Refreshed(t, t.kids, Cache(Null(IntegerType), true)))
    else if t.kind.Property? then
      var v := Read(env, t.kind.obj, t.kind.name);
      if v.Some? then Some(Refreshed(t, t.kids, Cache(v.value, false))) else None
    else if IsJunction(t.kind) then
      var ks := EvalUntil(t.kind, t.kids, env, m, recalc, false);
      if ks.Some? then Some(Refreshed(t, ks.value, Joined(t.kind, Caches(ks.value)))) else None
    else
      var r := Operated(t.kind, t.kids, env, m, recalc);
      if r.Some? then Some(Refreshed(t, r.value.0, r.value.1)) else None
  }

  /** An operator: its operands visited in order, then combined. */
  function Operated(k: Kind, ts: seq<Tree>, env: Env, mask: Mask, recalc: bool): Option<(seq<Tree>, Cache)>
    requires IsBinary(k) || IsUnary(k)
    decreases ts, 1
  {
    if |ts| != (if IsBinary(k) then 2 else 1) then None
    else
      var ks := EvalAll(ts, env, mask, recalc);
      if ks.None? then None
      else
        var c := Combined(k, Caches(ks.value));
        if c.Some? then Some((ks.value, c.value)) else None
  }

  function Refreshed(t: Tree, kids: seq<Tree>, c: Cache): Tree {
    Node(t.kind, kids, t.cov, {}, false, c)
  }

  function Caches(ts: seq<Tree>): (cs: seq<Cache>)
    ensures |cs| == |ts|
    ensures forall i :: 0 <= i < |ts| ==> cs[i] == ts[i].cache
  {
    if ts == [] then [] else [ts[0].cache] + Caches(ts[1..])
  }

  function EvalAll(ts: seq<Tree>, env: Env, mask: Mask, recalc: bool): (r: Option<seq<Tree>>)
    ensures r.Some? ==> |r.value| == |ts|
    decreases ts, 0
  {
    if ts == [] then Some([])
    else
      var t := Eval(ts[0], env, mask, recalc);
      if t.None? then None
      else
        var rest := EvalAll(ts[1..], env, mask, recalc);
        if rest.Some? then Some([t.value] + rest.value) else None
  }

  lemma FewOperands(ts: seq<Tree>, env: Env, mask: Mask, recalc: bool)
    requires 1 <= |ts| <= 2
    ensures var a := Eval(ts[0], env, mask, recalc);
            EvalAll(ts, env, mask, recalc) ==
            if a.None? then None
            else if |ts| == 1 then Some([a.value])
            else
              var b := Eval(ts[1], env, mask, recalc);
              if b.None? then None else Some([a.value, b.value])
  {
    hide Eval;
    var us, a := ts[1..], Eval(ts[0], env, mask, recalc);
    if |ts| == 2 {
      assert us == [ts[1]] && us[1..] == [];
      var b := Eval(us[0], env, mask, recalc);
      assert EvalAll(us, env, mask, recalc) == if b.None? then None else Some([b.value]);
      assert a.Some? && b.Some? ==> [a.value] + [b.value] == [a.value, b.value];
    } else {
      assert us == [];
      assert EvalAll(us, env, mask, recalc) == Some([]);
      assert a.Some? ==> [a.value] + [] == [a.value];
    }
  }

  /** A short-circuited operand is not visited: the changes it missed are noted on it for its next visit. */
  function Deferred(t: Tree, mask: Mask): Tree {
    t.(delay := t.delay + mask * t.cov)
  }

  /** A junction's operands: visited up to the first deciding one, deferred after it. */
  function EvalUntil(k: Kind, ts: seq<Tree>, env: Env, mask: Mask, recalc: bool, decided: bool): (r: Option<seq<Tree>>)
    requires IsJunction(k)
    ensures r.Some? ==> |r.value| == |ts|
    decreases ts
  {
    if ts == [] then Some([])
    else if decided then
      var rest := EvalUntil(k, ts[1..], env, mask, recalc, true);
      if rest.Some? then Some([Deferred(ts[0], mask)] + rest.value) else None
    else
      var t := Eval(ts[0], env, mask, recalc);
      if t.None? || !IsBoolean(t.value.cache) then None
      else
        var rest := EvalUntil(k, ts[1..], env, mask, recalc, Decides(k, t.value.cache));
        if rest.Some? then Some([t.value] + rest.value) else None
  }

  // ------------------------------------------------------------------ visits that fail

  /** The operands of a failing node are visited, in order, up to one that fails or ends a junction. */
  predicate Enters(t: Tree) {
    IsJunction(t.kind) || ((IsBinary(t.kind) || IsUnary(t.kind)) && |t.kids| == if IsBinary(t.kind) then 2 else 1)
  }

  /**
   * What a failed visit may leave, m being the mask with the node's delayed
   * changes: these are gone, the node is as new as it was, and whatever its
   * cache holds, operands before the failure are up to date and those after it
   * untouched.
   */
  predicate Wreck(t: Tree, t': Tree, env: Env, m: Mask, recalc: bool)
    decreases t
  {
    && t'.kind == t.kind && t'.cov == t.cov && t'.isNew == t.isNew && t'.delay == {}
    && if Enters(t) then WreckBelow(IsJunction(t.kind), t.kids, t'.kids, env, m, recalc) else t'.kids == t.kids
  }

  /** A junction also stops at an operand that is neither an integer nor NULL. */
  predicate WreckBelow(junction: bool, ts: seq<Tree>, ts': seq<Tree>, env: Env, mask: Mask, recalc: bool)
    decreases ts
  {
    && |ts'| == |ts|
    && (ts != [] ==>
          var u := Eval(ts[0], env, mask, recalc);
          if u.None? then Wreck(ts[0], ts'[0], env, mask + ts[0].delay, recalc) && ts'[1..] == ts[1..]
          else
            && ts'[0] == u.value
            && if junction && !IsBoolean(u.value.cache) then ts'[1..] == ts[1..]
               else WreckBelow(junction, ts[1..], ts'[1..], env, mask, recalc))
  }

  /** Where a junction's visits stop short. */
  predicate StopsAt(t: Tree, t': Tree, env: Env, mask: Mask, recalc: bool) {
    var u := Eval(t, env, mask, recalc);
    if u.None? then Wreck(t, t', env, mask + t.delay, recalc) else t' == u.value && !IsBoolean(u.value.cache)
  }

  /** The operands visited before that. */
  predicate Trail(ts: seq<Tree>, done: seq<Tree>, env: Env, mask: Mask, recalc: bool) {
    && |done| <= |ts|
    && forall j :: 0 <= j < |done| ==> Eval(ts[j], env, mask, recalc) == Some(done[j]) && IsBoolean(done[j].cache)
  }

  lemma TrailStart(ts: seq<Tree>, env: Env, mask: Mask, recalc: bool)
    ensures Trail(ts, [], env, mask, recalc)
  {
  }

  lemma TrailStep(ts: seq<Tree>, done: seq<Tree>, t: Tree, env: Env, mask: Mask, recalc: bool)
    requires Trail(ts, done, env, mask, recalc) && |done| < |ts|
    requires Turned(ts[|done|], env, mask, recalc, false) == Some(t)
    ensures Trail(ts, done + [t], env, mask, recalc)
  {
    hide Eval;
  }

  lemma {:induction false} TrailEnds(ts: seq<Tree>, done: seq<Tree>, t: Tree, env: Env, mask: Mask, recalc: bool)
    requires Trail(ts, done, env, mask, recalc) && |done| < |ts|
    requires StopsAt(ts[|done|], t, env, mask, recalc)
    ensures WreckBelow(true, ts, (done + [t]) + ts[|done| + 1..], env, mask, recalc)
    decreases done
  {
    hide Eval, Wreck;
    var us := (done + [t]) + ts[|done| + 1..];
    if done == [] {
      assert us == [t] + ts[1..] && us[1..] == ts[1..];
    } else {
      assert us[1..] == (done[1..] + [t]) + ts[1..][|done[1..]| + 1..];
      TrailEnds(ts[1..], done[1..], t, env, mask, recalc);
    }
  }

  /** Operands that were all visited, for an operator that then fails. */
  lemma {:induction false} AllVisited(ts: seq<Tree>, us: seq<Tree>, env: Env, mask: Mask, recalc: bool)
    requires EvalAll(ts, env, mask, recalc) == Some(us)
    ensures WreckBelow(false, ts, us, env, mask, recalc)
    decreases ts
  {
    hide Eval;
    if ts != [] {
      AllVisited(ts[1..], us[1..], env, mask, recalc);
    }
  }

  /** One or two operands, of which one fails. */
  lemma FewVisited(ts: seq<Tree>, us: seq<Tree>, env: Env, mask: Mask, recalc: bool)
    requires 1 <= |ts| <= 2 && |us| == |ts|
    requires var a := Eval(ts[0], env, mask, recalc);
             if a.None? then Wreck(ts[0], us[0], env, mask + ts[0].delay, recalc) && us[1..] == ts[1..]
             else
               && a.value == us[0] && |ts| == 2
               && Eval(ts[1], env, mask, recalc).None? && Wreck(ts[1], us[1], env, mask + ts[1].delay, recalc)
    ensures WreckBelow(false, ts, us, env, mask, recalc)
  {
    hide Eval, Wreck;
    if Eval(ts[0], env, mask, recalc).Some? {
      assert ts[1..] == [ts[1]] && us[1..] == [us[1]];
      assert WreckBelow(false, [ts[1]], [us[1]], env, mask, recalc);
    }
  }

  // ------------------------------------------------------------------ the junction's loop

  /** What becomes of one operand. */
  function Turned(t: Tree, env: Env, mask: Mask, recalc: bool, decided: bool): Option<Tree> {
    if decided then Some(Deferred(t, mask))
    else
      var u := Eval(t, env, mask, recalc);
      if u.None? || !IsBoolean(u.value.cache) then None else u
  }

  function Prepended(done: seq<Tree>, r: Option<seq<Tree>>): Option<seq<Tree>> {
    if r.Some? then Some(done + r.value) else None
  }

  /** The operands done so far are those the whole junction will have, and the rest decides whether it has any. */
  predicate Progress(k: Kind, ts: seq<Tree>, done: seq<Tree>, env: Env, mask: Mask, recalc: bool, decided: bool)
    requires IsJunction(k)
  {
    && |done| <= |ts|
    && EvalUntil(k, ts, env, mask, recalc, false)
       == Prepended(done, EvalUntil(k, ts[|done|..], env, mask, recalc, decided))
  }

  lemma ProgressStart(k: Kind, ts: seq<Tree>, env: Env, mask: Mask, recalc: bool)
    requires IsJunction(k)
    ensures Progress(k, ts, [], env, mask, recalc, false)
  {
    hide EvalUntil;
    assert ts[0..] == ts;
    var r := EvalUntil(k, ts, env, mask, recalc, false);
    assert r.Some? ==> [] + r.value == r.value;
  }

  lemma ProgressStep(k: Kind, ts: seq<Tree>, done: seq<Tree>, env: Env, mask: Mask, recalc: bool, decided: bool)
    requires IsJunction(k) && |done| < |ts|
    requires Progress(k, ts, done, env, mask, recalc, decided)
    ensures var t := Turned(ts[|done|], env, mask, recalc, decided);
            if t.None? then EvalUntil(k, ts, env, mask, recalc, false).None?
            else Progress(k, ts, done + [t.value], env, mask, recalc, decided || Decides(k, t.value.cache))
  {
    hide Eval, Decides;
    var i := |done|;
    assert ts[i..][0] == ts[i] && ts[i..][1..] == ts[i + 1..];
    var t := Turned(ts[i], env, mask, recalc, decided);
    if t.Some? {
      var r := EvalUntil(k, ts[i + 1..], env, mask, recalc, decided || Decides(k, t.value.cache));
      assert r.Some? ==> done + ([t.value] + r.value) == (done + [t.value]) + r.value;
    }
  }

  lemma ProgressEnd(k: Kind, ts: seq<Tree>, done: seq<Tree>, env: Env, mask: Mask, recalc: bool, decided: bool)
    requires IsJunction(k) && |done| == |ts| && Progress(k, ts, done, env, mask, recalc, decided)
    ensures EvalUntil(k, ts, env, mask, recalc, false) == Some(done)
  {
    assert ts[|done|..] == [];
    assert done + [] == done;
  }

  /** The loop's three flags say what the operands so far conclude. */
  predicate Tally(k: Kind, cs: seq<Cache>, decided: bool, hasNull: bool, unknown: bool)
    requires IsJunction(k)
  {
    && (decided <==> !Undecided(k, cs))
    && Joined(k, cs) ==
       Cache(if decided then Truth(k.Or?) else if hasNull then Null(IntegerType) else Truth(k.And?), unknown)
  }

  lemma TallyStart(k: Kind)
    requires IsJunction(k)
    ensures Tally(k, Caches([]), false, false, false)
  {
  }

  lemma TallyStep(k: Kind, cs: seq<Cache>, decided: bool, hasNull: bool, unknown: bool, c: Cache)
    requires IsJunction(k) && Tally(k, cs, decided, hasNull, unknown)
    ensures if decided then Tally(k, cs + [c], true, hasNull, unknown)
            else Tally(k, cs + [c], Decides(k, c), hasNull || c.value.Null?, unknown || c.indet)
  {
    hide Joined;
    JoinedSnoc(k, cs, c);
    assert Undecided(k, cs + [c]) <==> Undecided(k, cs) && !Decides(k, c) by {
      assert (cs + [c])[|cs|] == c;
      assert forall i :: 0 <= i < |cs| ==> (cs + [c])[i] == cs[i];
    }
  }

  lemma TallyEnd(k: Kind, cs: seq<Cache>, decided: bool, hasNull: bool, unknown: bool)
    requires IsJunction(k) && Tally(k, cs, decided, hasNull, unknown)
    ensures Joined(k, cs) ==
            Cache(if decided then Truth(k.Or?) else if hasNull then Null(IntegerType) else Truth(k.And?), unknown)
  {
  }

  lemma UpdateSplit(ts: seq<Tree>, done: seq<Tree>, t: Tree)
    requires |done| < |ts|
    ensures (done + ts[|done|..])[|done| := t] == (done + [t]) + ts[|done| + 1..]
  {
  }

  lemma CachesSnoc(ts: seq<Tree>, t: Tree)
    ensures Caches(ts + [t]) == Caches(ts) + [t.cache]
  {
  }

  /** The loop as a whole: us are the operands as they stand, of which the first are done. */
  predicate Doing(k: Kind, ts: seq<Tree>, us: seq<Tree>, done: seq<Tree>, env: Env, mask: Mask, recalc: bool,
                  decided: bool, hasNull: bool, unknown: bool)
    requires IsJunction(k)
  {
    && |done| <= |ts| && us == done + ts[|done|..]
    && Progress(k, ts, done, env, mask, recalc, decided)
    && Tally(k, Caches(done), decided, hasNull, unknown)
    && (!decided ==> Trail(ts, done, env, mask, recalc))
  }

  lemma DoingStart(k: Kind, ts: seq<Tree>, env: Env, mask: Mask, recalc: bool)
    requires IsJunction(k)
    ensures Doing(k, ts, ts, [], env, mask, recalc, false, false, false)
  {
    hide Progress, Tally, Trail;
    ProgressStart(k, ts, env, mask, recalc);
    TallyStart(k);
    TrailStart(ts, env, mask, recalc);
  }

  lemma DoingAt(k: Kind, ts: seq<Tree>, us: seq<Tree>, done: seq<Tree>, env: Env, mask: Mask, recalc: bool,
                decided: bool, hasNull: bool, unknown: bool)
    requires IsJunction(k) && Doing(k, ts, us, done, env, mask, recalc, decided, hasNull, unknown)
    ensures |us| == |ts| && (|done| < |ts| ==> us[|done|] == ts[|done|])
  {
  }

  lemma DoingStep(k: Kind, ts: seq<Tree>, us: seq<Tree>, done: seq<Tree>, t: Tree, env: Env, mask: Mask, recalc: bool,
                  decided: bool, hasNull: bool, unknown: bool)
    requires IsJunction(k) && Doing(k, ts, us, done, env, mask, recalc, decided, hasNull, unknown)
    requires |done| < |ts| == |us| && Turned(ts[|done|], env, mask, recalc, decided) == Some(t)
    ensures if decided then Doing(k, ts, us[|done| := t], done + [t], env, mask, recalc, true, hasNull, unknown)
            else Doing(k, ts, us[|done| := t], done + [t], env, mask, recalc,
                       Decides(k, t.cache), hasNull || t.cache.value.Null?, unknown || t.cache.indet)
  {
    hide Progress, Tally, Trail, Turned, Decides, Caches;
    ProgressStep(k, ts, done, env, mask, recalc, decided);
    TallyStep(k, Caches(done), decided, hasNull, unknown, t.cache);
    CachesSnoc(done, t);
    UpdateSplit(ts, done, t);
    if !decided {
      TrailStep(ts, done, t, env, mask, recalc);
    }
  }

  lemma DoingStops(k: Kind, ts: seq<Tree>, us: seq<Tree>, done: seq<Tree>, t: Tree, env: Env, mask: Mask, recalc: bool,
                   hasNull: bool, unknown: bool)
    requires IsJunction(k) && Doing(k, ts, us, done, env, mask, recalc, false, hasNull, unknown)
    requires |done| < |ts| == |us| && Turned(ts[|done|], env, mask, recalc, false).None?
    requires StopsAt(ts[|done|], t, env, mask, recalc)
    ensures EvalUntil(k, ts, env, mask, recalc, false).None?
    ensures WreckBelow(true, ts, us[|done| := t], env, mask, recalc)
  {
    hide Progress, Tally, Trail, Turned, StopsAt, WreckBelow, EvalUntil;
    ProgressStep(k, ts, done, env, mask, recalc, false);
    UpdateSplit(ts, done, t);
    TrailEnds(ts, done, t, env, mask, recalc);
  }

  lemma DoingEnd(k: Kind, ts: seq<Tree>, us: seq<Tree>, done: seq<Tree>, env: Env, mask: Mask, recalc: bool,
                 decided: bool, hasNull: bool, unknown: bool)
    requires IsJunction(k) && Doing(k, ts, us, done, env, mask, recalc, decided, hasNull, unknown) && |done| == |ts|
    ensures EvalUntil(k, ts, env, mask, recalc, false) == Some(us) && Tally(k, Caches(us), decided, hasNull, unknown)
  {
    hide Progress, Tally, Trail, EvalUntil;
    ProgressEnd(k, ts, done, env, mask, recalc, decided);
    assert us == done;
  }

  // ------------------------------------------------------------------ coverage masks

  /** The mask pass: a node's mask collects its children's; references keep the masks the parser gave them. */
  function Masked(t: Tree): Tree
    decreases t, 1
  {
    if t.kind.Object? || t.kind.Property? then t
    else
      var ks := MaskedAll(t.kids);
      t.(kids := ks, cov := t.cov + Union(ks))
  }

  function MaskedAll(ts: seq<Tree>): (us: seq<Tree>)
    ensures |us| == |ts|
    ensures forall i :: 0 <= i < |ts| ==> us[i] == Masked(ts[i])
    decreases ts
  {
    if ts == [] then [] else MaskedAll(ts[..|ts| - 1]) + [Masked(ts[|ts| - 1])]
  }

  function Union(ts: seq<Tree>): Mask {
    if ts == [] then {} else Union(ts[..|ts| - 1]) + ts[|ts| - 1].cov
  }

  lemma MaskStart(ts: seq<Tree>)
    ensures MaskedAll(ts[..0]) + ts[0..] == ts && Union(MaskedAll(ts[..0])) == {}
  {
  }

  lemma MaskStep(ts: seq<Tree>, i: nat)
    requires i < |ts|
    ensures (MaskedAll(ts[..i]) + ts[i..])[i] == ts[i]
    ensures (MaskedAll(ts[..i]) + ts[i..])[i := Masked(ts[i])] == MaskedAll(ts[..i + 1]) + ts[i + 1..]
    ensures Union(MaskedAll(ts[..i + 1])) == Union(MaskedAll(ts[..i])) + Masked(ts[i]).cov
  {
    assert ts[..i + 1][..i] == ts[..i];
    var us := MaskedAll(ts[..i + 1]);
    assert us == MaskedAll(ts[..i]) + [Masked(ts[i])];
    assert us[..i] == MaskedAll(ts[..i]);
  }

  lemma {:induction false} UnionHas(ts: seq<Tree>, i: nat)
    requires i < |ts|
    ensures ts[i].cov <= Union(ts)
  {
    if i < |ts| - 1 {
      UnionHas(ts[..|ts| - 1], i);
    }
  }

  // ------------------------------------------------------------------ what holds between evaluations

  /** Masks cover what a tree reads: a property its object, a node all of its children. */
  predicate Covers(t: Tree)
    decreases t
  {
    && (t.kind.Property? ==> t.kind.obj in t.cov)
    && (t.kind.Unbound? ==> EXTREF_BIT in t.cov)
    && (IsLeaf(t.kind) ==> t.kids == [])
    && CoversAll(t.kids, t.cov)
  }

  predicate CoversAll(ts: seq<Tree>, cov: Mask)
    decreases ts
  {
    ts != [] ==> ts[0].cov <= cov && Covers(ts[0]) && CoversAll(ts[1..], cov)
  }

  /**
   * With the objects in pending changed since the last evaluation: a node that
   * is not new, and whose mask misses both those and its own delayed changes,
   * has its from-scratch value cached; and so for its children, to which its
   * delayed changes will be passed.
   */
  predicate Coherent(t: Tree, env: Env, pending: Mask)
    decreases t
  {
    && (!t.isNew && t.cov !! pending + t.delay ==> Scratch(t, env) == Some(t.cache))
    && CoherentAll(t.kids, env, pending + t.delay)
  }

  predicate CoherentAll(ts: seq<Tree>, env: Env, pending: Mask)
    decreases ts
  {
    ts != [] ==> Coherent(ts[0], env, pending) && CoherentAll(ts[1..], env, pending)
  }

  /** What the parser hands to the mask pass: references already carry their objects' bits. */
  predicate Parsed(t: Tree)
    decreases t
  {
    && (t.kind.Property? || t.kind.Unbound? || t.kind.Object? ==> Covers(t))
    && (IsLeaf(t.kind) ==> t.kids == [])
    && forall i :: 0 <= i < |t.kids| ==> Parsed(t.kids[i])
  }

  /** After the mask pass every node's mask covers everything below it. */
  lemma {:induction false} MaskedCovers(t: Tree)
    requires Parsed(t)
    ensures Covers(Masked(t))
    decreases t
  {
    if !t.kind.Object? && !t.kind.Property? {
      var ks := MaskedAll(t.kids);
      forall i | 0 <= i < |ks|
        ensures Covers(ks[i]) && ks[i].cov <= Masked(t).cov
      {
        MaskedCovers(t.kids[i]);
        UnionHas(ks, i);
      }
      CoversEach(ks, Masked(t).cov);
    }
  }

  lemma {:induction false} CoversEach(ts: seq<Tree>, cov: Mask)
    requires forall i :: 0 <= i < |ts| ==> Covers(ts[i]) && ts[i].cov <= cov
    ensures CoversAll(ts, cov)
  {
    if ts != [] {
      CoversEach(ts[1..], cov);
    }
  }

  /** The same expression: kinds, masks and constants agree, caches need not. */
  predicate SameShape(t: Tree, u: Tree)
    decreases t
  {
    && t.kind == u.kind
    && t.cov == u.cov
    && (t.kind.Const? ==> t.cache.value == u.cache.value)
    && SameShapes(t.kids, u.kids)
  }

  predicate SameShapes(ts: seq<Tree>, us: seq<Tree>)
    decreases ts
  {
    && |ts| == |us|
    && (ts != [] ==> SameShape(ts[0], us[0]) && SameShapes(ts[1..], us[1..]))
  }

  // ------------------------------------------------------------------ lemmas

  /** Only the pending bits that a tree's mask contains matter. */
  lemma {:induction false} CoherentWiden(t: Tree, env: Env, p: Mask, q: Mask)
    requires Covers(t) && Coherent(t, env, p) && p * t.cov <= q
    ensures Coherent(t, env, q)
    decreases t
  {
    hide Scratch;
    CoherentAllWiden(t.kids, t.cov, env, p + t.delay, q + t.delay);
  }

  lemma {:induction false} CoherentAllWiden(ts: seq<Tree>, cov: Mask, env: Env, p: Mask, q: Mask)
    requires CoversAll(ts, cov) && CoherentAll(ts, env, p) && p * cov <= q
    ensures CoherentAll(ts, env, q)
    decreases ts
  {
    hide Scratch;
    if ts != [] {
      CoherentWiden(ts[0], env, p, q);
      CoherentAllWiden(ts[1..], cov, env, p, q);
    }
  }

  /** Noting missed changes on a skipped operand loses nothing: they are no longer pending. */
  lemma DeferKeeps(t: Tree, env: Env, mask: Mask)
    requires Covers(t) && Coherent(t, env, mask)
    ensures Coherent(Deferred(t, mask), env, {})
    ensures SameShape(t, Deferred(t, mask))
  {
    hide Scratch, SameShape;
    var d := Deferred(t, mask);
    CoherentAllWiden(t.kids, t.cov, env, mask + t.delay, {} + d.delay);
    SameShapesRefl(t.kids);
    Reshaped(t, d);
    ScratchShape(t, d, env);
  }

  /** Shapes of two nodes whose children have the same shapes. */
  lemma Reshaped(t: Tree, u: Tree)
    requires t.kind == u.kind && t.cov == u.cov && (t.kind.Const? ==> t.cache.value == u.cache.value)
    requires SameShapes(t.kids, u.kids)
    ensures SameShape(t, u)
  {
  }

  lemma {:induction false} SameShapeRefl(t: Tree)
    ensures SameShape(t, t)
    decreases t
  {
    SameShapesRefl(t.kids);
  }

  lemma {:induction false} SameShapesRefl(ts: seq<Tree>)
    ensures SameShapes(ts, ts)
    decreases ts
  {
    if ts != [] {
      SameShapeRefl(ts[0]);
      SameShapesRefl(ts[1..]);
    }
  }

  lemma {:induction false} SameShapeTrans(t: Tree, u: Tree, v: Tree)
    requires SameShape(t, u) && SameShape(u, v)
    ensures SameShape(t, v)
    decreases t
  {
    SameShapesTrans(t.kids, u.kids, v.kids);
  }

  lemma {:induction false} SameShapesTrans(ts: seq<Tree>, us: seq<Tree>, vs: seq<Tree>)
    requires SameShapes(ts, us) && SameShapes(us, vs)
    ensures SameShapes(ts, vs)
    decreases ts
  {
    if ts != [] {
      SameShapeTrans(ts[0], us[0], vs[0]);
      SameShapesTrans(ts[1..], us[1..], vs[1..]);
    }
  }

  /** Masks belong to the shape. */
  lemma {:induction false} CoversShape(t: Tree, u: Tree)
    requires SameShape(t, u) && Covers(t)
    ensures Covers(u)
    decreases t
  {
    CoversAllShape(t.kids, u.kids, t.cov);
  }

  lemma {:induction false} CoversAllShape(ts: seq<Tree>, us: seq<Tree>, cov: Mask)
    requires SameShapes(ts, us) && CoversAll(ts, cov)
    ensures CoversAll(us, cov)
    decreases ts
  {
    if ts != [] {
      CoversShape(ts[0], us[0]);
      CoversAllShape(ts[1..], us[1..], cov);
    }
  }

  /** The from-scratch value belongs to the shape: no cache enters it. */
  lemma {:induction false} ScratchShape(t: Tree, u: Tree, env: Env)
    requires SameShape(t, u)
    ensures Scratch(t, env) == Scratch(u, env)
    decreases t
  {
    hide Apply, Joined, Combined, Read;
    if IsJunction(t.kind) {
      ScratchUntilShape(t.kind, t.kids, u.kids, env);
    } else {
      ScratchAllShape(t.kids, u.kids, env);
    }
  }

  lemma {:induction false} ScratchAllShape(ts: seq<Tree>, us: seq<Tree>, env: Env)
    requires SameShapes(ts, us)
    ensures ScratchAll(ts, env) == ScratchAll(us, env)
    decreases ts
  {
    if ts != [] {
      ScratchShape(ts[0], us[0], env);
      ScratchAllShape(ts[1..], us[1..], env);
    }
  }

  lemma {:induction false} ScratchUntilShape(k: Kind, ts: seq<Tree>, us: seq<Tree>, env: Env)
    requires IsJunction(k) && SameShapes(ts, us)
    ensures ScratchUntil(k, ts, env) == ScratchUntil(k, us, env)
    decreases ts
  {
    if ts != [] {
      ScratchShape(ts[0], us[0], env);
      ScratchUntilShape(k, ts[1..], us[1..], env);
    }
  }

  /** Two environments that differ only in the objects of a mask. */
  ghost predicate Agree(env: Env, env': Env, changed: Mask) {
    forall obj: nat :: obj !in changed ==>
      (obj in env <==> obj in env') && (obj in env && obj in env' ==> env[obj] == env'[obj])
  }

  /** A tree's mask names every object its value depends on. */
  lemma {:induction false} ScratchAgree(t: Tree, env: Env, env': Env, changed: Mask)
    requires Covers(t) && Agree(env, env', changed) && t.cov !! changed
    ensures Scratch(t, env) == Scratch(t, env')
    decreases t
  {
    hide Apply, Joined, Combined;
    if IsJunction(t.kind) {
      hide Agree;
      ScratchUntilAgree(t.kind, t.kids, t.cov, env, env', changed);
    } else if IsLeaf(t.kind) {
    } else {
      hide Agree;
      ScratchAllAgree(t.kids, t.cov, env, env', changed);
    }
  }

  lemma {:induction false} ScratchAllAgree(ts: seq<Tree>, cov: Mask, env: Env, env': Env, changed: Mask)
    requires CoversAll(ts, cov) && Agree(env, env', changed) && cov !! changed
    ensures ScratchAll(ts, env) == ScratchAll(ts, env')
    decreases ts
  {
    hide Agree;
    if ts != [] {
      ScratchAgree(ts[0], env, env', changed);
      ScratchAllAgree(ts[1..], cov, env, env', changed);
    }
  }

  lemma {:induction false} ScratchUntilAgree(k: Kind, ts: seq<Tree>, cov: Mask, env: Env, env': Env, changed: Mask)
    requires IsJunction(k) && CoversAll(ts, cov) && Agree(env, env', changed) && cov !! changed
    ensures ScratchUntil(k, ts, env) == ScratchUntil(k, ts, env')
    decreases ts
  {
    hide Agree;
    if ts != [] {
      ScratchAgree(ts[0], env, env', changed);
      ScratchUntilAgree(k, ts[1..], cov, env, env', changed);
    }
  }

  // ------------------------------------------------------------------ strict expressions

  /** NULL when an operand is. */
  predicate IsStrict(k: Kind) {
    k.Plus? || k.Minus? || k.Multiply? || k.Divide? || k.Not? || k.Object?
  }

  /** Attributes and constants under strict operators, with masks that name no slot beyond those read. */
  predicate Strict(t: Tree)
    decreases t
  {
    && (t.kind.Const? || t.kind.Property? || IsStrict(t.kind))
    && (forall b: nat :: b < MAX_PARAMS && b in t.cov ==> (t.kind.Property? && b == t.kind.obj) || NamedBelow(t.kids, b))
    && StrictAll(t.kids)
  }

  predicate StrictAll(ts: seq<Tree>)
    decreases ts
  {
    ts != [] ==> Strict(ts[0]) && StrictAll(ts[1..])
  }

  /** One of the trees has a slot in its mask. */
  predicate NamedBelow(ts: seq<Tree>, b: nat) {
    ts != [] && (b in ts[0].cov || NamedBelow(ts[1..], b))
  }

  /** What the parser makes of such an expression: only references have masks yet. */
  predicate Bare(t: Tree)
    decreases t
  {
    if t.kind.Property? || t.kind.Object? then Strict(t)
    else (t.kind.Const? || IsStrict(t.kind)) && t.cov == {} && forall i :: 0 <= i < |t.kids| ==> Bare(t.kids[i])
  }

  /** The mask pass names no slot beyond those read. */
  lemma {:induction false} MaskedStrict(t: Tree)
    requires Bare(t)
    ensures Strict(Masked(t))
    decreases t
  {
    if !t.kind.Object? && !t.kind.Property? {
      var ks := MaskedAll(t.kids);
      forall i | 0 <= i < |ks|
        ensures Strict(ks[i])
      {
        MaskedStrict(t.kids[i]);
      }
      StrictEach(ks);
      forall b: nat | b in Masked(t).cov
        ensures NamedBelow(ks, b)
      {
        NamedByUnion(ks, b);
      }
    }
  }

  lemma {:induction false} StrictEach(ts: seq<Tree>)
    requires forall i :: 0 <= i < |ts| ==> Strict(ts[i])
    ensures StrictAll(ts)
  {
    if ts != [] {
      StrictEach(ts[1..]);
    }
  }

  lemma {:induction false} NamedByUnion(ts: seq<Tree>, b: nat)
    requires b in Union(ts)
    ensures NamedBelow(ts, b)
  {
    var n := |ts| - 1;
    if b in ts[n].cov {
      NamedAt(ts, n, b);
    } else {
      NamedByUnion(ts[..n], b);
      NamedMore(ts[..n], [ts[n]], b);
      assert ts == ts[..n] + [ts[n]];
    }
  }

  lemma {:induction false} NamedAt(ts: seq<Tree>, i: nat, b: nat)
    requires i < |ts| && b in ts[i].cov
    ensures NamedBelow(ts, b)
  {
    if i > 0 {
      NamedAt(ts[1..], i - 1, b);
    }
  }

  lemma {:induction false} NamedMore(ts: seq<Tree>, us: seq<Tree>, b: nat)
    requires NamedBelow(ts, b)
    ensures NamedBelow(ts + us, b)
  {
    if b !in ts[0].cov {
      NamedMore(ts[1..], us, b);
      assert (ts + us)[1..] == ts[1..] + us;
    }
  }

  predicate HasNull(cs: seq<Cache>) {
    exists i :: 0 <= i < |cs| && cs[i].value.Null?
  }

  /** A strict expression that refers to an empty slot is NULL, if it has a value at all. */
  lemma {:induction false} AbsentIsNull(t: Tree, env: Env, b: nat)
    requires Strict(t) && Covers(t) && b < MAX_PARAMS && b in t.cov && b !in env
    ensures Scratch(t, env).Some? ==> Scratch(t, env).value.value.Null?
    decreases t
  {
    if IsStrict(t.kind) {
      AbsentIsNullBelow(t.kids, t.cov, env, b);
      hide Combined, Strict;
      var cs := ScratchAll(t.kids, env);
      if cs.Some? && |cs.value| == (if IsBinary(t.kind) then 2 else 1) {
        StrictCombined(t.kind, cs.value);
      }
    }
  }

  lemma {:induction false} AbsentIsNullBelow(ts: seq<Tree>, cov: Mask, env: Env, b: nat)
    requires StrictAll(ts) && CoversAll(ts, cov) && b < MAX_PARAMS && NamedBelow(ts, b) && b !in env
    ensures ScratchAll(ts, env).Some? ==> HasNull(ScratchAll(ts, env).value)
    decreases ts
  {
    hide Scratch, Strict, Covers;
    var all := ScratchAll(ts, env);
    if all.Some? {
      if b in ts[0].cov {
        AbsentIsNull(ts[0], env, b);
        assert all.value[0].value.Null?;
      } else {
        AbsentIsNullBelow(ts[1..], cov, env, b);
        var rest := ScratchAll(ts[1..], env).value;
        var i :| 0 <= i < |rest| && rest[i].value.Null?;
        assert all.value[i + 1].value.Null?;
      }
    }
  }

  lemma StrictCombined(k: Kind, cs: seq<Cache>)
    requires IsStrict(k) && |cs| == (if IsBinary(k) then 2 else 1) && HasNull(cs)
    ensures Combined(k, cs).Some? ==> Combined(k, cs).value.value.Null?
  {
    var vs := Values(cs);
    assert exists i :: 0 <= i < |vs| && vs[i].Null?;
  }

  /** Changing objects keeps a tree coherent, with those objects pending as well. */
  lemma {:induction false} ChangeKeeps(t: Tree, env: Env, env': Env, pending: Mask, changed: Mask)
    requires Covers(t) && Agree(env, env', changed) && Coherent(t, env, pending)
    ensures Coherent(t, env', pending + changed)
    decreases t
  {
    hide Scratch, Agree;
    if t.cov !! changed {
      ScratchAgree(t, env, env', changed);
    }
    ChangeKeepsAll(t.kids, t.cov, env, env', pending + t.delay, changed);
    assert pending + t.delay + changed == pending + changed + t.delay;
  }

  lemma {:induction false} ChangeKeepsAll(ts: seq<Tree>, cov: Mask, env: Env, env': Env, pending: Mask, changed: Mask)
    requires CoversAll(ts, cov) && Agree(env, env', changed) && CoherentAll(ts, env, pending)
    ensures CoherentAll(ts, env', pending + changed)
    decreases ts
  {
    hide Scratch, Agree;
    if ts != [] {
      ChangeKeeps(ts[0], env, env', pending, changed);
      ChangeKeepsAll(ts[1..], cov, env, env', pending, changed);
    }
  }

  /** What one visit must deliver. */
  predicate UpToDate(t: Tree, t': Tree, env: Env) {
    SameShape(t, t') && Coherent(t', env, {}) && Scratch(t, env) == Some(t'.cache)
  }

  /**
   * The evaluator's promise: visiting a coherent tree with every pending
   * change in the mask leaves its from-scratch value cached at the top and
   * nothing pending anywhere below, skipped and deferred subtrees included.
   */
  lemma {:induction false} EvalRight(t: Tree, t': Tree, env: Env, mask: Mask, recalc: bool)
    requires Covers(t) && Coherent(t, env, mask) && Eval(t, env, mask, recalc) == Some(t')
    ensures UpToDate(t, t', env)
    decreases t, 1
  {
    hide Visited, Scratch;
    if Current(t, mask, recalc) {
      CoherentWiden(t, env, mask, {});
      SameShapeRefl(t);
    } else {
      VisitedRight(t, t', env, mask + t.delay, recalc);
    }
  }

  lemma {:induction false} VisitedRight(t: Tree, t': Tree, env: Env, m: Mask, recalc: bool)
    requires Covers(t) && CoherentAll(t.kids, env, m) && Visited(t, env, m, recalc) == Some(t')
    ensures UpToDate(t, t', env)
    decreases t, 0
  {
    hide Apply, Joined, Combined, Read;
    if IsLeaf(t.kind) {
      assert t.kids == [];
      assert SameShape(t, t');
      assert CoherentAll(t'.kids, env, {} + t'.delay);
    } else {
      assert {} + t'.delay == {};
      if IsJunction(t.kind) {
        EvalUntilRight(t.kind, t.kids, t'.kids, t.cov, env, m, recalc, false);
      } else {
        EvalAllRight(t.kids, t'.kids, t.cov, env, m, recalc);
      }
    }
    ScratchShape(t, t', env);
  }

  lemma {:induction false} EvalAllRight(ts: seq<Tree>, ts': seq<Tree>, cov: Mask, env: Env, mask: Mask, recalc: bool)
    requires CoversAll(ts, cov) && CoherentAll(ts, env, mask) && EvalAll(ts, env, mask, recalc) == Some(ts')
    ensures SameShapes(ts, ts') && CoherentAll(ts', env, {}) && ScratchAll(ts, env) == Some(Caches(ts'))
    decreases ts
  {
    if ts != [] {
      EvalRight(ts[0], ts'[0], env, mask, recalc);
      EvalAllRight(ts[1..], ts'[1..], cov, env, mask, recalc);
    }
  }

  lemma {:induction false} EvalUntilRight(k: Kind, ts: seq<Tree>, ts': seq<Tree>, cov: Mask, env: Env,
                                          mask: Mask, recalc: bool, decided: bool)
    requires IsJunction(k) && CoversAll(ts, cov) && CoherentAll(ts, env, mask)
    requires EvalUntil(k, ts, env, mask, recalc, decided) == Some(ts')
    ensures SameShapes(ts, ts') && CoherentAll(ts', env, {})
    ensures !decided ==> ScratchUntil(k, ts, env).Some?
    ensures !decided ==> Joined(k, ScratchUntil(k, ts, env).value) == Joined(k, Caches(ts'))
    decreases ts
  {
    if ts != [] {
      if decided {
        DeferKeeps(ts[0], env, mask);
        EvalUntilRight(k, ts[1..], ts'[1..], cov, env, mask, recalc, true);
      } else {
        EvalRight(ts[0], ts'[0], env, mask, recalc);
        EvalUntilRight(k, ts[1..], ts'[1..], cov, env, mask, recalc, Decides(k, ts'[0].cache));
      }
    }
  }
}
