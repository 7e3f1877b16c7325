/**
 * Operator placement in the expression compiler, as a function from tokens to
 * trees, and what makes its result the only right one. The compiler that
 * rewires nodes in place is in ExpCompiler.
 */
module ExpParse {
  import opened Options

  datatype Op =
    | Multiply
    | Divide
    | Plus
    | Minus
    | Compare(eq: bool, gt: bool, lt: bool)
    | In
    | Like
    | Contains
    | And
    | Or

  /** The precedence table: a smaller number binds tighter. */
  function Prec(op: Op): nat {
    match op
    case Multiply => 10
    case Divide => 10
    case Plus => 20
    case Minus => 20
    case Compare(_, _, _) => 30
    case In => 30
    case Like => 30
    case Contains => 30
    case And => 50
    case Or => 60
  }

  datatype Token = Atom(name: string) | Oper(op: Op) | Open | Close

  /** Group is what a pair of parentheses holds; the compiler keeps no node for it. */
  datatype Expr = Leaf(name: string) | Group(inner: Expr) | Bin(op: Op, left: Expr, right: Expr)

  predicate IsOperand(e: Expr) {
    !e.Bin?
  }

  /** The tokens a tree stands for, in order. */
  function Yield(e: Expr): seq<Token> {
    match e
    case Leaf(a) => [Atom(a)]
    case Group(i) => [Open] + Yield(i) + [Close]
    case Bin(op, l, r) => Yield(l) + [Oper(op)] + Yield(r)
  }

  /**
   * What binds tighter than what: multiplication and division before addition
   * and subtraction, those before comparisons, IN, LIKE and CONTAINS, then AND,
   * then OR.
   */
  predicate Tighter(p: Op, q: Op) {
    match q
    case Multiply => false
    case Divide => false
    case Plus => p.Multiply? || p.Divide?
    case Minus => p.Multiply? || p.Divide?
    case And => !p.And? && !p.Or?
    case Or => !p.Or?
    case _ => p.Multiply? || p.Divide? || p.Plus? || p.Minus?
  }

  /** The table says so. */
  lemma TableOrders()
    ensures forall p, q :: Tighter(p, q) <==> Prec(p) < Prec(q)
  {
  }

  /** Left-associative precedence: a left operand binds no looser than its operator, a right operand tighter. */
  predicate WellBound(e: Expr) {
    match e
    case Leaf(_) => true
    case Group(i) => WellBound(i)
    case Bin(op, l, r) =>
      && WellBound(l)
      && WellBound(r)
      && (l.Bin? ==> !Tighter(op, l.op))
      && (r.Bin? ==> Tighter(r.op, op))
  }

  // ------------------------------------------------------------------ the parser

  /** Where a new operator and its right operand go: down the right edge past everything that binds looser. */
  function Place(e: Expr, op: Op, x: Expr): Expr {
    if e.Bin? && Prec(op) < Prec(e.op)
    then Bin(e.op, e.left, Place(e.right, op, x))
    else Bin(op, e, x)
  }

  datatype Result = Parsed(e: Expr, rest: seq<Token>) | Failed

  /** One parenthesis level: an operand, then operators each followed by an operand. */
  function Level(ts: seq<Token>): (r: Result)
    ensures r.Parsed? ==> |r.rest| < |ts|
    decreases |ts|, 1
  {
    var x := Operand(ts);
    if x.Failed? then Failed else More(x.e, x.rest)
  }

  function Operand(ts: seq<Token>): (r: Result)
    ensures r.Parsed? ==> |r.rest| < |ts|
    decreases |ts|, 0
  {
    if ts == [] then Failed
    else
      match ts[0]
      case Atom(a) => Parsed(Leaf(a), ts[1..])
      case Open =>
        var p := Level(ts[1..]);
        if p.Parsed? && p.rest != [] && p.rest[0] == Close then Parsed(Group(p.e), p.rest[1..]) else Failed
      case _ => Failed
  }

  /** The rest of a level, given the tree so far; it ends before a closing parenthesis or at the end. */
  function More(e: Expr, ts: seq<Token>): (r: Result)
    ensures r.Parsed? ==> |r.rest| <= |ts|
    decreases |ts|, 2
  {
    if ts == [] || ts[0] == Close then Parsed(e, ts)
    else if !ts[0].Oper? then Failed
    else
      var x := Operand(ts[1..]);
      if x.Failed? then Failed else More(Place(e, ts[0].op, x.e), x.rest)
  }

  /** A whole expression: an unmatched closing parenthesis is an error. */
  function Compile(ts: seq<Token>): Option<Expr> {
    var p := Level(ts);
    if p.Parsed? && p.rest == [] then Some(p.e) else None
  }

  // ------------------------------------------------------------------ soundness

  lemma Regroup(a: seq<Token>, b: seq<Token>, c: seq<Token>, d: seq<Token>)
    ensures a + (b + (c + d)) == (a + b + c) + d
  {
  }

  lemma {:induction false} PlaceYields(e: Expr, op: Op, x: Expr)
    ensures Yield(Place(e, op, x)) == Yield(e) + [Oper(op)] + Yield(x)
  {
    if e.Bin? && Prec(op) < Prec(e.op) {
      PlaceYields(e.right, op, x);
      assert Yield(e) + [Oper(op)] + Yield(x)
          == Yield(e.left) + [Oper(e.op)] + (Yield(e.right) + [Oper(op)] + Yield(x));
    }
  }

  /** Placing keeps a tree well bound. */
  lemma {:induction false} PlaceBinds(e: Expr, op: Op, x: Expr)
    requires WellBound(e) && WellBound(x) && IsOperand(x)
    ensures WellBound(Place(e, op, x))
  {
    hide Prec, Tighter;
    TableOrders();
    if e.Bin? && Prec(op) < Prec(e.op) {
      PlaceBinds(e.right, op, x);
    }
  }

  /** What a parse owes: the tokens it consumed, in order, in a well-bound tree. */
  predicate Accounts(r: Result, ts: seq<Token>) {
    r.Parsed? ==> Yield(r.e) + r.rest == ts && WellBound(r.e)
  }

  lemma {:induction false} LevelSound(ts: seq<Token>)
    ensures Accounts(Level(ts), ts)
    decreases |ts|, 1
  {
    OperandSound(ts);
    var x := Operand(ts);
    if x.Parsed? {
      MoreSound(x.e, x.rest);
    }
  }

  lemma {:induction false} OperandSound(ts: seq<Token>)
    ensures Accounts(Operand(ts), ts)
    ensures Operand(ts).Parsed? ==> IsOperand(Operand(ts).e)
    decreases |ts|, 0
  {
    if ts != [] && ts[0].Open? {
      LevelSound(ts[1..]);
      var p := Level(ts[1..]);
      if p.Parsed? && p.rest != [] && p.rest[0] == Close {
        assert ts == [Open] + ts[1..];
        assert p.rest == [Close] + p.rest[1..];
        assert [Open] + Yield(p.e) + [Close] + p.rest[1..] == [Open] + (Yield(p.e) + p.rest);
      }
    }
  }

  lemma {:induction false} MoreSound(e: Expr, ts: seq<Token>)
    requires WellBound(e)
    ensures Accounts(More(e, ts), Yield(e) + ts)
    decreases |ts|, 2
  {
    if ts != [] && ts[0].Oper? {
      OperandSound(ts[1..]);
      var x := Operand(ts[1..]);
      if x.Parsed? {
        hide Yield, WellBound, Place;
        var op := ts[0].op;
        PlaceYields(e, op, x.e);
        PlaceBinds(e, op, x.e);
        MoreSound(Place(e, op, x.e), x.rest);
        assert ts == [Oper(op)] + (Yield(x.e) + x.rest);
        Regroup(Yield(e), [Oper(op)], Yield(x.e), x.rest);
      }
    }
  }

  // ------------------------------------------------------------------ completeness

  /** A level taken apart: its first operand, and each further one with the operator before it. */
  datatype Item = Item(op: Op, x: Expr)

  function First(e: Expr): (x: Expr)
    ensures IsOperand(x)
  {
    if e.Bin? then First(e.left) else e
  }

  function Rest(e: Expr): seq<Item> {
    if e.Bin? then Rest(e.left) + [Item(e.op, First(e.right))] + Rest(e.right) else []
  }

  function PlaceAll(e: Expr, items: seq<Item>): Expr
    decreases items
  {
    if items == [] then e else PlaceAll(Place(e, items[0].op, items[0].x), items[1..])
  }

  lemma {:induction false} PlaceAllConcat(e: Expr, a: seq<Item>, b: seq<Item>)
    ensures PlaceAll(e, a + b) == PlaceAll(PlaceAll(e, a), b)
    decreases a
  {
    if a == [] {
      assert a + b == b;
    } else {
      assert (a + b)[1..] == a[1..] + b;
      PlaceAllConcat(Place(e, a[0].op, a[0].x), a[1..], b);
    }
  }

  /** Operators that bind tighter than the root go into its right operand. */
  lemma {:induction false} PlaceAllRight(op: Op, l: Expr, y: Expr, items: seq<Item>)
    requires forall i :: 0 <= i < |items| ==> Prec(items[i].op) < Prec(op)
    ensures PlaceAll(Bin(op, l, y), items) == Bin(op, l, PlaceAll(y, items))
    decreases items
  {
    if items != [] {
      PlaceAllRight(op, l, Place(y, items[0].op, items[0].x), items[1..]);
    }
  }

  /** No operator of a well-bound level binds looser than its root. */
  lemma {:induction false} RestBelowRoot(e: Expr, p: nat)
    requires WellBound(e) && (e.Bin? ==> Prec(e.op) < p)
    ensures forall i :: 0 <= i < |Rest(e)| ==> Prec(Rest(e)[i].op) < p
  {
    hide Prec, Tighter;
    TableOrders();
    if e.Bin? {
      RestBelowRoot(e.left, p);
      RestBelowRoot(e.right, p);
    }
  }

  /** Placing a well-bound tree's operators one after the other builds that tree. */
  lemma {:induction false} Rebuilds(e: Expr)
    requires WellBound(e)
    ensures PlaceAll(First(e), Rest(e)) == e
  {
    hide Prec, Tighter;
    TableOrders();
    if e.Bin? {
      var mid := [Item(e.op, First(e.right))];
      Rebuilds(e.left);
      Rebuilds(e.right);
      PlaceAllConcat(First(e.left), Rest(e.left) + mid, Rest(e.right));
      PlaceAllConcat(First(e.left), Rest(e.left), mid);
      assert PlaceAll(e.left, mid) == Bin(e.op, e.left, First(e.right)) by {
        assert mid[1..] == [];
      }
      RestBelowRoot(e.right, Prec(e.op));
      PlaceAllRight(e.op, e.left, First(e.right), Rest(e.right));
    }
  }

  function ItemsYield(items: seq<Item>): seq<Token> {
    if items == [] then [] else [Oper(items[0].op)] + Yield(items[0].x) + ItemsYield(items[1..])
  }

  lemma {:induction false} ItemsYieldConcat(a: seq<Item>, b: seq<Item>)
    ensures ItemsYield(a + b) == ItemsYield(a) + ItemsYield(b)
  {
    if a == [] {
      assert a + b == b;
    } else {
      assert (a + b)[1..] == a[1..] + b;
      ItemsYieldConcat(a[1..], b);
    }
  }

  lemma {:induction false} YieldByItems(e: Expr)
    ensures Yield(e) == Yield(First(e)) + ItemsYield(Rest(e))
  {
    if e.Bin? {
      YieldByItems(e.left);
      YieldByItems(e.right);
      MiddleYield(Rest(e.left), e.op, First(e.right), Rest(e.right));
      var f := Yield(First(e.left));
      Regroup(f, ItemsYield(Rest(e.left)), [Oper(e.op)] + Yield(First(e.right)), ItemsYield(Rest(e.right)));
    }
  }

  lemma MiddleYield(a: seq<Item>, op: Op, x: Expr, b: seq<Item>)
    ensures ItemsYield(a + [Item(op, x)] + b) == ItemsYield(a) + (([Oper(op)] + Yield(x)) + ItemsYield(b))
  {
    hide Yield;
    var mid := [Item(op, x)];
    ItemsYieldConcat(a + mid, b);
    ItemsYieldConcat(a, mid);
    assert mid[1..] == [];
    assert ItemsYield(mid) == [Oper(op)] + Yield(x);
    Regroup([], ItemsYield(a), [Oper(op)] + Yield(x), ItemsYield(b));
  }

  /** Operands of a well-bound level are well bound, and smaller than a level they are properly part of. */
  predicate ItemsBound(items: seq<Item>) {
    forall i :: 0 <= i < |items| ==> WellBound(items[i].x) && IsOperand(items[i].x)
  }

  lemma {:induction false} PartsBound(e: Expr)
    requires WellBound(e)
    ensures WellBound(First(e)) && ItemsBound(Rest(e))
  {
    if e.Bin? {
      PartsBound(e.left);
      PartsBound(e.right);
    }
  }

  predicate Ends(rest: seq<Token>) {
    rest == [] || rest[0] == Close
  }

  /** The parser accepts every well-bound tree's tokens and gives that tree back. */
  lemma {:induction false} LevelComplete(e: Expr, rest: seq<Token>)
    requires WellBound(e) && Ends(rest)
    ensures Level(Yield(e) + rest) == Parsed(e, rest)
    decreases |Yield(e)|, 1
  {
    PartsBound(e);
    YieldByItems(e);
    var tail := ItemsYield(Rest(e)) + rest;
    assert Yield(e) + rest == Yield(First(e)) + tail;
    OperandComplete(First(e), tail);
    MoreComplete(First(e), Rest(e), rest);
    Rebuilds(e);
  }

  lemma {:induction false} OperandComplete(x: Expr, rest: seq<Token>)
    requires WellBound(x) && IsOperand(x)
    ensures Operand(Yield(x) + rest) == Parsed(x, rest)
    decreases |Yield(x)|, 0
  {
    var ts := Yield(x) + rest;
    if x.Leaf? {
      assert ts[1..] == rest;
    } else {
      var tail := [Close] + rest;
      assert ts[1..] == Yield(x.inner) + tail;
      LevelComplete(x.inner, tail);
      assert tail[1..] == rest;
    }
  }

  lemma {:induction false} MoreComplete(e: Expr, items: seq<Item>, rest: seq<Token>)
    requires ItemsBound(items) && Ends(rest)
    ensures More(e, ItemsYield(items) + rest) == Parsed(PlaceAll(e, items), rest)
    decreases |ItemsYield(items)|, 2
  {
    var ts := ItemsYield(items) + rest;
    if items == [] {
      assert ts == rest;
    } else {
      var x, tail := items[0].x, ItemsYield(items[1..]) + rest;
      assert ts[1..] == Yield(x) + tail;
      OperandComplete(x, tail);
      MoreComplete(Place(e, items[0].op, x), items[1..], rest);
    }
  }

  // ------------------------------------------------------------------ main results

  /** What the compiler returns reads back as its input, parentheses included, and is well bound. */
  lemma CompileSound(ts: seq<Token>)
    ensures Compile(ts).Some? ==> Yield(Compile(ts).value) == ts && WellBound(Compile(ts).value)
  {
    LevelSound(ts);
    var p := Level(ts);
    assert p.Parsed? ==> Yield(p.e) + [] == Yield(p.e);
  }

  /** Every well-bound tree is what its own tokens compile to. */
  lemma CompileInvertsYield(e: Expr)
    requires WellBound(e)
    ensures Compile(Yield(e)) == Some(e)
  {
    LevelComplete(e, []);
    assert Yield(e) + [] == Yield(e);
  }

  /** So the left-associative precedence parse of a token sequence is unique. */
  lemma ParseIsUnique(e: Expr, f: Expr)
    requires WellBound(e) && WellBound(f) && Yield(e) == Yield(f)
    ensures e == f
  {
    CompileInvertsYield(e);
    CompileInvertsYield(f);
  }

  /** Of two operators in a row the second takes the middle operand if and only if it binds tighter. */
  lemma TwoOperators(p: Op, q: Op, x: string, y: string, z: string)
    ensures Compile([Atom(x), Oper(p), Atom(y), Oper(q), Atom(z)]) ==
            Some(if Tighter(q, p) then Bin(p, Leaf(x), Bin(q, Leaf(y), Leaf(z)))
                 else Bin(q, Bin(p, Leaf(x), Leaf(y)), Leaf(z)))
  {
    var a, b, c := Leaf(x), Leaf(y), Leaf(z);
    var right, left := Bin(p, a, Bin(q, b, c)), Bin(q, Bin(p, a, b), c);
    assert Yield(Bin(q, b, c)) == [Atom(y), Oper(q), Atom(z)];
    assert Yield(Bin(p, a, b)) == [Atom(x), Oper(p), Atom(y)];
    assert Yield(right) == [Atom(x), Oper(p), Atom(y), Oper(q), Atom(z)] == Yield(left);
    assert WellBound(a) && WellBound(b) && WellBound(c);
    assert WellBound(Bin(q, b, c)) && WellBound(Bin(p, a, b));
    hide Compile;
    if Tighter(q, p) {
      CompileInvertsYield(right);
    } else {
      CompileInvertsYield(left);
    }
  }

  /** And the compiler fails exactly on the token sequences that have none. */
  lemma CompileFailsOnlyWhenItMust(ts: seq<Token>, e: Expr)
    requires Compile(ts).None?
    ensures !(WellBound(e) && Yield(e) == ts)
  {
    if WellBound(e) && Yield(e) == ts {
      CompileInvertsYield(e);
    }
  }
}
