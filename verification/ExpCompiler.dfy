/**
 * The compiler's token loop, which rewires parent and child links in place:
 * each operator climbs from the last operand along the parent links to where
 * it belongs and takes the subtree found there as its left operand.
 */
module ExpCompiler {
  import opened ExpParse

  /** An expression node: an atom or an operator. */
  class Node {
    const tok: Token
    var parent: Node?
    var children: seq<Node>

    constructor (tok: Token)
      ensures this.tok == tok && parent == null && children == []
    {
      this.tok := tok;
      parent := null;
      children := [];
    }
  }

  /** A tree with the node that holds each part of it. */
  datatype Shape = Atomic(node: Node) | Grouped(inner: Shape) | Binary(node: Node, left: Shape, right: Shape)

  ghost function Root(s: Shape): Node {
    match s
    case Atomic(n) => n
    case Grouped(i) => Root(i)
    case Binary(n, _, _) => n
  }

  ghost function Nodes(s: Shape): (ns: set<Node>)
    ensures Root(s) in ns
  {
    match s
    case Atomic(n) => {n}
    case Grouped(i) => Nodes(i)
    case Binary(n, l, r) => {n} + Nodes(l) + Nodes(r)
  }

  ghost function OpOf(n: Node): Op {
    if n.tok.Oper? then n.tok.op else And
  }

  ghost function ToExpr(s: Shape): Expr {
    match s
    case Atomic(n) => Leaf(if n.tok.Atom? then n.tok.name else "")
    case Grouped(i) => Group(ToExpr(i))
    case Binary(n, l, r) => Bin(OpOf(n), ToExpr(l), ToExpr(r))
  }

  /** The heap holds the tree: children in order, parents pointing back, no node used twice. */
  ghost predicate Rep(s: Shape)
    reads Nodes(s)`children, (Nodes(s) - {Root(s)})`parent
  {
    match s
    case Atomic(n) => n.tok.Atom? && n.children == []
    case Grouped(i) => Rep(i)
    case Binary(n, l, r) =>
      && n.tok.Oper?
      && n !in Nodes(l) && n !in Nodes(r) && Nodes(l) !! Nodes(r)
      && n.children == [Root(l), Root(r)]
      && Root(l).parent == n && Root(r).parent == n
      && Rep(l) && Rep(r)
  }

  // ------------------------------------------------------------------ the right edge

  /** An operator on the right edge: its node and its left operand. */
  datatype Frame = Frame(node: Node, left: Shape)

  ghost function FrameNodes(fs: seq<Frame>): set<Node> {
    if fs == [] then {} else FrameNodes(fs[..|fs| - 1]) + {fs[|fs| - 1].node} + Nodes(fs[|fs| - 1].left)
  }

  /** The tree whose right edge is fs, with x at its lower end. */
  ghost function Plug(fs: seq<Frame>, x: Shape): Shape
    decreases |fs|
  {
    if fs == [] then x
    else
      var f := fs[|fs| - 1];
      Plug(fs[..|fs| - 1], Binary(f.node, f.left, x))
  }

  ghost function Top(fs: seq<Frame>, next: Node): Node {
    if fs == [] then next else fs[0].node
  }

  /** The heap holds the right edge above next, which is the right child of the lowest frame. */
  ghost predicate Spine(fs: seq<Frame>, next: Node)
    reads FrameNodes(fs)`children, FrameNodes(fs)`parent, {next}`parent
    decreases |fs|
  {
    if fs == [] then next.parent == null
    else
      var f := fs[|fs| - 1];
      && f.node.tok.Oper?
      && f.node.children == [Root(f.left), next]
      && next.parent == f.node
      && Root(f.left).parent == f.node
      && Rep(f.left)
      && Spine(fs[..|fs| - 1], f.node)
  }

  /** No node occurs twice on the edge, nor in others. */
  ghost predicate Apart(fs: seq<Frame>, others: set<Node>)
    decreases |fs|
  {
    fs != [] ==>
      var f := fs[|fs| - 1];
      && f.node !in others && Nodes(f.left) !! others && f.node !in Nodes(f.left)
      && Apart(fs[..|fs| - 1], others + {f.node} + Nodes(f.left))
  }

  /** Down the right edge operators bind ever tighter. */
  ghost predicate Descending(fs: seq<Frame>) {
    forall i :: 0 <= i < |fs| - 1 ==> Prec(OpOf(fs[i].node)) > Prec(OpOf(fs[i + 1].node))
  }

  ghost predicate Above(fs: seq<Frame>, op: Op) {
    forall i :: 0 <= i < |fs| ==> Prec(op) < Prec(OpOf(fs[i].node))
  }

  /** The subtree an operator may take as its left operand. */
  ghost predicate NoLooser(x: Shape, op: Op) {
    x.Binary? ==> Prec(OpOf(x.node)) <= Prec(op)
  }

  /** A finished tree under construction: edge fs, last operand or operator subtree x. */
  ghost predicate Built(fs: seq<Frame>, x: Shape)
    reads FrameNodes(fs), Nodes(x)
  {
    Spine(fs, Root(x)) && Rep(x) && Apart(fs, Nodes(x)) && Descending(fs)
  }

  /** An operator that awaits its right operand, at the end of the edge. */
  ghost predicate Waiting(fs: seq<Frame>, f: Frame)
    reads FrameNodes(fs), f.node, Nodes(f.left)
  {
    && f.node.tok.Oper?
    && f.node !in Nodes(f.left)
    && f.node.children == [Root(f.left)]
    && Root(f.left).parent == f.node
    && Rep(f.left)
    && Spine(fs, f.node)
    && Apart(fs, {f.node} + Nodes(f.left))
    && Descending(fs)
    && Above(fs, OpOf(f.node))
    && NoLooser(f.left, OpOf(f.node))
  }

  lemma {:induction false} ApartFrames(fs: seq<Frame>, others: set<Node>)
    requires Apart(fs, others)
    ensures FrameNodes(fs) !! others
    decreases |fs|
  {
    if fs != [] {
      var f := fs[|fs| - 1];
      ApartFrames(fs[..|fs| - 1], others + {f.node} + Nodes(f.left));
    }
  }

  lemma {:induction false} ApartFrom(fs: seq<Frame>, others: set<Node>, more: set<Node>)
    requires Apart(fs, others) && FrameNodes(fs) !! more
    ensures Apart(fs, others + more)
    decreases |fs|
  {
    if fs != [] {
      var f := fs[|fs| - 1];
      var own := {f.node} + Nodes(f.left);
      ApartFrom(fs[..|fs| - 1], others + {f.node} + Nodes(f.left), more);
      assert others + {f.node} + Nodes(f.left) + more == others + more + {f.node} + Nodes(f.left);
    }
  }

  /** Climbing replaces the lowest frame and x by the operator's whole subtree. */
  lemma ClimbStep(fs: seq<Frame>, x: Shape)
    requires Built(fs, x) && fs != []
    ensures var f, gs := fs[|fs| - 1], fs[..|fs| - 1];
            var y := Binary(f.node, f.left, x);
            Built(gs, y) && Plug(fs, x) == Plug(gs, y) && Root(x).parent == f.node && f.node.tok.Oper?
    ensures Top(fs, Root(x)) == Top(fs[..|fs| - 1], fs[|fs| - 1].node)
  {
    var f, gs := fs[|fs| - 1], fs[..|fs| - 1];
    var y := Binary(f.node, f.left, x);
    assert Nodes(y) == Nodes(x) + {f.node} + Nodes(f.left);
    assert Rep(y);
  }

  /** At the very top the whole edge has become one tree. */
  lemma {:induction false} PlugIsRep(fs: seq<Frame>, x: Shape)
    requires Built(fs, x)
    ensures Rep(Plug(fs, x)) && Root(Plug(fs, x)) == Top(fs, Root(x)) && Top(fs, Root(x)).parent == null
    ensures Nodes(Plug(fs, x)) == FrameNodes(fs) + Nodes(x)
    decreases |fs|
  {
    if fs != [] {
      ClimbStep(fs, x);
      PlugIsRep(fs[..|fs| - 1], Binary(fs[|fs| - 1].node, fs[|fs| - 1].left, x));
    }
  }

  /** Placing below operators that all bind looser changes the lower end only. */
  lemma {:induction false} PlaceThrough(fs: seq<Frame>, u: Shape, v: Shape, op: Op, y: Expr)
    requires Above(fs, op) && Place(ToExpr(u), op, y) == ToExpr(v)
    ensures Place(ToExpr(Plug(fs, u)), op, y) == ToExpr(Plug(fs, v))
    decreases |fs|
  {
    if fs != [] {
      var f, gs := fs[|fs| - 1], fs[..|fs| - 1];
      assert Prec(op) < Prec(OpOf(f.node));
      PlaceThrough(gs, Binary(f.node, f.left, u), Binary(f.node, f.left, v), op, y);
    }
  }

  /** The rewired tree is the one the placement function gives. */
  lemma FilledIsPlaced(fs: seq<Frame>, f: Frame, op: Op, y: Shape)
    requires f.node.tok == Oper(op) && Above(fs, OpOf(f.node)) && NoLooser(f.left, OpOf(f.node))
    ensures ToExpr(Plug(fs + [f], y)) == Place(ToExpr(Plug(fs, f.left)), op, ToExpr(y))
  {
    assert (fs + [f])[..|fs|] == fs;
    PlaceThrough(fs, f.left, Binary(f.node, f.left, y), OpOf(f.node), ToExpr(y));
  }

  // ------------------------------------------------------------------ the rewiring

  /** Climbs from the last operand past every operator that binds no looser than the new one. */
  method Climb(from: Node, op: Op, ghost fs: seq<Frame>, ghost x: Shape)
    returns (eptr: Node, ghost gs: seq<Frame>, ghost z: Shape)
    requires Built(fs, x) && from == Root(x) && NoLooser(x, op)
    ensures Built(gs, z) && eptr == Root(z) && Plug(gs, z) == Plug(fs, x)
    ensures Above(gs, op) && NoLooser(z, op)
    ensures Top(gs, eptr) == Top(fs, from)
    ensures FrameNodes(gs) + Nodes(z) == FrameNodes(fs) + Nodes(x)
    ensures gs == [] <==> eptr.parent == null
    ensures gs != [] ==> gs[|gs| - 1].node == eptr.parent
  {
    hide Rep, Apart, Plug, Top, ToExpr;
    eptr, gs, z := from, fs, x;
    while eptr.parent != null && eptr.parent.tok.Oper? && Prec(op) >= Prec(eptr.parent.tok.op)
      invariant Built(gs, z) && eptr == Root(z) && Plug(gs, z) == Plug(fs, x) && NoLooser(z, op)
      invariant Top(gs, eptr) == Top(fs, from)
      invariant FrameNodes(gs) + Nodes(z) == FrameNodes(fs) + Nodes(x)
      decreases |gs|
    {
      ClimbStep(gs, z);
      ghost var f := gs[|gs| - 1];
      gs, z := gs[..|gs| - 1], Binary(f.node, f.left, z);
      eptr := eptr.parent;
    }
    AboveAll(gs, op);
  }

  lemma AboveAll(gs: seq<Frame>, op: Op)
    requires Descending(gs) && (gs != [] ==> Prec(op) < Prec(OpOf(gs[|gs| - 1].node)))
    ensures Above(gs, op)
  {
    if gs != [] {
      var i := |gs| - 1;
      while i > 0
        invariant 0 <= i < |gs|
        invariant forall j :: i <= j < |gs| ==> Prec(op) < Prec(OpOf(gs[j].node))
      {
        var k := i - 1;
        assert Prec(OpOf(gs[k].node)) > Prec(OpOf(gs[k + 1].node));
        i := k;
      }
    }
  }

  /**
   * Puts a new operator node where it belongs: above the whole tree, or in
   * place of the subtree the climb stopped at, which becomes its left operand.
   */
  method PlaceOperator(expr: Node, last: Node, etmp: Node, ghost fs: seq<Frame>, ghost x: Shape)
    returns (newExpr: Node, ghost gs: seq<Frame>, ghost z: Shape)
    requires Built(fs, x) && last == Root(x) && IsOperand(ToExpr(x)) && expr == Top(fs, last)
    requires etmp.tok.Oper? && etmp.children == [] && etmp.parent == null
    requires etmp !in FrameNodes(fs) + Nodes(x)
    modifies FrameNodes(fs) + Nodes(x) + {etmp}
    ensures Waiting(gs, Frame(etmp, z))
    ensures Plug(gs, z) == Plug(fs, x)
    ensures newExpr == Top(gs, etmp)
    ensures FrameNodes(gs) + Nodes(z) == FrameNodes(fs) + Nodes(x)
  {
    var eptr;
    eptr, gs, z := Climb(last, etmp.tok.op, fs, x);
    if eptr.parent == null {
      Wrap(eptr, etmp, z);
      newExpr := etmp;
    } else {
      Replace(eptr, etmp, gs, z);
      newExpr := expr;
    }
  }

  /** The operator becomes the new top, over the tree. */
  method Wrap(expr: Node, etmp: Node, ghost z: Shape)
    requires Built([], z) && expr == Root(z) && NoLooser(z, OpOf(etmp))
    requires etmp.tok.Oper? && etmp.children == [] && etmp.parent == null && etmp !in Nodes(z)
    modifies expr`parent, etmp`children
    ensures Waiting([], Frame(etmp, z))
  {
    expr.parent := etmp;
    etmp.children := etmp.children + [expr];
  }

  /** The operator takes a subtree's place under its parent, and the subtree goes under the operator. */
  method Replace(eptr: Node, etmp: Node, ghost gs: seq<Frame>, ghost z: Shape)
    requires Built(gs, z) && eptr == Root(z) && gs != [] && eptr.parent == gs[|gs| - 1].node
    requires Above(gs, OpOf(etmp)) && NoLooser(z, OpOf(etmp))
    requires etmp.tok.Oper? && etmp.children == [] && etmp.parent == null
    requires etmp !in FrameNodes(gs) + Nodes(z)
    modifies eptr.parent`children, eptr`parent, etmp
    ensures Waiting(gs, Frame(etmp, z))
  {
    hide Descending, Above, NoLooser, Apart;
    var p := eptr.parent;
    ghost var f, hs := gs[|gs| - 1], gs[..|gs| - 1];
    RoomFor(gs, z, etmp);
    p.children := Without(p.children, eptr);
    etmp.parent := p;
    eptr.parent := etmp;
    p.children := p.children + [etmp];
    etmp.children := etmp.children + [eptr];
    assert Spine(hs, p);
  }

  /** What keeps the rewiring apart from everything it leaves alone. */
  lemma RoomFor(gs: seq<Frame>, z: Shape, etmp: Node)
    requires gs != [] && Apart(gs, Nodes(z)) && etmp !in FrameNodes(gs) + Nodes(z)
    ensures var f, hs := gs[|gs| - 1], gs[..|gs| - 1];
            && FrameNodes(hs) !! Nodes(z) + {f.node, etmp} + Nodes(f.left)
            && Nodes(f.left) !! Nodes(z) + {f.node, etmp}
            && f.node !in Nodes(z)
            && Without([Root(f.left), Root(z)], Root(z)) == [Root(f.left)]
    ensures Apart(gs, {etmp} + Nodes(z))
  {
    hide Rep;
    var f, hs := gs[|gs| - 1], gs[..|gs| - 1];
    ApartFrames(hs, Nodes(z) + {f.node} + Nodes(f.left));
    ApartFrom(gs, Nodes(z), {etmp});
    assert Nodes(z) + {etmp} == {etmp} + Nodes(z);
  }

  /** A child list with the first occurrence of a node taken out. */
  function Without(ns: seq<Node>, n: Node): seq<Node> {
    if ns == [] then []
    else if ns[0] == n then ns[1..]
    else [ns[0]] + Without(ns[1..], n)
  }

  /** A node on its own at the top of a finished tree. */
  ghost predicate Finished(s: Shape, n: Node)
    reads Nodes(s)
  {
    Rep(s) && n == Root(s) && n.parent == null
  }

  /** An operand goes under the operator that awaits it, as its last child. */
  method Attach(eptr: Node, etmp: Node, ghost gs: seq<Frame>, ghost z: Shape, ghost y: Shape)
    requires Waiting(gs, Frame(eptr, z)) && Finished(y, etmp)
    requires Nodes(y) !! FrameNodes(gs) + Nodes(z) + {eptr}
    modifies eptr`children, etmp`parent
    ensures Built(gs + [Frame(eptr, z)], y)
  {
    ghost var fs := gs + [Frame(eptr, z)];
    ApartFrames(gs, {eptr} + Nodes(z));
    ApartFrom(gs, {eptr} + Nodes(z), Nodes(y));
    assert {eptr} + Nodes(z) + Nodes(y) == Nodes(y) + {eptr} + Nodes(z);
    assert fs[..|fs| - 1] == gs;
    eptr.children := eptr.children + [etmp];
    etmp.parent := eptr;
    assert Spine(gs, eptr);
    assert Descending(fs) by {
      DescendingSnoc(gs, Frame(eptr, z));
    }
  }

  lemma DescendingSnoc(gs: seq<Frame>, f: Frame)
    requires Descending(gs) && Above(gs, OpOf(f.node))
    ensures Descending(gs + [f])
  {
    var fs := gs + [f];
    forall i | 0 <= i < |fs| - 1
      ensures Prec(OpOf(fs[i].node)) > Prec(OpOf(fs[i + 1].node))
    {
      assert fs[i] == gs[i];
    }
  }

  /** An atom, or a parenthesis level compiled on its own. */
  method CompileOperand(ts: seq<Token>) returns (etmp: Node?, rest: seq<Token>, ghost y: Shape)
    ensures etmp != null <==> Operand(ts).Parsed?
    ensures etmp != null ==> fresh(Nodes(y)) && Finished(y, etmp) && Parsed(ToExpr(y), rest) == Operand(ts)
    ensures IsOperand(ToExpr(y))
    decreases |ts|, 0
  {
    rest := [];
    if ts != [] && ts[0].Atom? {
      etmp := new Node(ts[0]);
      y := Atomic(etmp);
      rest := ts[1..];
    } else if ts != [] && ts[0].Open? {
      ghost var s;
      etmp, rest, s := CompileLevel(ts[1..], 1);
      y := Grouped(s);
    } else {
      etmp := null;
      var n := new Node(Close);
      y := Atomic(n);
    }
  }

  /**
   * Compiles one level: up to the end of the tokens at the outermost one, up
   * to and including a closing parenthesis inside; null is an error.
   */
  method CompileLevel(ts: seq<Token>, level: nat) returns (expr: Node?, rest: seq<Token>, ghost s: Shape)
    ensures var r := Level(ts);
            && (expr != null <==> r.Parsed? && (if level == 0 then r.rest == [] else r.rest != [] && r.rest[0] == Close))
            && (expr != null ==> rest == (if level == 0 then [] else r.rest[1..]) && ToExpr(s) == r.e)
    ensures expr != null ==> fresh(Nodes(s)) && Finished(s, expr)
    decreases |ts|, 1
  {
    hide Rep, Apart, Plug, Top, ToExpr, Place;
    ghost var x: Shape;
    expr, rest, x := CompileOperand(ts);
    s := x;
    if expr == null {
      return;
    }
    var eptr := expr;
    ghost var fs: seq<Frame>, owned := [], Nodes(x);
    Start(x);
    while rest != [] && rest[0] != Close
      invariant Built(fs, x) && eptr == Root(x) && IsOperand(ToExpr(x)) && expr == Top(fs, eptr)
      invariant owned == FrameNodes(fs) + Nodes(x) && fresh(owned)
      invariant Level(ts) == More(ToExpr(Plug(fs, x)), rest)
      invariant |rest| < |ts|
      decreases |rest|
    {
      if !rest[0].Oper? {
        expr := null;
        return;
      }
      expr, eptr, rest, fs, x, owned := OperatorAndOperand(expr, eptr, rest, fs, x, owned);
      if expr == null {
        return;
      }
    }
    if (level == 0) != (rest == []) {
      expr := null;
      return;
    }
    PlugIsRep(fs, x);
    s := Plug(fs, x);
    rest := if level == 0 then [] else rest[1..];
  }

  /** One turn of the token loop: an operator is placed, and its right operand attached. */
  method OperatorAndOperand(expr: Node, last: Node, ts: seq<Token>,
                            ghost fs: seq<Frame>, ghost x: Shape, ghost owned: set<Node>)
    returns (newExpr: Node?, eptr: Node, rest: seq<Token>, ghost gs: seq<Frame>, ghost y: Shape, ghost owns: set<Node>)
    requires owned == FrameNodes(fs) + Nodes(x)
    requires Built(fs, x) && last == Root(x) && IsOperand(ToExpr(x)) && expr == Top(fs, last)
    requires ts != [] && ts[0].Oper?
    modifies owned
    ensures newExpr != null <==> Operand(ts[1..]).Parsed?
    ensures newExpr != null ==> Built(gs, y) && eptr == Root(y) && IsOperand(ToExpr(y)) && newExpr == Top(gs, eptr)
    ensures owns == FrameNodes(gs) + Nodes(y) && fresh(owns - owned)
    ensures newExpr != null ==>
              Operand(ts[1..]).rest == rest &&
              ToExpr(Plug(gs, y)) == Place(ToExpr(Plug(fs, x)), ts[0].op, Operand(ts[1..]).e)
    decreases |ts|, 0
  {
    hide *;
    var op := new Node(ts[0]);
    ghost var hs, z;
    newExpr, hs, z := PlaceOperator(expr, last, op, fs, x);
    eptr, gs, y, owns := op, fs, x, owned;
    var etmp: Node?;
    ghost var w: Shape;
    etmp, rest, w := CompileOperand(ts[1..]);
    if etmp == null {
      newExpr := null;
      return;
    }
    WaitingFacts(hs, Frame(op, z));
    Attach(op, etmp, hs, z, w);
    gs, y := hs + [Frame(op, z)], w;
    FilledIsPlaced(hs, Frame(op, z), ts[0].op, w);
    TopSnoc(hs, Frame(op, z), etmp);
    owns := owned + {op} + Nodes(w);
    eptr := etmp;
  }

  lemma WaitingFacts(hs: seq<Frame>, f: Frame)
    requires Waiting(hs, f)
    ensures Above(hs, OpOf(f.node)) && NoLooser(f.left, OpOf(f.node))
  {
  }

  lemma TopSnoc(hs: seq<Frame>, f: Frame, n: Node)
    ensures Top(hs + [f], n) == Top(hs, f.node)
    ensures FrameNodes(hs + [f]) == FrameNodes(hs) + {f.node} + Nodes(f.left)
  {
    assert (hs + [f])[..|hs|] == hs;
  }

  lemma Start(x: Shape)
    requires Finished(x, Root(x))
    ensures Built([], x) && Plug([], x) == x && Top([], Root(x)) == Root(x) && FrameNodes([]) == {}
  {
  }

  /** A whole expression: the node tree built in place is the one the placement function gives. */
  method CompileExpression(ts: seq<Token>) returns (expr: Node?, ghost s: Shape)
    ensures expr != null <==> Compile(ts).Some?
    ensures expr != null ==> fresh(Nodes(s)) && Finished(s, expr) && ToExpr(s) == Compile(ts).value
    ensures expr != null ==> WellBound(ToExpr(s)) && Yield(ToExpr(s)) == ts
    ensures expr == null ==> forall e :: WellBound(e) ==> Yield(e) != ts
  {
    CompileSound(ts);
    forall e | Compile(ts).None? && WellBound(e)
      ensures Yield(e) != ts
    {
      CompileFailsOnlyWhenItMust(ts, e);
    }
    var rest;
    expr, rest, s := CompileLevel(ts, 0);
  }
}
