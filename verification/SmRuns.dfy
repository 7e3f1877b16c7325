/** Whole runs of allocator calls over the chain of blocks: what every run keeps, what the
    statistics count, and what each caller gets. */
module SmRuns {
  import opened Ints
  import opened SmChain

  // ---------------------------------------------------------------- statistics

  function Total(c: Chain, w: Block -> nat): nat {
    if c == [] then 0 else w(c[0]) + Total(c[1..], w)
  }

  const Links: Block -> nat := (b: Block) => if b.link > 0 then b.link else 0
  const Used: Block -> nat := (b: Block) => if b.Free() then 0 else 1
  const Bytes: Block -> nat := (b: Block) => if b.Free() then 0 else b.size

  lemma InitWellFormed(end: nat)
    requires end > BASE + HDR
    ensures WellFormed(InitChain(end), end)
    ensures Total(InitChain(end), Used) == 0 && Total(InitChain(end), Bytes) == 0
  {
    assert InitChain(end)[1..] == [];
  }

  lemma {:induction false} TotalConcat(x: Chain, y: Chain, w: Block -> nat)
    ensures Total(x + y, w) == Total(x, w) + Total(y, w)
  {
    if x == [] {
      assert x + y == y;
    } else {
      assert (x + y)[1..] == x[1..] + y;
      TotalConcat(x[1..], y, w);
    }
  }

  lemma TotalGlue(x: Chain, m: Block, y: Chain, w: Block -> nat)
    ensures Total(x + [m] + y, w) == Total(x, w) + w(m) + Total(y, w)
  {
    TotalConcat(x + [m], y, w);
    TotalConcat(x, [m], w);
  }

  lemma TotalSet(c: Chain, k: nat, b: Block, w: Block -> nat)
    requires k < |c|
    ensures Total(c[k := b], w) == Total(c, w) - w(c[k]) + w(b)
  {
    assert c == c[..k] + [c[k]] + c[k + 1..];
    assert c[k := b] == c[..k] + [b] + c[k + 1..];
    TotalGlue(c[..k], c[k], c[k + 1..], w);
    TotalGlue(c[..k], b, c[k + 1..], w);
  }

  lemma TotalPair(x: Chain, l: Block, r: Block, y: Chain, w: Block -> nat)
    ensures Total(x + [l, r] + y, w) == Total(x, w) + w(l) + w(r) + Total(y, w)
  {
    assert x + [l, r] + y == x + [l] + ([r] + y);
    TotalGlue(x, l, [r] + y, w);
    assert ([r] + y)[1..] == y;
  }

  /** Merging a weightless block into its left neighbour. */
  lemma TotalCombine(c: Chain, k: nat, w: Block -> nat)
    requires k + 1 < |c| && w(c[k + 1]) == 0
    ensures Total(CombineAt(c, k), w) == Total(c, w) - w(c[k]) + w(c[k].(size := c[k].size + HDR + c[k + 1].size))
  {
    hide Total, CombineAt;
    var x, l, r, y := c[..k], c[k], c[k + 1], c[k + 2..];
    Cut2(c, k);
    CombineShape(x, l, r, y);
    TotalPair(x, l, r, y, w);
    TotalGlue(x, l.(size := l.size + HDR + r.size), y, w);
  }

  ghost predicate IgnoresFree(w: Block -> nat) {
    forall b: Block :: b.Free() ==> w(b) == 0
  }

  lemma TotalSplit(c: Chain, k: nat, n: nat, w: Block -> nat)
    requires k < |c| && c[k].size >= n + HDR && w(c[k]) == 0
    requires w(c[k].(size := n)) == 0 && w(Block(c[k].off + HDR + n, c[k].size - n - HDR, -1)) == 0
    ensures Total(SplitAt(c, k, n), w) == Total(c, w)
  {
    var x, m, r, y := c[..k], c[k].(size := n), Block(c[k].off + HDR + n, c[k].size - n - HDR, -1), c[k + 1..];
    TotalPair(x, m, r, y, w);
    Cut(c, k);
    TotalGlue(x, c[k], y, w);
  }

  lemma TotalAlloc(c: Chain, k: nat, n: nat, w: Block -> nat)
    requires k < |c| && c[k].Free() && c[k].size >= n && IgnoresFree(w)
    ensures Total(AllocAt(c, k, n), w) == Total(c, w) + w(AllocAt(c, k, n)[k])
  {
    var s := if Splits(c[k], n) then SplitAt(c, k, Given(n)) else c;
    if Splits(c[k], n) { TotalSplit(c, k, Given(n), w); }
    assert s[k].Free();
    TotalSet(s, k, s[k].(link := 1), w);
  }

  lemma TotalRelease(c: Chain, k: nat, w: Block -> nat)
    requires k < |c| && c[k].link >= 1 && IgnoresFree(w)
    ensures Total(ReleaseAt(c, k), w) == Total(c, w) - w(c[k]) +
              (if c[k].link > 1 then w(c[k].(link := c[k].link - 1)) else 0)
  {
    hide Total, CombineAt;
    if c[k].link > 1 {
      TotalSet(c, k, c[k].(link := c[k].link - 1), w);
    } else {
      TotalSet(c, k, c[k].(link := -1), w);
      var f := c[k := c[k].(link := -1)];
      var g := f;
      if k + 1 < |f| && f[k + 1].Free() {
        TotalCombine(f, k, w);
        g := CombineAt(f, k);
      }
      if k > 0 && g[k - 1].Free() {
        TotalCombine(g, k - 1, w);
      }
    }
  }

  lemma TotalShift(c: Chain, k: nat, n: nat, w: Block -> nat)
    requires k + 1 < |c| && c[k].size <= n <= c[k].size + c[k + 1].size
    requires w(c[k + 1]) == w(ShiftAt(c, k, n)[k + 1])
    ensures Total(ShiftAt(c, k, n), w) == Total(c, w) - w(c[k]) + w(c[k].(size := n))
  {
    var s := ShiftAt(c, k, n);
    ShiftShape(c, k, n);
    TotalPair(c[..k], s[k], s[k + 1], c[k + 2..], w);
    Cut2(c, k);
    TotalPair(c[..k], c[k], c[k + 1], c[k + 2..], w);
  }

  lemma TotalGrow(c: Chain, k: nat, n: nat, w: Block -> nat)
    requires k < |c| && !MustMove(c, k, n) && IgnoresFree(w)
    ensures Total(GrowAt(c, k, n), w) == Total(c, w) - w(c[k]) + w(GrowAt(c, k, n)[k])
  {
    hide Total;
    if n + ALIGN > c[k].size + c[k + 1].size {
      TotalCombine(c, k, w);
    } else if n > c[k].size {
      TotalShift(c, k, n, w);
    }
  }

  lemma {:induction false} BytesFit(c: Chain, a: nat, b: nat)
    requires Tiling(c, a, b)
    ensures a + Total(c, Bytes) <= b
  {
    if c != [] { BytesFit(c[1..], c[0].End(), b); }
  }

  /** What smFree leaves on the byte count when it takes the size of a freed block through an int. */
  function Lost(b: Block): int {
    if b.link == 1 then b.size - Wrap32(b.size) else 0
  }

  /** Freeing a block restores the byte count exactly when the block is below 2 GiB. */
  lemma LostNothing(b: Block)
    requires b.size < REGION_LIMIT && b.link == 1
    ensures Lost(b) % SIZE_MOD == 0 <==> b.size < INT_LIMIT
  {
    FitsInt(b.size);
  }

  // ---------------------------------------------------------------- runs

  ghost predicate Runnable(c: Chain, ops: seq<Op>)
    decreases |ops|
  {
    ops == [] || (Callable(c, ops[0]) && Runnable(Step(c, ops[0]).chain, ops[1..]))
  }

  ghost function Run(c: Chain, ops: seq<Op>): Chain
    requires Runnable(c, ops)
    decreases |ops|
  {
    if ops == [] then c else Run(Step(c, ops[0]).chain, ops[1..])
  }

  /** A live block other than the freed or resized one is still there, unmoved, same size. */
  ghost predicate Survives(b: Block, d: Chain) {
    exists j :: 0 <= j < |d| && d[j] == b
  }

  lemma AllocOthers(c: Chain, k: nat, n: nat, i: nat)
    requires k < |c| && c[k].size >= n && i < |c| && i != k
    ensures Survives(c[i], AllocAt(c, k, n))
  {
    var d := AllocAt(c, k, n);
    assert d[if i < k || |d| == |c| then i else i + 1] == c[i];
  }

  lemma CombineOthers(c: Chain, k: nat, i: nat)
    requires k + 1 < |c| && i < |c| && i != k && i != k + 1
    ensures Survives(c[i], CombineAt(c, k))
  {
    assert CombineAt(c, k)[if i < k then i else i - 1] == c[i];
  }

  lemma ReleaseOthers(c: Chain, k: nat, i: nat)
    requires k < |c| && c[k].link >= 1 && i < |c| && i != k && c[i].link >= 1
    ensures Survives(c[i], ReleaseAt(c, k))
  {
    if c[k].link > 1 {
      assert ReleaseAt(c, k)[i] == c[i];
    } else {
      var f := c[k := c[k].(link := -1)];
      assert f[i] == c[i];
      var g, j := f, i;
      if k + 1 < |f| && f[k + 1].Free() {
        g, j := CombineAt(f, k), if i < k then i else i - 1;
        assert g[j] == c[i];
      }
      if k > 0 && g[k - 1].Free() {
        CombineOthers(g, k - 1, j);
      } else {
        assert ReleaseAt(c, k)[j] == c[i];
      }
    }
  }

  lemma GrowOthers(c: Chain, k: nat, n: nat, i: nat)
    requires k < |c| && !MustMove(c, k, n) && i < |c| && i != k && c[i].link >= 1
    ensures Survives(c[i], GrowAt(c, k, n))
  {
    if n + ALIGN > c[k].size + c[k + 1].size {
      CombineOthers(c, k, i);
    } else {
      assert GrowAt(c, k, n)[i] == c[i];
    }
  }

  /** After smMalloc inside smRealloc the old block is still where it was. */
  lemma MovedFromStays(c: Chain, end: nat, off: nat, n: nat)
    requires WellFormed(c, end) && IndexOf(c, off) < |c| && c[IndexOf(c, off)].link == 1
    ensures
      var m := DoMalloc(c, n).chain;
      IndexOf(m, off) < |m| && m[IndexOf(m, off)] == c[IndexOf(c, off)]
  {
    var k, i := FirstFit(c, RoundUp(n)), IndexOf(c, off);
    if k < |c| {
      var m := AllocAt(c, k, RoundUp(n));
      AllocKeeps(c, end, k, RoundUp(n));
      AllocOthers(c, k, RoundUp(n), i);
      SegmentTiling(m, BASE, end, false);
      TilingOrder(m, BASE, end);
      var j :| 0 <= j < |m| && m[j] == c[i];
      assert IndexOf(m, off) == j;
    }
  }

  lemma StepKeeps(c: Chain, end: nat, op: Op)
    requires WellFormed(c, end) && Callable(c, op)
    ensures WellFormed(Step(c, op).chain, end)
  {
    hide Segment, AllocAt, ReleaseAt, GrowAt, RoundUp;
    match op
    case Malloc(size) =>
      var k := FirstFit(c, RoundUp(size));
      if k < |c| { AllocKeeps(c, end, k, RoundUp(size)); }
    case LinkTo(off) =>
      if c[IndexOf(c, off)].link > 0 { LinkKeeps(c, end, IndexOf(c, off)); }
    case Free(off) =>
      if c[IndexOf(c, off)].link > 0 { ReleaseKeeps(c, end, IndexOf(c, off)); }
    case Realloc(off, size) =>
      var n, k := RoundUp(size), IndexOf(c, off);
      if c[k].link == 1 && !KeepsSize(c[k], n) {
        if MustMove(c, k, n) {
          var m := DoMalloc(c, n).chain;
          var f := FirstFit(c, RoundUp(n));
          if f < |c| { AllocKeeps(c, end, f, RoundUp(n)); }
          MovedFromStays(c, end, off, n);
          ReleaseKeeps(m, end, IndexOf(m, off));
        } else {
          GrowKeeps(c, end, k, n);
        }
      }
  }

  /** One more reference keeps the chain well formed exactly while the count has room for it. */
  lemma LinkKeeps(c: Chain, end: nat, k: nat)
    requires WellFormed(c, end) && k < |c| && 0 < c[k].link < INT_LIMIT
    ensures WellFormed(c[k := c[k].(link := Incremented(c[k].link))], end) <==> c[k].link < INT_LIMIT - 1
  {
    var m := c[k].(link := Incremented(c[k].link));
    var d := c[k := m];
    assert d == c[..k] + [m] + c[k + 1..];
    if c[k].link < INT_LIMIT - 1 {
      SegmentAt(c, k, end);
      Glue(c[..k], m, c[k + 1..], end);
    } else if WellFormed(d, end) {
      SegmentAt(d, k, end);
      assert false;
    }
  }

  /** Safety over every run. */
  lemma {:induction false} RunKeeps(c: Chain, end: nat, ops: seq<Op>)
    requires WellFormed(c, end) && Runnable(c, ops)
    ensures WellFormed(Run(c, ops), end)
    decreases |ops|
  {
    if ops != [] {
      StepKeeps(c, end, ops[0]);
      RunKeeps(Step(c, ops[0]).chain, end, ops[1..]);
    }
  }

  /** What a call adds to the number of references held by callers. */
  function Delta(c: Chain, op: Op): int
    requires Callable(c, op)
  {
    match op
    case Malloc(size) => if DoMalloc(c, size).ptr != 0 then 1 else 0
    case LinkTo(off) => if DoLink(c, off).ptr != 0 then 1 else 0
    case Free(off) => if c[IndexOf(c, off)].link > 0 then -1 else 0
    case Realloc(_, _) => 0
  }

  ghost function Net(c: Chain, ops: seq<Op>): int
    requires Runnable(c, ops)
    decreases |ops|
  {
    if ops == [] then 0 else Delta(c, ops[0]) + Net(Step(c, ops[0]).chain, ops[1..])
  }

  lemma MoveLinks(c: Chain, end: nat, off: nat, n: nat)
    requires WellFormed(c, end) && IndexOf(c, off) < |c| && c[IndexOf(c, off)].link == 1
    requires DoMalloc(c, n).ptr != 0
    ensures
      var m := DoMalloc(c, n).chain;
      IndexOf(m, off) < |m| && Total(DoFree(m, off), Links) == Total(c, Links)
  {
    hide Total, AllocAt, ReleaseAt, Segment, RoundUp;
    var m, f := DoMalloc(c, n).chain, FirstFit(c, RoundUp(n));
    TotalAlloc(c, f, RoundUp(n), Links);
    MovedFromStays(c, end, off, n);
    TotalRelease(m, IndexOf(m, off), Links);
  }

  lemma StepLinks(c: Chain, end: nat, op: Op)
    requires WellFormed(c, end) && Callable(c, op)
    ensures Total(Step(c, op).chain, Links) == Total(c, Links) + Delta(c, op)
  {
    hide Total, AllocAt, ReleaseAt, GrowAt, Segment, FirstFit;
    match op
    case Malloc(size) =>
      var k := FirstFit(c, RoundUp(size));
      if k < |c| { TotalAlloc(c, k, RoundUp(size), Links); }
    case LinkTo(off) =>
      var k := IndexOf(c, off);
      TotalSet(c, k, c[k].(link := Incremented(c[k].link)), Links);
    case Free(off) =>
      var k := IndexOf(c, off);
      if c[k].link > 0 { TotalRelease(c, k, Links); }
    case Realloc(off, size) =>
      var n, k := RoundUp(size), IndexOf(c, off);
      if c[k].link == 1 && !KeepsSize(c[k], n) {
        if !MustMove(c, k, n) {
          TotalGrow(c, k, n, Links);
        } else if DoMalloc(c, n).ptr != 0 {
          MoveLinks(c, end, off, n);
        }
      }
  }

  lemma {:induction false} RunLinks(c: Chain, end: nat, ops: seq<Op>)
    requires WellFormed(c, end) && Runnable(c, ops)
    ensures Total(Run(c, ops), Links) == Total(c, Links) + Net(c, ops)
    decreases |ops|
  {
    if ops != [] {
      StepKeeps(c, end, ops[0]);
      StepLinks(c, end, ops[0]);
      RunLinks(Step(c, ops[0]).chain, end, ops[1..]);
    }
  }

  /** A well-formed chain without references is the chain smInit built. */
  lemma UnusedIsInit(c: Chain, end: nat)
    requires WellFormed(c, end) && end > BASE + HDR && Total(c, Links) == 0
    ensures c == InitChain(end)
  {
    var d := c[1..];
    assert Segment(d, c[0].End(), end, c[0].Free());
    assert c[0].Free();
    assert d == [];
    assert c == [c[0]] && c[0].End() == end;
  }

  /** Freeing every link: whatever was called in between, once the references handed out
      are all given back the region is one free block again, as after smInit. */
  lemma BalancedRunRestoresInit(end: nat, ops: seq<Op>)
    requires end > BASE + HDR && Runnable(InitChain(end), ops) && Net(InitChain(end), ops) == 0
    ensures Run(InitChain(end), ops) == InitChain(end)
  {
    var c := InitChain(end);
    assert c[1..] == [];
    InitWellFormed(end);
    RunKeeps(c, end, ops);
    RunLinks(c, end, ops);
    UnusedIsInit(Run(c, ops), end);
  }

  // ---------------------------------------------------------------- what a caller gets

  ghost predicate Grants(d: Chain, ptr: nat, n: nat) {
    exists j :: 0 <= j < |d| && d[j].off + HDR == ptr && d[j].link == 1 && d[j].size >= n
  }

  /** The block of a pointer handed out, of at least lo and less than hi bytes. */
  ghost predicate Sized(d: Chain, ptr: nat, lo: int, hi: int) {
    exists j :: 0 <= j < |d| && d[j].off + HDR == ptr && lo <= d[j].size < hi
  }

  /** A block is found by its address alone. */
  lemma GrantsAt(d: Chain, end: nat, j: nat, n: nat)
    requires WellFormed(d, end) && j < |d| && d[j].link == 1
    ensures Grants(d, d[j].off + HDR, n) <==> d[j].size >= n
  {
    SegmentTiling(d, BASE, end, false);
    TilingOrder(d, BASE, end);
  }

  lemma InOrder(c: Chain, end: nat)
    requires WellFormed(c, end)
    ensures forall i, j :: 0 <= i < j < |c| ==> c[i].off < c[j].off
  {
    SegmentTiling(c, BASE, end, false);
    TilingOrder(c, BASE, end);
  }

  /** smMalloc fails only if no free block is large enough; otherwise the caller holds the only
      reference to a new block, the blocks that were in use are untouched, and what is left over beyond a
      header and 8 bytes is not handed out with it. The block comes from the first free one that is
      large enough, and is large enough exactly when no split of 2 GiB or more was needed. */
  lemma MallocGrants(c: Chain, end: nat, size: nat)
    requires WellFormed(c, end) && Callable(c, Malloc(size))
    ensures
      var m, n := DoMalloc(c, size), RoundUp(size);
      && (m.ptr == 0 <==> forall i :: 0 <= i < |c| ==> !(c[i].Free() && c[i].size >= n))
      && (m.ptr == 0 ==> m.chain == c)
      && (m.ptr != 0 ==> Grants(m.chain, m.ptr, 0) && forall i :: 0 <= i < |c| && c[i].link >= 1 ==> Survives(c[i], m.chain))
      && (m.ptr != 0 ==> (Grants(m.chain, m.ptr, n) <==> SplitExact(c, n)))
      && (m.ptr != 0 ==> Sized(m.chain, m.ptr, 0, n + 112))
      && (m.ptr != 0 ==> forall i :: 0 <= i < |c| && c[i].Free() && c[i].size >= n ==> m.ptr <= c[i].off + 104)
  {
    var n := RoundUp(size);
    var k := FirstFit(c, n);
    if k < |c| {
      var d := AllocAt(c, k, n);
      assert 0 <= d[k].size < n + 112;
      InOrder(c, end);
      assert d[k].off + HDR == DoMalloc(c, size).ptr;
      AllocKeeps(c, end, k, n);
      GrantsAt(d, end, k, n);
      GrantsAt(d, end, k, 0);
      forall i | 0 <= i < |c| && c[i].link >= 1 ensures Survives(c[i], d) {
        AllocOthers(c, k, n, i);
      }
    }
  }

  /** smRealloc works for a block with one reference only; when it succeeds the caller holds a
      block, the other blocks in use are untouched, and as many are in use as before. The block is large
      enough exactly when it stayed in place or no split of 2 GiB or more was needed. */
  lemma ReallocGrants(c: Chain, end: nat, off: nat, size: nat)
    requires WellFormed(c, end) && Callable(c, Realloc(off, size)) && size < SIZE_MOD
    ensures
      var m, k := DoRealloc(c, off, size), IndexOf(c, off);
      && (c[k].link != 1 ==> m == Outcome(c, 0))
      && (m.ptr == 0 ==> m.chain == c)
      && (m.ptr != 0 ==> (Grants(m.chain, m.ptr, RoundUp(size)) <==> m.ptr == off + HDR || SplitExact(c, RoundUp(size))))
      && Total(m.chain, Used) == Total(c, Used)
      && forall i :: 0 <= i < |c| && i != k && c[i].link >= 1 ==> Survives(c[i], m.chain)
  {
    hide Segment, Total, AllocAt, ReleaseAt, GrowAt, RoundUp, FirstFit, IndexOf;
    var n, k := RoundUp(size), IndexOf(c, off);
    RoundUpCovers(size);
    if c[k].link == 1 && KeepsSize(c[k], n) {
      assert Grants(c, off + HDR, n);
      SurviveSelf(c);
    } else if c[k].link != 1 {
      SurviveSelf(c);
    } else if !MustMove(c, k, n) {
      TotalGrow(c, k, n, Used);
      assert Grants(GrowAt(c, k, n), off + HDR, n);
      forall i | 0 <= i < |c| && i != k && c[i].link >= 1 ensures Survives(c[i], GrowAt(c, k, n)) {
        GrowOthers(c, k, n, i);
      }
    } else if FirstFit(c, n) == |c| {
      SurviveSelf(c);
    } else {
      MoveGrants(c, end, off, n);
    }
  }

  lemma SurviveSelf(c: Chain)
    ensures forall i :: 0 <= i < |c| ==> Survives(c[i], c)
  {
  }

  lemma MoveGrants(c: Chain, end: nat, off: nat, n: nat)
    requires WellFormed(c, end) && IndexOf(c, off) < |c| && c[IndexOf(c, off)].link == 1
    requires RoundUp(n) == n && FirstFit(c, n) < |c| && SplitFits(c, n)
    ensures
      var m, k := DoMalloc(c, n), IndexOf(c, off);
      && m.ptr != off + HDR
      && IndexOf(m.chain, off) < |m.chain|
      && var d := DoFree(m.chain, off);
      && (Grants(d, m.ptr, n) <==> SplitExact(c, n)) && Total(d, Used) == Total(c, Used)
      && forall i :: 0 <= i < |c| && i != k && c[i].link >= 1 ==> Survives(c[i], d)
  {
    hide Segment, Total, AllocAt, ReleaseAt, RoundUp, FirstFit, IndexOf;
    var f, k, m := FirstFit(c, n), IndexOf(c, off), DoMalloc(c, n).chain;
    MovedFromStays(c, end, off, n);
    var i := IndexOf(m, off);
    TotalAlloc(c, f, n, Used);
    TotalRelease(m, i, Used);
    SegmentTiling(c, BASE, end, false);
    TilingOrder(c, BASE, end);
    hide Tiling;
    var d := ReleaseAt(m, i);
    ReleaseOthers(m, i, f);
    var j :| 0 <= j < |d| && d[j] == m[f];
    AllocKeeps(c, end, f, n);
    ReleaseKeeps(m, end, i);
    GrantsAt(d, end, j, n);
    forall x | 0 <= x < |c| && x != k && c[x].link >= 1 ensures Survives(c[x], d) {
      AllocOthers(c, f, n, x);
      var y :| 0 <= y < |m| && m[y] == c[x];
      ReleaseOthers(m, i, y);
    }
  }

  /** smLinkTo gives the pointer back for a block in use, with one reference more, and null for a free one. */
  lemma LinkGrants(c: Chain, end: nat, off: nat)
    requires WellFormed(c, end) && Callable(c, LinkTo(off))
    ensures
      var m, k := DoLink(c, off), IndexOf(c, off);
      && (m.ptr == 0 <==> c[k].link == -1) && (m.ptr == 0 ==> m.chain == c)
      && (m.ptr != 0 ==> m.ptr == off + 104 && m.chain == c[k := Block(off, c[k].size, c[k].link + 1)])
  {
    SegmentAt(c, IndexOf(c, off), end);
  }

  /** A block that fits n bytes, with less than a header and 8 bytes to spare. */
  predicate FitsTightly(b: Block, n: nat) {
    n <= b.size < n + 112
  }

  /** The block and a free one behind it, header included, have room for n bytes. */
  predicate RoomBehind(c: Chain, k: nat, n: nat)
    requires k < |c|
  {
    k + 1 < |c| && c[k + 1].link == -1 && n <= c[k].size + 104 + c[k + 1].size
  }

  predicate RoomSomewhere(c: Chain, n: nat) {
    exists i :: 0 <= i < |c| && c[i].link == -1 && c[i].size >= n
  }

  /** The four ways through smRealloc. */
  lemma ReallocIs(c: Chain, end: nat, off: nat, size: nat)
    requires WellFormed(c, end) && IndexOf(c, off) < |c| && size < SIZE_MOD
    ensures
      var m, k, n := DoRealloc(c, off, size), IndexOf(c, off), RoundUp(size);
      && (c[k].link != 1 ==> m == Outcome(c, 0))
      && (c[k].link == 1 && KeepsSize(c[k], n) ==> m == Outcome(c, off + HDR))
      && (c[k].link == 1 && !KeepsSize(c[k], n) && !MustMove(c, k, n) ==> m == Outcome(GrowAt(c, k, n), off + HDR))
      && (c[k].link == 1 && !KeepsSize(c[k], n) && MustMove(c, k, n) ==>
            var f := FirstFit(c, n); m.ptr == if f == |c| then 0 else c[f].off + HDR)
  {
    RoundUpCovers(size);
    var k, n := IndexOf(c, off), RoundUp(size);
    if c[k].link == 1 && !KeepsSize(c[k], n) && MustMove(c, k, n) {
      MovedFromStays(c, end, off, n);
    }
    hide RoundUp, Segment, FirstFit, IndexOf, AllocAt, ReleaseAt, GrowAt, KeepsSize, MustMove;
  }

  /** When smRealloc fails, when the block stays where it is, and that it moves to the first place otherwise. */
  lemma ReallocSucceeds(c: Chain, end: nat, off: nat, size: nat)
    requires WellFormed(c, end) && IndexOf(c, off) < |c| && size < SIZE_MOD
    ensures
      var m, k, n := DoRealloc(c, off, size), IndexOf(c, off), RoundUp(size);
      && (m.ptr == 0 <==>
          c[k].link != 1 || (!FitsTightly(c[k], n) && !RoomBehind(c, k, n) && !RoomSomewhere(c, n)))
      && (m.ptr == off + 104 <==> c[k].link == 1 && (FitsTightly(c[k], n) || RoomBehind(c, k, n)))
      && (m.ptr != 0 && m.ptr != off + 104 ==>
          forall i :: 0 <= i < |c| && c[i].link == -1 && c[i].size >= n ==> m.ptr <= c[i].off + 104)
  {
    var k, n := IndexOf(c, off), RoundUp(size);
    ReallocIs(c, end, off, size);
    InOrder(c, end);
    hide RoundUp, Segment, DoRealloc, FirstFit, IndexOf, GrowAt;
    assert KeepsSize(c[k], n) <==> FitsTightly(c[k], n);
    assert MustMove(c, k, n) <==> !RoomBehind(c, k, n);
    var f := FirstFit(c, n);
    assert f < |c| ==> c[f].link == -1 && c[f].size >= n;
    assert RoomSomewhere(c, n) <==> f < |c|;
  }

  /** A block that stays takes exactly what it needs: nothing when it is large enough, room from the next one
      otherwise, and all of that one if less than 8 bytes of it would be left. */
  lemma ReallocTakes(c: Chain, end: nat, off: nat, size: nat)
    requires WellFormed(c, end) && IndexOf(c, off) < |c| && size < SIZE_MOD
    requires DoRealloc(c, off, size).ptr == off + 104
    ensures
      var d, k, n := DoRealloc(c, off, size).chain, IndexOf(c, off), RoundUp(size);
      k < |d| && d[k].off == off && d[k].link == 1 &&
      d[k].size == if FitsTightly(c[k], n) then c[k].size
                   else if n + 8 > c[k].size + c[k + 1].size then c[k].size + 104 + c[k + 1].size
                   else if n > c[k].size then n else c[k].size
  {
    ReallocIs(c, end, off, size);
    ReallocSucceeds(c, end, off, size);
    hide RoundUp, Segment, DoRealloc, FirstFit, IndexOf;
    var k, n := IndexOf(c, off), RoundUp(size);
    assert KeepsSize(c[k], n) <==> FitsTightly(c[k], n);
    assert MustMove(c, k, n) <==> !RoomBehind(c, k, n);
  }
}
