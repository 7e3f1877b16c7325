/** The shared-memory allocator seen as a chain of blocks in address order.

    This is the specification level of the allocator: what one call does to the sequence of
    blocks, free of list pointers.  `SmRegion` shows that the pointer manipulations in the
    region compute exactly these functions; here it is shown that each keeps the chain well
    formed, and in `SmRuns` what holds over whole runs. */
module SmChain {
  import opened Ints

  /** Offsets are relative to the region header; 0 is the null pointer. */
  const ALIGN: nat := 8
  const HDR: nat := 104           // sizeof(SmBlock) on an LP64 target
  const BASE: nat := 504          // sizeof(SmRegion) on an LP64 target, already aligned
  const SIZE_MOD: nat := 0x1_0000_0000_0000_0000   // size_t arithmetic is modulo this
  const REGION_LIMIT: nat := 0x8000_0000_0000_0000   // pointer differences within an object are signed
  const INT_LIMIT: nat := 0x8000_0000

  /** A link count after one more reference: an int, which wraps. */
  function Incremented(link: int): int {
    if link + 1 == INT_LIMIT then link + 1 - 2 * INT_LIMIT else link + 1
  }

  /** `link` is LinkCnt: -1 on a free block, otherwise the number of references. */
  datatype Block = Block(off: nat, size: nat, link: int) {
    predicate Free() { link == -1 }
    function End(): nat { off + HDR + size }
  }

  type Chain = seq<Block>

  function EndOf(c: Chain, a: nat): nat { if c == [] then a else c[|c| - 1].End() }

  predicate LastFree(c: Chain, p: bool) { if c == [] then p else c[|c| - 1].Free() }

  /** `c` tiles [a, b) exactly in address order, no two neighbours are both free, and every
      block is free or referenced.  `p` tells whether the block in front of `c` is free. */
  ghost predicate Segment(c: Chain, a: nat, b: nat, p: bool) {
    if c == [] then a == b
    else
      && c[0].off == a
      && (c[0].Free() || c[0].link >= 1)
      && !(p && c[0].Free())
      && Segment(c[1..], c[0].End(), b, c[0].Free())
  }

  ghost predicate WellFormed(c: Chain, end: nat) {
    end > BASE && Segment(c, BASE, end, false)
  }

  /** smInit: one free block holding everything behind the region header. */
  function InitChain(end: nat): Chain
    requires end > BASE + HDR
  {
    [Block(BASE, end - BASE - HDR, -1)]
  }

  // ---------------------------------------------------------------- single operations

  /** Rounding of a request, in size_t arithmetic. */
  function RoundUp(size: nat): nat {
    (size + (ALIGN - 1)) % SIZE_MOD / ALIGN * ALIGN
  }

  /** The granted size covers the request unless the rounding wraps around. */
  lemma RoundUpCovers(size: nat)
    requires size < SIZE_MOD
    ensures RoundUp(size) >= size <==> size <= SIZE_MOD - ALIGN
    ensures RoundUp(size) <= SIZE_MOD - ALIGN && RoundUp(RoundUp(size)) == RoundUp(size)
    ensures RoundUp(size) % 8 == 0 && RoundUp(size) < size + 8
  {
    if size + (ALIGN - 1) >= SIZE_MOD {
      assert (size + (ALIGN - 1)) % SIZE_MOD == size + (ALIGN - 1) - SIZE_MOD;
    }
  }

  /** A size survives the conversion to int exactly below 2^31. */
  lemma FitsInt(n: nat)
    ensures Wrap32(n) == n <==> n < INT_LIMIT
    ensures Wrap32(n) <= n && n - Wrap32(n) <= n + INT_LIMIT
  {
  }

  /** Address-ordered first fit; |c| when nothing fits. */
  function FirstFit(c: Chain, n: nat): (k: nat)
    ensures k <= |c|
    ensures k < |c| ==> c[k].Free() && c[k].size >= n
    ensures forall i :: 0 <= i < k ==> !(c[i].Free() && c[i].size >= n)
  {
    if c == [] then 0
    else if c[0].Free() && c[0].size >= n then 0
    else
      var r := FirstFit(c[1..], n);
      assert forall i :: 1 <= i < r + 1 ==> c[i] == c[1..][i - 1];
      1 + r
  }

  /** The position of the block whose header is at `off`; |c| when there is none. */
  function IndexOf(c: Chain, off: nat): (k: nat)
    ensures k <= |c|
    ensures k < |c| ==> c[k].off == off
    ensures forall i :: 0 <= i < k ==> c[i].off != off
  {
    if c == [] then 0
    else if c[0].off == off then 0
    else
      var r := IndexOf(c[1..], off);
      assert forall i :: 1 <= i < r + 1 ==> c[i] == c[1..][i - 1];
      1 + r
  }

  function SplitAt(c: Chain, k: nat, n: nat): (r: Chain)
    requires k < |c| && c[k].size >= n + HDR
    ensures |r| == |c| + 1 && r[k] == c[k].(size := n)
  {
    c[..k] + [c[k].(size := n), Block(c[k].off + HDR + n, c[k].size - n - HDR, -1)] + c[k + 1..]
  }

  function CombineAt(c: Chain, k: nat): (r: Chain)
    requires k + 1 < |c|
    ensures |r| == |c| - 1 && r[k] == c[k].(size := c[k].size + HDR + c[k + 1].size)
  {
    c[..k] + [c[k].(size := c[k].size + HDR + c[k + 1].size)] + c[k + 2..]
  }

  /** Moves the boundary between block k and the free block behind it up to size n. */
  function ShiftAt(c: Chain, k: nat, n: nat): (r: Chain)
    requires k + 1 < |c|
    requires c[k].size <= n <= c[k].size + c[k + 1].size
    ensures |r| == |c| && r[k] == c[k].(size := n)
  {
    var d := n - c[k].size;
    c[k := c[k].(size := n)][k + 1 := Block(c[k + 1].off + d, c[k + 1].size - d, c[k + 1].link)]
  }

  /** The size that a split for n bytes gives the first part, having gone through an int; a split is
      not made of a negative size. */
  function Given(n: nat): (g: nat)
    ensures g <= n && (n < INT_LIMIT ==> g == n)
    ensures Wrap32(n) >= 0 ==> g == Wrap32(n) && (g == n <==> n < INT_LIMIT)
  {
    if Wrap32(n) >= 0 then Wrap32(n) else n
  }

  /** Enough would be left over of a block of which n bytes are wanted. */
  predicate Splits(b: Block, n: nat) {
    b.size >= n + ALIGN + HDR
  }

  function AllocAt(c: Chain, k: nat, n: nat): (r: Chain)
    requires k < |c| && c[k].size >= n
    ensures k < |r| && r[k].off == c[k].off && r[k].link == 1
    ensures r[k].size == if Splits(c[k], n) then Given(n) else c[k].size
  {
    var s := if Splits(c[k], n) then SplitAt(c, k, Given(n)) else c;
    s[k := s[k].(link := 1)]
  }

  function ReleaseAt(c: Chain, k: nat): Chain
    requires k < |c|
  {
    if c[k].link > 1 then c[k := c[k].(link := c[k].link - 1)]
    else
      var f := c[k := c[k].(link := -1)];
      var g := if k + 1 < |f| && f[k + 1].Free() then CombineAt(f, k) else f;
      if k > 0 && g[k - 1].Free() then CombineAt(g, k - 1) else g
  }

  /** The block is left alone: the request fits and would not free a usable remainder. */
  predicate KeepsSize(b: Block, n: nat) {
    n <= b.size && n + HDR + ALIGN > b.size
  }

  /** The following block cannot supply the room, so the contents have to move; behind the last
      block there is none. */
  predicate MustMove(c: Chain, k: nat, n: nat)
    requires k < |c|
  {
    k + 1 == |c| || !c[k + 1].Free() || n > c[k].size + HDR + c[k + 1].size
  }

  /** For the last block the code takes the region header for the next block: where a block has its
      size and link count, the region has the offsets of its first and last block. The contents
      move when that looks like a block in use or too small; otherwise an assertion fails. */
  predicate LastMoves(b: Block, n: nat) {
    Wrap32(b.off) >= 0 || n > b.size + HDR + BASE
  }

  /** Resizing in place: swallow the next block, or move the boundary, or do nothing. */
  function GrowAt(c: Chain, k: nat, n: nat): (r: Chain)
    requires k < |c| && !MustMove(c, k, n)
    ensures k < |r| && r[k].off == c[k].off && r[k].link == c[k].link
    ensures r[k].size >= n && r[k].size >= c[k].size
  {
    if n + ALIGN > c[k].size + c[k + 1].size then CombineAt(c, k)
    else if n <= c[k].size then c
    else ShiftAt(c, k, n)
  }

  // ---------------------------------------------------------------- calls

  /** What a caller can ask for.  Pointers are named by the header in front of them. */
  datatype Op =
    | Malloc(size: nat)
    | LinkTo(off: nat)
    | Free(off: nat)
    | Realloc(off: nat, size: nat)

  /** The size of a split travels through an int: a negative one fails an assertion, or lets the new
      header overlap the old one. */
  predicate SplitFits(c: Chain, n: nat) {
    var k := FirstFit(c, n);
    k < |c| && Splits(c[k], n) ==> Wrap32(n) >= 0
  }

  /** And only one that fits an int gives the size asked for. */
  predicate SplitExact(c: Chain, n: nat) {
    var k := FirstFit(c, n);
    k < |c| && Splits(c[k], n) ==> n < INT_LIMIT
  }

  /** The new block holds what is copied from one of `size` bytes, so that nothing behind it is overwritten. */
  predicate CopyFits(c: Chain, n: nat, size: nat) {
    var k := FirstFit(c, n);
    SplitFits(c, n) && (k < |c| && Splits(c[k], n) ==> size <= Given(n) || Given(n) == n)
  }

  /** A call the library accepts: pointers denote headers of the chain, and sizes, offsets and counts
      fit the integers they are put in. */
  predicate Callable(c: Chain, op: Op) {
    match op
    case Malloc(size) => SplitFits(c, RoundUp(size))
    case LinkTo(off) =>
      var k := IndexOf(c, off);
      k < |c| && c[k].link < INT_LIMIT - 1
    case Free(off) => IndexOf(c, off) < |c|
    case Realloc(off, size) =>
      var k, n := IndexOf(c, off), RoundUp(size);
      && k < |c|
      && (c[k].link == 1 && !KeepsSize(c[k], n) && k + 1 == |c| ==> LastMoves(c[k], n))
      && (c[k].link == 1 && !KeepsSize(c[k], n) && MustMove(c, k, n) ==> CopyFits(c, n, c[k].size))
  }

  datatype Outcome = Outcome(chain: Chain, ptr: nat)

  function DoMalloc(c: Chain, size: nat): Outcome {
    var n := RoundUp(size);
    var k := FirstFit(c, n);
    if k == |c| then Outcome(c, 0) else Outcome(AllocAt(c, k, n), c[k].off + HDR)
  }

  function DoLink(c: Chain, off: nat): Outcome
    requires IndexOf(c, off) < |c|
  {
    var k := IndexOf(c, off);
    if c[k].link <= 0 then Outcome(c, 0) else Outcome(c[k := c[k].(link := Incremented(c[k].link))], off + HDR)
  }

  function DoFree(c: Chain, off: nat): Chain
    requires IndexOf(c, off) < |c|
  {
    var k := IndexOf(c, off);
    if c[k].link <= 0 then c else ReleaseAt(c, k)
  }

  function DoRealloc(c: Chain, off: nat, size: nat): Outcome
    requires IndexOf(c, off) < |c|
  {
    var n := RoundUp(size);
    var k := IndexOf(c, off);
    if c[k].link != 1 then Outcome(c, 0)
    else if KeepsSize(c[k], n) then Outcome(c, off + HDR)
    else if MustMove(c, k, n) then
      var m := DoMalloc(c, n);
      if m.ptr == 0 || IndexOf(m.chain, off) == |m.chain| then m
      else Outcome(DoFree(m.chain, off), m.ptr)
    else Outcome(GrowAt(c, k, n), off + HDR)
  }

  function Step(c: Chain, op: Op): Outcome
    requires Callable(c, op)
  {
    match op
    case Malloc(size) => DoMalloc(c, size)
    case LinkTo(off) => DoLink(c, off)
    case Free(off) => Outcome(DoFree(c, off), 0)
    case Realloc(off, size) => DoRealloc(c, off, size)
  }

  // ---------------------------------------------------------------- what single steps keep

  lemma {:induction false} SegmentConcat(x: Chain, y: Chain, a: nat, b: nat, p: bool)
    ensures Segment(x + y, a, b, p) <==>
            Segment(x, a, EndOf(x, a), p) && Segment(y, EndOf(x, a), b, LastFree(x, p))
  {
    if x == [] {
      assert x + y == y;
    } else {
      assert (x + y)[1..] == x[1..] + y;
      SegmentConcat(x[1..], y, x[0].End(), b, x[0].Free());
    }
  }

  /** Cuts a chain in front of and behind block k. */
  lemma SegmentAt(c: Chain, k: nat, end: nat)
    requires WellFormed(c, end) && k < |c|
    ensures Segment(c[..k], BASE, c[k].off, false) && EndOf(c[..k], BASE) == c[k].off
    ensures c[k].Free() || c[k].link >= 1
    ensures !(LastFree(c[..k], false) && c[k].Free())
    ensures Segment(c[k + 1..], c[k].End(), end, c[k].Free())
  {
    assert c == c[..k] + c[k..];
    SegmentConcat(c[..k], c[k..], BASE, end, false);
    assert c[k..][1..] == c[k + 1..];
  }

  /** Glues a chain from a front part, one block, and a rear part. */
  lemma Glue(x: Chain, m: Block, y: Chain, end: nat)
    requires Segment(x, BASE, m.off, false) && EndOf(x, BASE) == m.off
    requires (m.Free() || m.link >= 1) && !(LastFree(x, false) && m.Free())
    requires Segment(y, m.End(), end, m.Free()) && end > BASE
    ensures WellFormed(x + [m] + y, end)
  {
    assert ([m] + y)[1..] == y;
    assert x + [m] + y == x + ([m] + y);
    SegmentConcat(x, [m] + y, BASE, end, false);
  }

  /** `c` tiles [a, b) exactly, whatever its blocks are used for. */
  ghost predicate Tiling(c: Chain, a: nat, b: nat) {
    if c == [] then a == b else c[0].off == a && Tiling(c[1..], c[0].End(), b)
  }

  lemma {:induction false} SegmentTiling(c: Chain, a: nat, b: nat, p: bool)
    requires Segment(c, a, b, p)
    ensures Tiling(c, a, b)
  {
    if c != [] { SegmentTiling(c[1..], c[0].End(), b, c[0].Free()); }
  }

  lemma {:induction false} TilingConcat(x: Chain, y: Chain, a: nat, b: nat)
    ensures Tiling(x + y, a, b) <==> Tiling(x, a, EndOf(x, a)) && Tiling(y, EndOf(x, a), b)
  {
    if x == [] {
      assert x + y == y;
    } else {
      assert (x + y)[1..] == x[1..] + y;
      TilingConcat(x[1..], y, x[0].End(), b);
    }
  }

  lemma {:induction false} TilingOrder(c: Chain, a: nat, b: nat)
    requires Tiling(c, a, b)
    ensures a <= b
    ensures forall i :: 0 <= i < |c| ==> a <= c[i].off && c[i].End() <= b
    ensures forall i, j :: 0 <= i < j < |c| ==> c[i].End() <= c[j].off && (j == i + 1 ==> c[i].End() == c[j].off)
  {
    if c != [] {
      var d := c[1..];
      TilingOrder(d, c[0].End(), b);
      assert forall i :: 1 <= i < |c| ==> c[i] == d[i - 1];
      assert d != [] ==> d[0].off == c[0].End();
    }
  }

  /** A block reaches exactly to the next one, or to the end of the region. */
  lemma Room(c: Chain, a: nat, b: nat, k: nat)
    requires Tiling(c, a, b) && k < |c|
    ensures c[k].End() == if k + 1 < |c| then c[k + 1].off else b
  {
    assert c == c[..k + 1] + c[k + 1..];
    TilingConcat(c[..k + 1], c[k + 1..], a, b);
  }

  lemma TilingHead(m: Block, y: Chain, a: nat, b: nat)
    ensures Tiling([m] + y, a, b) <==> m.off == a && Tiling(y, m.End(), b)
  {
    assert ([m] + y)[1..] == y;
  }

  /** Extents that stay the same keep the tiling. */
  lemma RelinkTiling(c: Chain, k: nat, v: int, a: nat, b: nat)
    requires Tiling(c, a, b) && k < |c|
    ensures Tiling(c[k := c[k].(link := v)], a, b)
  {
    hide Tiling;
    var x, y, m := c[..k], c[k + 1..], c[k].(link := v);
    assert c == x + ([c[k]] + y);
    assert c[k := m] == x + ([m] + y);
    TilingConcat(x, [c[k]] + y, a, b);
    TilingConcat(x, [m] + y, a, b);
    TilingHead(c[k], y, EndOf(x, a), b);
    TilingHead(m, y, EndOf(x, a), b);
  }

  lemma CombineTiling(c: Chain, k: nat, a: nat, b: nat)
    requires Tiling(c, a, b) && k + 1 < |c|
    ensures Tiling(CombineAt(c, k), a, b)
  {
    hide Tiling;
    var x, l, r, y := c[..k], c[k], c[k + 1], c[k + 2..];
    var m := l.(size := l.size + HDR + r.size);
    assert c == x + ([l] + ([r] + y));
    assert CombineAt(c, k) == x + ([m] + y);
    TilingConcat(x, [l] + ([r] + y), a, b);
    TilingConcat(x, [m] + y, a, b);
    TilingHead(l, [r] + y, EndOf(x, a), b);
    TilingHead(r, y, l.End(), b);
    TilingHead(m, y, EndOf(x, a), b);
  }

  lemma SplitTiling(c: Chain, k: nat, n: nat, a: nat, b: nat)
    requires Tiling(c, a, b) && k < |c| && c[k].size >= n + HDR
    ensures Tiling(SplitAt(c, k, n), a, b)
  {
    hide Tiling;
    var x, y := c[..k], c[k + 1..];
    var l, r := c[k].(size := n), Block(c[k].off + HDR + n, c[k].size - n - HDR, -1);
    assert c == x + ([c[k]] + y);
    assert SplitAt(c, k, n) == x + ([l] + ([r] + y));
    TilingConcat(x, [l] + ([r] + y), a, b);
    TilingConcat(x, [c[k]] + y, a, b);
    TilingHead(l, [r] + y, EndOf(x, a), b);
    TilingHead(r, y, l.End(), b);
    TilingHead(c[k], y, EndOf(x, a), b);
  }

  lemma ShiftShape(c: Chain, k: nat, n: nat)
    requires k + 1 < |c| && c[k].size <= n <= c[k].size + c[k + 1].size
    ensures ShiftAt(c, k, n) == c[..k] + [ShiftAt(c, k, n)[k], ShiftAt(c, k, n)[k + 1]] + c[k + 2..]
  {
    Cut2(ShiftAt(c, k, n), k);
    assert ShiftAt(c, k, n)[..k] == c[..k];
    assert ShiftAt(c, k, n)[k + 2..] == c[k + 2..];
  }

  lemma TilingPair(x: Chain, l: Block, r: Block, y: Chain, a: nat, b: nat)
    ensures Tiling(x + [l, r] + y, a, b) <==>
            Tiling(x, a, EndOf(x, a)) && l.off == EndOf(x, a) && r.off == l.End() && Tiling(y, r.End(), b)
  {
    hide Tiling;
    assert x + [l, r] + y == x + ([l] + ([r] + y));
    TilingConcat(x, [l] + ([r] + y), a, b);
    TilingHead(l, [r] + y, EndOf(x, a), b);
    TilingHead(r, y, l.End(), b);
  }

  lemma ShiftTiling(c: Chain, k: nat, n: nat, a: nat, b: nat)
    requires Tiling(c, a, b) && k + 1 < |c| && c[k].size <= n <= c[k].size + c[k + 1].size
    ensures Tiling(ShiftAt(c, k, n), a, b)
  {
    var s := ShiftAt(c, k, n);
    assert s[k].off == c[k].off && s[k + 1].End() == c[k + 1].End();
    assert c[k].End() == c[k + 1].off ==> s[k].End() == s[k + 1].off;
    hide ShiftAt, Tiling;
    ShiftShape(c, k, n);
    Cut2(c, k);
    TilingPair(c[..k], s[k], s[k + 1], c[k + 2..], a, b);
    TilingPair(c[..k], c[k], c[k + 1], c[k + 2..], a, b);
  }

  lemma SegmentCons(m: Block, y: Chain, a: nat, b: nat, p: bool)
    requires m.off == a && (m.Free() || m.link >= 1) && !(p && m.Free()) && Segment(y, m.End(), b, m.Free())
    ensures Segment([m] + y, a, b, p)
  {
    assert ([m] + y)[1..] == y;
  }

  lemma AllocKeeps(c: Chain, end: nat, k: nat, n: nat)
    requires WellFormed(c, end) && k < |c| && c[k].Free() && c[k].size >= n
    ensures WellFormed(AllocAt(c, k, n), end)
  {
    hide Segment;
    SegmentAt(c, k, end);
    var x, y := c[..k], c[k + 1..];
    if Splits(c[k], n) {
      var g := Given(n);
      var m, r := Block(c[k].off, g, 1), Block(c[k].off + HDR + g, c[k].size - g - HDR, -1);
      SegmentCons(r, y, m.End(), end, false);
      Glue(x, m, [r] + y, end);
      assert AllocAt(c, k, n) == x + [m] + ([r] + y);
    } else {
      Weaken(y, c[k].End(), end);
      Glue(x, c[k].(link := 1), y, end);
      assert AllocAt(c, k, n) == x + [c[k].(link := 1)] + y;
    }
  }

  lemma Weaken(y: Chain, a: nat, b: nat)
    requires Segment(y, a, b, true)
    ensures Segment(y, a, b, false)
  {
  }

  lemma Cut(c: Chain, k: nat)
    requires k < |c|
    ensures c == c[..k] + [c[k]] + c[k + 1..]
  {
  }

  lemma Cut2(c: Chain, k: nat)
    requires k + 1 < |c|
    ensures c == c[..k] + [c[k], c[k + 1]] + c[k + 2..]
  {
  }

  lemma CombineShape(x: Chain, l: Block, r: Block, y: Chain)
    ensures CombineAt(x + [l, r] + y, |x|) == x + [l.(size := l.size + HDR + r.size)] + y
  {
  }

  /** Freeing block k before it is merged leftwards. */
  lemma MergeRight(c: Chain, k: nat, end: nat) returns (m: Block, y: Chain)
    requires WellFormed(c, end) && k < |c| && c[k].link == 1
    ensures m.off == c[k].off && m.Free() && Segment(y, m.End(), end, true)
    ensures
      var f := c[k := c[k].(link := -1)];
      (if k + 1 < |f| && f[k + 1].Free() then CombineAt(f, k) else f) == c[..k] + [m] + y
  {
    SegmentAt(c, k, end);
    m, y := c[k].(link := -1), c[k + 1..];
    var f := c[k := m];
    assert f == c[..k] + [m] + y;
    if y != [] && y[0].Free() {
      assert f == c[..k] + [m, y[0]] + y[1..];
      CombineShape(c[..k], m, y[0], y[1..]);
      m, y := m.(size := m.size + HDR + y[0].size), y[1..];
    }
  }

  lemma ReleaseKeeps(c: Chain, end: nat, k: nat)
    requires WellFormed(c, end) && k < |c| && c[k].link >= 1
    ensures WellFormed(ReleaseAt(c, k), end)
  {
    hide Segment, CombineAt;
    SegmentAt(c, k, end);
    var x := c[..k];
    if c[k].link > 1 {
      Glue(x, c[k].(link := c[k].link - 1), c[k + 1..], end);
      assert ReleaseAt(c, k) == x + [c[k].(link := c[k].link - 1)] + c[k + 1..];
    } else {
      var m, y := MergeRight(c, k, end);
      var g := x + [m] + y;
      if k > 0 && g[k - 1].Free() {
        var l := c[k - 1];
        SegmentAt(c, k - 1, end);
        assert x == c[..k - 1] + [l];
        assert g == c[..k - 1] + [l, m] + y;
        CombineShape(c[..k - 1], l, m, y);
        Glue(c[..k - 1], l.(size := l.size + HDR + m.size), y, end);
      } else {
        Glue(x, m, y, end);
      }
    }
  }

  lemma GrowKeeps(c: Chain, end: nat, k: nat, n: nat)
    requires WellFormed(c, end) && k < |c| && !c[k].Free() && !MustMove(c, k, n)
    ensures WellFormed(GrowAt(c, k, n), end)
  {
    hide Segment;
    SegmentAt(c, k, end);
    SegmentAt(c, k + 1, end);
    var x, y := c[..k], c[k + 2..];
    if n + ALIGN > c[k].size + c[k + 1].size {
      var m := c[k].(size := c[k].size + HDR + c[k + 1].size);
      Weaken(y, c[k + 1].End(), end);
      Glue(x, m, y, end);
    } else if n > c[k].size {
      var d := n - c[k].size;
      var m, r := c[k].(size := n), Block(c[k + 1].off + d, c[k + 1].size - d, -1);
      SegmentCons(r, y, m.End(), end, false);
      Glue(x, m, [r] + y, end);
      assert GrowAt(c, k, n) == x + [m] + ([r] + y);
    }
  }

  // ---------------------------------------------------------------- sizes of 2 GiB and more

  /** A split that was asked for n bytes is given Wrap32(n): the first part has n bytes exactly when
      they are less than 2^31, and is too short, if it is a block at all, otherwise. */
  lemma SplitTruncates(c: Chain, k: nat, n: nat)
    requires k < |c| && c[k].size >= n + HDR
    ensures n < INT_LIMIT <==> Wrap32(n) >= 0 && SplitAt(c, k, Wrap32(n)) == SplitAt(c, k, n)
    ensures n >= INT_LIMIT && Wrap32(n) >= 0 ==> SplitAt(c, k, Wrap32(n))[k].size < n
  {
    FitsInt(n);
    if Wrap32(n) >= 0 {
      assert SplitAt(c, k, Wrap32(n))[k].size == Wrap32(n) && SplitAt(c, k, n)[k].size == n;
    }
  }

  lemma FitsEverywhere(c: Chain)
    requires forall i :: 0 <= i < |c| ==> c[i].size < INT_LIMIT && c[i].off < INT_LIMIT
    ensures forall n :: SplitFits(c, n)
    ensures forall n, size :: CopyFits(c, n, size)
    ensures forall i, n :: 0 <= i < |c| ==> LastMoves(c[i], n)
  {
  }

  /** Pointers denote headers of the chain, and link counts have room. */
  predicate Pointed(c: Chain, op: Op) {
    match op
    case Malloc(_) => true
    case LinkTo(off) => IndexOf(c, off) < |c| && c[IndexOf(c, off)].link < INT_LIMIT - 1
    case Free(off) => IndexOf(c, off) < |c|
    case Realloc(off, _) => IndexOf(c, off) < |c|
  }

  /** In a region of up to 2 GiB that is all that is asked of a call. */
  lemma SmallRegionsAccept(c: Chain, end: nat, op: Op)
    requires WellFormed(c, end) && end <= INT_LIMIT
    ensures Callable(c, op) <==> Pointed(c, op)
  {
    SegmentTiling(c, BASE, end, false);
    TilingOrder(c, BASE, end);
    hide Segment, Tiling, RoundUp, KeepsSize;
    assert forall i :: 0 <= i < |c| ==> c[i].size < INT_LIMIT && c[i].off < INT_LIMIT;
    FitsEverywhere(c);
  }
}
