/** How the headers of the region present the chain of blocks. */
module SmView {
  import opened SmChain
  import opened SmRuns
  import opened SmLists
  import opened SmHeaders

  ghost predicate HasOffset(c: Chain, o: nat) {
    exists i :: 0 <= i < |c| && c[i].off == o
  }

  ghost predicate Presents(h: Headers, b: Block) {
    b.off in h && CoreOf(h[b.off]) == Core(b.size, b.link)
  }

  /** The headers are exactly those of the blocks of c. */
  ghost predicate Matches(h: Headers, c: Chain) {
    && (forall i :: 0 <= i < |c| ==> Presents(h, c[i]))
    && (forall o :: o in h ==> HasOffset(c, o))
  }

  ghost predicate FreeByCount(h: Headers, f: set<nat>) {
    forall o :: o in h ==> (o in f <==> h[o].linkCnt == -1)
  }

  lemma Ascending(c: Chain, end: nat)
    requires Tiling(c, BASE, end)
    ensures forall i, j :: 0 <= i < j < |c| ==> c[i].off < c[j].off
  {
    TilingOrder(c, BASE, end);
  }

  lemma IndexOfMatch(h: Headers, c: Chain, o: nat) returns (k: nat)
    requires Matches(h, c) && o in h
    ensures k == IndexOf(c, o) && k < |c| && c[k].off == o
  {
    k := IndexOf(c, o);
    assert HasOffset(c, o);
  }

  /** The successor of a block on the list of all blocks is the next block of the chain. */
  lemma NextBlock(h: Headers, head: nat, tail: nat, c: Chain, end: nat, k: nat)
    requires AllList(h, head, tail) && Matches(h, c) && Tiling(c, BASE, end) && k < |c|
    ensures c[k].off in h
    ensures h[c[k].off].blkNext == (if k + 1 < |c| then c[k + 1].off else 0)
    ensures h[c[k].off].blkPrev == (if k > 0 then c[k - 1].off else 0)
  {
    hide HasOffset, Tiling, IsNext, IsPrev, IsLast;
    TilingOrder(c, BASE, end);
    assert Presents(h, c[k]);
    assert BlkLinks(h, h.Keys, c[k].off);
    NextByOrder(h, c, k, h[c[k].off].blkNext, h[c[k].off].blkPrev);
  }

  lemma NextByOrder(h: Headers, c: Chain, k: nat, n: nat, p: nat)
    requires k < |c| && (forall i, j :: 0 <= i < j < |c| ==> c[i].off < c[j].off) && forall i :: 0 <= i < |c| ==> c[i].off > 0
    requires Matches(h, c) && IsNext(h.Keys, c[k].off, n) && IsPrev(h.Keys, c[k].off, p)
    ensures n == (if k + 1 < |c| then c[k + 1].off else 0)
    ensures p == (if k > 0 then c[k - 1].off else 0)
  {
    hide HasOffset;
    if n != 0 {
      var i := IndexOfMatch(h, c, n);
      assert i > k;
    }
    if k + 1 < |c| { assert Presents(h, c[k + 1]); }
    if p != 0 {
      var i := IndexOfMatch(h, c, p);
      assert i < k;
    }
    if k > 0 { assert Presents(h, c[k - 1]); }
  }

  lemma MatchesRelink(h: Headers, c: Chain, end: nat, k: nat, v: int)
    requires Matches(h, c) && Tiling(c, BASE, end) && k < |c|
    ensures c[k].off in h && Matches(h[c[k].off := h[c[k].off].(linkCnt := v)], c[k := c[k].(link := v)])
  {
    hide Tiling, HasOffset;
    Ascending(c, end);
    assert Presents(h, c[k]);
    var g, d := h[c[k].off := h[c[k].off].(linkCnt := v)], c[k := c[k].(link := v)];
    forall i | 0 <= i < |d| ensures Presents(g, d[i]) {
      assert Presents(h, c[i]);
    }
    forall o | o in g ensures HasOffset(d, o) {
      var i := IndexOfMatch(h, c, o);
      Offset(d, i, o);
    }
  }

  lemma Offset(c: Chain, i: nat, o: nat)
    requires i < |c| && c[i].off == o
    ensures HasOffset(c, o)
  {
  }

  /** Same headers as far as sizes and counts are concerned. */
  lemma MatchesFrame(h: Headers, c: Chain, g: Headers)
    requires Matches(h, c) && g.Keys == h.Keys && forall o :: o in h ==> CoreOf(g[o]) == CoreOf(h[o])
    ensures Matches(g, c)
  {
    hide HasOffset;
    forall i | 0 <= i < |c| ensures Presents(g, c[i]) {
      assert Presents(h, c[i]);
    }
  }

  lemma MatchesSplit(h: Headers, c: Chain, end: nat, k: nat, n: nat, g: Headers)
    requires Matches(h, c) && Tiling(c, BASE, end) && k < |c| && c[k].size >= n + HDR
    requires c[k].off + HDR + n !in h && g.Keys == h.Keys + {c[k].off + HDR + n}
    requires CoreOf(g[c[k].off + HDR + n]) == Core(c[k].size - n - HDR, -1)
    requires c[k].off in g && CoreOf(g[c[k].off]) == Core(n, c[k].link)
    requires forall o :: o in h && o != c[k].off ==> CoreOf(g[o]) == CoreOf(h[o])
    ensures Matches(g, SplitAt(c, k, n))
  {
    hide Tiling, HasOffset;
    Ascending(c, end);
    var d := SplitAt(c, k, n);
    forall i | 0 <= i < |d| ensures Presents(g, d[i]) {
      if i < k { assert d[i] == c[i] && Presents(h, c[i]); }
      else if i > k + 1 { assert d[i] == c[i - 1] && Presents(h, c[i - 1]); }
    }
    forall o | o in g ensures HasOffset(d, o) {
      if o == c[k].off + HDR + n {
        Offset(d, k + 1, o);
      } else {
        var i := IndexOfMatch(h, c, o);
        Offset(d, if i <= k then i else i + 1, o);
      }
    }
  }

  lemma MatchesCombine(h: Headers, c: Chain, end: nat, k: nat, g: Headers)
    requires Matches(h, c) && Tiling(c, BASE, end) && k + 1 < |c|
    requires g.Keys == h.Keys - {c[k + 1].off} && c[k].off in g
    requires CoreOf(g[c[k].off]) == Core(c[k].size + HDR + c[k + 1].size, c[k].link)
    requires forall o :: o in g && o != c[k].off ==> CoreOf(g[o]) == CoreOf(h[o])
    ensures Matches(g, CombineAt(c, k))
  {
    hide Tiling, HasOffset;
    Ascending(c, end);
    var d := CombineAt(c, k);
    forall i | 0 <= i < |d| ensures Presents(g, d[i]) {
      if i < k { assert d[i] == c[i] && Presents(h, c[i]); }
      else if i > k { assert d[i] == c[i + 1] && Presents(h, c[i + 1]); }
    }
    forall o | o in g ensures HasOffset(d, o) {
      var i := IndexOfMatch(h, c, o);
      Offset(d, if i <= k then i else i - 1, o);
    }
  }

  lemma MatchesShift(h: Headers, c: Chain, end: nat, k: nat, n: nat, g: Headers)
    requires Matches(h, c) && Tiling(c, BASE, end) && k + 1 < |c| && c[k].size < n <= c[k].size + c[k + 1].size
    requires c[k].off in h && c[k + 1].off in h && ShiftedCores(h, c[k].off, c[k + 1].off, n - c[k].size, g)
    ensures Matches(g, ShiftAt(c, k, n))
  {
    hide Tiling, HasOffset;
    TilingOrder(c, BASE, end);
    assert Presents(h, c[k]) && Presents(h, c[k + 1]);
    var d := ShiftAt(c, k, n);
    forall i | 0 <= i < |d| ensures Presents(g, d[i]) {
      if i != k && i != k + 1 { assert d[i] == c[i] && Presents(h, c[i]); }
    }
    forall o | o in g ensures HasOffset(d, o) {
      if o == d[k + 1].off {
        Offset(d, k + 1, o);
      } else {
        var i := IndexOfMatch(h, c, o);
        Offset(d, i, o);
      }
    }
  }

  // ---------------------------------------------------------------- payloads

  /** Address a lies in none of the headers. */
  ghost predicate OutsideHeaders(keys: set<nat>, a: int) {
    forall o :: o in keys ==> a < o || a >= o + HDR
  }

  predicate InPayload(b: Block, a: int) { b.off + HDR <= a < b.End() }

  /** Payloads contain no header. */
  lemma PayloadOutside(h: Headers, c: Chain, end: nat, k: nat, a: int)
    requires Matches(h, c) && Tiling(c, BASE, end) && k < |c| && InPayload(c[k], a)
    ensures OutsideHeaders(h.Keys, a)
  {
    hide Tiling, HasOffset;
    TilingOrder(c, BASE, end);
    forall o | o in h.Keys ensures a < o || a >= o + HDR {
      var i := IndexOfMatch(h, c, o);
    }
  }

  /** Payloads of different blocks are disjoint and inside the region. */
  lemma PayloadsDisjoint(c: Chain, end: nat, i: nat, j: nat, a: int)
    requires WellFormed(c, end) && i < |c| && j < |c| && InPayload(c[i], a) && InPayload(c[j], a)
    ensures i == j && BASE + HDR <= a < end
  {
    SegmentTiling(c, BASE, end, false);
    TilingOrder(c, BASE, end);
  }

  ghost predicate SameOutside(keys: set<nat>, m0: seq<bv8>, m1: seq<bv8>) {
    |m0| == |m1| && forall a :: 0 <= a < |m0| && OutsideHeaders(keys, a) ==> m0[a] == m1[a]
  }

  /** The payload of b holds the same bytes before and after. */
  ghost predicate Kept(b: Block, m0: seq<bv8>, m1: seq<bv8>) {
    |m0| == |m1| && forall a :: InPayload(b, a) ==> 0 <= a < |m0| && m0[a] == m1[a]
  }

  /** The chain has a block with b's header that is at least as large. */
  ghost predicate Covers(d: Chain, b: Block) {
    exists j :: 0 <= j < |d| && d[j].off == b.off && d[j].size >= b.size
  }

  /** Header stores do not reach a block whose extent is covered before and after. */
  lemma KeptWhenCovered(h: Headers, c: Chain, g: Headers, d: Chain, end: nat, i: nat, m0: seq<bv8>, m1: seq<bv8>)
    requires Matches(h, c) && Tiling(c, BASE, end) && Matches(g, d) && Tiling(d, BASE, end)
    requires |m0| == end && SameOutside(h.Keys + g.Keys, m0, m1)
    requires i < |c| && Covers(d, c[i])
    ensures Kept(c[i], m0, m1)
  {
    hide Matches, Tiling;
    var j :| 0 <= j < |d| && d[j].off == c[i].off && d[j].size >= c[i].size;
    TilingOrder(c, BASE, end);
    forall a | InPayload(c[i], a) ensures 0 <= a < |m0| && m0[a] == m1[a] {
      PayloadOutside(h, c, end, i, a);
      PayloadOutside(g, d, end, j, a);
    }
  }

  lemma SurvivorCovered(b: Block, d: Chain)
    requires Survives(b, d)
    ensures Covers(d, b)
  {
  }

  lemma CoversAt(d: Chain, b: Block, j: nat)
    requires j < |d| && d[j].off == b.off && d[j].size >= b.size
    ensures Covers(d, b)
  {
  }

  lemma KeptUntouched(c: Chain, end: nat, m: seq<bv8>)
    requires Tiling(c, BASE, end) && |m| == end
    ensures forall i :: 0 <= i < |c| ==> Kept(c[i], m, m)
  {
    TilingOrder(c, BASE, end);
  }

  lemma KeptInAlloc(h: Headers, c: Chain, g: Headers, d: Chain, end: nat, k: nat, n: nat, m0: seq<bv8>, m1: seq<bv8>)
    requires Matches(h, c) && Tiling(c, BASE, end) && Matches(g, d) && Tiling(d, BASE, end)
    requires |m0| == end && SameOutside(h.Keys + g.Keys, m0, m1)
    requires k < |c| && c[k].Free() && c[k].size >= n && d == AllocAt(c, k, n)
    ensures forall i :: 0 <= i < |c| && c[i].link >= 1 ==> Kept(c[i], m0, m1)
  {
    hide Matches, Tiling, AllocAt, SameOutside, Survives, Covers, Kept;
    forall i | 0 <= i < |c| && c[i].link >= 1 ensures Kept(c[i], m0, m1) {
      AllocOthers(c, k, n, i);
      SurvivorCovered(c[i], d);
      KeptWhenCovered(h, c, g, d, end, i, m0, m1);
    }
  }

  lemma KeptInRelink(h: Headers, c: Chain, g: Headers, end: nat, k: nat, v: int, m0: seq<bv8>, m1: seq<bv8>)
    requires Matches(h, c) && Tiling(c, BASE, end) && k < |c| && Matches(g, c[k := c[k].(link := v)])
    requires |m0| == end && SameOutside(h.Keys + g.Keys, m0, m1)
    ensures forall i :: 0 <= i < |c| ==> Kept(c[i], m0, m1)
  {
    hide Matches, Tiling, SameOutside, Covers, Kept;
    var d := c[k := c[k].(link := v)];
    RelinkTiling(c, k, v, BASE, end);
    forall i | 0 <= i < |c| ensures Kept(c[i], m0, m1) {
      CoversAt(d, c[i], i);
      KeptWhenCovered(h, c, g, d, end, i, m0, m1);
    }
  }

  lemma KeptInRelease(h: Headers, c: Chain, g: Headers, d: Chain, end: nat, k: nat, m0: seq<bv8>, m1: seq<bv8>)
    requires Matches(h, c) && Tiling(c, BASE, end) && Matches(g, d) && Tiling(d, BASE, end)
    requires |m0| == end && SameOutside(h.Keys + g.Keys, m0, m1)
    requires k < |c| && c[k].link >= 1 && d == ReleaseAt(c, k)
    ensures forall i :: 0 <= i < |c| && i != k && c[i].link >= 1 ==> Kept(c[i], m0, m1)
  {
    hide Matches, Tiling, ReleaseAt, SameOutside, Survives, Covers, Kept;
    forall i | 0 <= i < |c| && i != k && c[i].link >= 1 ensures Kept(c[i], m0, m1) {
      ReleaseOthers(c, k, i);
      SurvivorCovered(c[i], d);
      KeptWhenCovered(h, c, g, d, end, i, m0, m1);
    }
  }

  lemma KeptInGrow(h: Headers, c: Chain, g: Headers, d: Chain, end: nat, k: nat, n: nat, m0: seq<bv8>, m1: seq<bv8>)
    requires Matches(h, c) && Tiling(c, BASE, end) && Matches(g, d) && Tiling(d, BASE, end)
    requires |m0| == end && SameOutside(h.Keys + g.Keys, m0, m1)
    requires k < |c| && !MustMove(c, k, n) && d == GrowAt(c, k, n)
    ensures forall i :: 0 <= i < |c| && c[i].link >= 1 ==> Kept(c[i], m0, m1)
  {
    hide Matches, Tiling, GrowAt, SameOutside, Survives, Covers, Kept;
    forall i | 0 <= i < |c| && c[i].link >= 1 ensures Kept(c[i], m0, m1) {
      if i == k {
        CoversAt(d, c[i], k);
      } else {
        GrowOthers(c, k, n, i);
        SurvivorCovered(c[i], d);
      }
      KeptWhenCovered(h, c, g, d, end, i, m0, m1);
    }
  }

  /** m1 holds at q the bytes that m0 holds at p. */
  ghost predicate Copied(m0: seq<bv8>, p: nat, m1: seq<bv8>, q: nat, n: nat) {
    p + n <= |m0| && q + n <= |m1| && forall a :: p <= a < p + n ==> m0[a] == m1[a - p + q]
  }

  lemma KeptTwice(b: Block, m0: seq<bv8>, m1: seq<bv8>, m2: seq<bv8>)
    requires Kept(b, m0, m1) && Kept(b, m1, m2)
    ensures Kept(b, m0, m2)
  {
  }

  /** Writing into the payload of one block leaves the other payloads alone. */
  lemma KeptByCopy(c: Chain, end: nat, j: nat, i: nat, n: nat, m1: seq<bv8>, m2: seq<bv8>)
    requires Tiling(c, BASE, end) && i < |c| && j < |c| && i != j && n <= c[j].size
    requires |m1| == |m2| == end
    requires forall a :: 0 <= a < end && !(c[j].off + HDR <= a < c[j].off + HDR + n) ==> m1[a] == m2[a]
    ensures Kept(c[i], m1, m2)
  {
    TilingOrder(c, BASE, end);
  }

  lemma Apart(c: Chain, end: nat, i: nat, j: nat)
    requires Tiling(c, BASE, end) && i < |c| && j < |c| && i != j
    ensures c[i].End() <= c[j].off || c[j].End() <= c[i].off
    ensures c[i].End() <= end && c[j].End() <= end
  {
    TilingOrder(c, BASE, end);
  }

  /** smRealloc's detour through a second block: what all three steps together keep and copy. */
  lemma KeptInMove(c: Chain, m: Chain, end: nat, k: nat, i: nat, j: nat, n: nat, len: nat,
                   m0: seq<bv8>, m1: seq<bv8>, m2: seq<bv8>, m3: seq<bv8>)
    requires k < |c| && i < |m| && j < |m| && i != j && j < |c| && c[j].Free() && c[j].size >= n && !c[k].Free()
    requires m == AllocAt(c, j, n) && Tiling(m, BASE, end) && Tiling(c, BASE, end) && m[i] == c[k]
    requires |m0| == |m1| == |m2| == |m3| == end && len <= c[k].size && len <= m[j].size && m[j].link >= 1
    requires forall x :: 0 <= x < |c| && c[x].link >= 1 ==> Kept(c[x], m0, m1)
    requires c[k].link >= 1
    requires Copied(m1, m[i].off + HDR, m2, m[j].off + HDR, len)
    requires forall a :: 0 <= a < end && !(m[j].off + HDR <= a < m[j].off + HDR + len) ==> m2[a] == m1[a]
    requires forall x :: 0 <= x < |m| && m[x].link >= 1 && m[x].off != m[i].off ==> Kept(m[x], m2, m3)
    ensures forall x :: 0 <= x < |c| && x != k && c[x].link >= 1 ==> Kept(c[x], m0, m3)
    ensures Copied(m0, m[i].off + HDR, m3, m[j].off + HDR, len)
  {
    hide AllocAt, Tiling;
    Ascending(c, end);
    Apart(m, end, i, j);
    forall x | 0 <= x < |c| && x != k && c[x].link >= 1 ensures Kept(c[x], m0, m3) {
      hide Kept;
      AllocOthers(c, j, n, x);
      var y :| 0 <= y < |m| && m[y] == c[x];
      KeptByCopy(m, end, j, y, len, m1, m2);
      KeptTwice(c[x], m0, m1, m2);
      KeptTwice(c[x], m0, m2, m3);
    }
    assert Kept(c[k], m0, m1) && Kept(m[j], m2, m3);
  }

  lemma KeptIsCopied(b: Block, m0: seq<bv8>, m1: seq<bv8>, n: nat)
    requires Kept(b, m0, m1) && b.End() <= |m0| && n <= b.size
    ensures Copied(m0, b.off + HDR, m1, b.off + HDR, n)
  {
  }

  // ---------------------------------------------------------------- tests made on the lists

  /** The neighbour on the free list is the neighbour in memory exactly when that one is free. */
  lemma MergeTests(h: Headers, f: set<nat>, fh: nat, ft: nat, bh: nat, bt: nat, c: Chain, end: nat, k: nat)
    requires AllList(h, bh, bt) && FreeList(h, f, fh, ft) && FreeByCount(h, f)
    requires Matches(h, c) && Tiling(c, BASE, end) && k < |c| && c[k].Free()
    ensures c[k].off in h
    ensures var x := h[c[k].off]; (x.freeNext != 0 && x.freeNext == x.blkNext) <==> (k + 1 < |c| && c[k + 1].Free())
    ensures var x := h[c[k].off]; (x.freePrev != 0 && x.freePrev == x.blkPrev) <==> (k > 0 && c[k - 1].Free())
    ensures var x := h[c[k].off]; x.freePrev != 0 && x.freePrev == x.blkPrev ==> x.freePrev == c[k - 1].off
  {
    hide IsNext, IsPrev, IsLast, Ends, FreeLinks, BlkLinks, FreeList, AllList, Tiling, HasOffset;
    NextBlock(h, bh, bt, c, end, k);
    assert Presents(h, c[k]);
    if k + 1 < |c| { assert Presents(h, c[k + 1]); }
    if k > 0 { assert Presents(h, c[k - 1]); }
    Adjacent(h, f, fh, ft, bh, bt, c[k].off);
  }

  lemma Adjacent(h: Headers, f: set<nat>, fh: nat, ft: nat, bh: nat, bt: nat, b: nat)
    requires AllList(h, bh, bt) && FreeList(h, f, fh, ft) && b in f && b in h
    ensures var x := h[b]; (x.freeNext != 0 && x.freeNext == x.blkNext) <==> (x.blkNext != 0 && x.blkNext in f)
    ensures var x := h[b]; (x.freePrev != 0 && x.freePrev == x.blkPrev) <==> (x.blkPrev != 0 && x.blkPrev in f)
    ensures var x := h[b]; (x.blkNext != 0 ==> x.blkNext in h) && (x.blkPrev != 0 ==> x.blkPrev in h)
    ensures 0 !in h
  {
    hide IsNext, IsPrev, IsLast, Ends;
    assert FreeLinks(h, f, b) && BlkLinks(h, h.Keys, b);
    NeighbourNext(h.Keys, f, b, h[b].blkNext, h[b].freeNext);
    NeighbourPrev(h.Keys, f, b, h[b].blkPrev, h[b].freePrev);
  }

  lemma NeighbourNext(s: set<nat>, f: set<nat>, b: nat, bn: nat, fn: nat)
    requires f <= s && IsNext(s, b, bn) && IsNext(f, b, fn)
    ensures (fn != 0 && fn == bn) <==> (bn != 0 && bn in f)
    ensures bn != 0 ==> bn in s
  {
  }

  lemma NeighbourPrev(s: set<nat>, f: set<nat>, b: nat, bp: nat, fp: nat)
    requires f <= s && IsPrev(s, b, bp) && IsPrev(f, b, fp)
    ensures (fp != 0 && fp == bp) <==> (bp != 0 && bp in f)
    ensures bp != 0 ==> bp in s
  {
  }

  /** The first fitting member of the free list is the first fit of the chain. */
  lemma FirstFitByList(h: Headers, f: set<nat>, c: Chain, end: nat, n: nat, b: nat)
    requires Matches(h, c) && Tiling(c, BASE, end) && f <= h.Keys && FreeByCount(h, f)
    requires b != 0 ==> b in f && h[b].size >= n
    requires forall o :: o in f && (b == 0 || o < b) ==> h[o].size < n
    ensures b == 0 <==> FirstFit(c, n) == |c|
    ensures b != 0 ==> b == c[FirstFit(c, n)].off
  {
    hide Tiling, HasOffset;
    Ascending(c, end);
    var k := FirstFit(c, n);
    if k < |c| { assert Presents(h, c[k]); }
    if b != 0 {
      var i := IndexOfMatch(h, c, b);
      assert Presents(h, c[i]);
      assert k <= i;
    }
  }
}
