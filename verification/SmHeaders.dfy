/** What the allocator's internal operations do to the headers as a whole, and that the two
    lists survive each of them. */
module SmHeaders {
  import opened SmChain
  import opened SmLists

  /** What a header says about its block, list links aside. */
  datatype Core = Core(size: nat, link: int)

  function CoreOf(h: Header): Core { Core(h.size, h.linkCnt) }

  function WithFreeNext(h: Headers, t: nat, v: nat): (g: Headers)
    requires t == 0 || t in h
    ensures g.Keys == h.Keys
  {
    if t == 0 then h else h[t := h[t].(freeNext := v)]
  }

  function WithFreePrev(h: Headers, t: nat, v: nat): (g: Headers)
    requires t == 0 || t in h
    ensures g.Keys == h.Keys
  {
    if t == 0 then h else h[t := h[t].(freePrev := v)]
  }

  function WithBlkPrev(h: Headers, t: nat, v: nat): (g: Headers)
    requires t == 0 || t in h
    ensures g.Keys == h.Keys
  {
    if t == 0 then h else h[t := h[t].(blkPrev := v)]
  }

  /** The headers after a free block has left the free list. */
  ghost function UnFreed(h: Headers, b: nat): (g: Headers)
    requires b in h
    requires h[b].freePrev == 0 || h[b].freePrev in h
    requires h[b].freeNext == 0 || h[b].freeNext in h
    ensures g.Keys == h.Keys
  {
    var g := WithFreePrev(WithFreeNext(h, h[b].freePrev, h[b].freeNext), h[b].freeNext, h[b].freePrev);
    g[b := g[b].(freePrev := 0, freeNext := 0)]
  }

  lemma UnFreedAt(h: Headers, b: nat, o: nat)
    requires 0 !in h && b in h && o in h
    requires var p := h[b].freePrev; p == 0 || (p in h && p < b)
    requires var n := h[b].freeNext; n == 0 || (n in h && n > b)
    ensures
      var g := UnFreed(h, b);
      && FreeUnlinked(h, g, b, o)
      && g[o] == h[o].(freeNext := g[o].freeNext, freePrev := g[o].freePrev)
  {
  }

  lemma UnFreedLists(h: Headers, f: set<nat>, fh: nat, ft: nat, bh: nat, bt: nat, b: nat)
    requires AllList(h, bh, bt) && FreeList(h, f, fh, ft) && b in f
    requires b in h && (h[b].freePrev == 0 || h[b].freePrev in h) && (h[b].freeNext == 0 || h[b].freeNext in h)
    ensures AllList(UnFreed(h, b), bh, bt)
    ensures FreeList(UnFreed(h, b), f - {b}, if fh == b then h[b].freeNext else fh, if ft == b then h[b].freePrev else ft)
    ensures forall o :: o in h ==> var g := UnFreed(h, b); g[o] == h[o].(freeNext := g[o].freeNext, freePrev := g[o].freePrev)
  {
    hide IsNext, IsPrev, IsLast, Ends, FreeLinks, BlkLinks, FreeList, AllList;
    FreeNeighbours(h, f, fh, ft, b);
    var g := UnFreed(h, b);
    forall o | o in h
      ensures FreeUnlinked(h, g, b, o)
      ensures g[o] == h[o].(freeNext := g[o].freeNext, freePrev := g[o].freePrev)
    {
      UnFreedAt(h, b, o);
    }
    hide UnFreed, FreeUnlinked;
    FreeListWithout(h, f, fh, ft, b, g);
    AllListFrame(h, bh, bt, g);
  }

  /** The headers after a free block has been split behind `size` bytes. */
  ghost function Split(h: Headers, b: nat, size: nat): (g: Headers)
    requires b in h && h[b].size > size + HDR
    requires h[b].blkNext == 0 || h[b].blkNext in h
    requires h[b].freeNext == 0 || h[b].freeNext in h
    ensures g.Keys == h.Keys + {b + HDR + size}
  {
    var n, x := b + HDR + size, h[b];
    var g := h[n := Header(x.freeNext, b, x.blkNext, b, x.size - size - HDR, -1)]
              [b := x.(size := size, freeNext := n, blkNext := n)];
    WithBlkPrev(WithFreePrev(g, x.freeNext, n), x.blkNext, n)
  }

  lemma SplitPointwise(h: Headers, b: nat, size: nat, o: nat)
    requires 0 !in h && b in h && h[b].size > size + HDR && b + HDR + size !in h
    requires o in h || o == b + HDR + size
    requires var n := h[b].blkNext; n == 0 || (n in h && n > b)
    requires var n := h[b].freeNext; n == 0 || (n in h && n > b)
    ensures
      var g, n := Split(h, b, size), b + HDR + size;
      && FreeLinked(h, g, n, b, h[b].freeNext, o)
      && BlkLinked(h, g, n, b, h[b].blkNext, o)
  {
  }

  lemma SplitCores(h: Headers, b: nat, size: nat)
    requires b in h && h[b].size > size + HDR && 0 !in h && b + HDR + size !in h
    requires (h[b].blkNext == 0 || h[b].blkNext in h) && (h[b].freeNext == 0 || h[b].freeNext in h)
    ensures
      var g, n := Split(h, b, size), b + HDR + size;
      && CoreOf(g[n]) == Core(h[b].size - size - HDR, -1) && CoreOf(g[b]) == Core(size, h[b].linkCnt)
      && forall o :: o in h && o != b ==> CoreOf(g[o]) == CoreOf(h[o])
  {
  }

  lemma SplitLists(h: Headers, b: nat, size: nat, n: nat, g: Headers, f: set<nat>, fh: nat, ft: nat, bh: nat, bt: nat)
    requires b in h && h[b].size > size + HDR
    requires (h[b].blkNext == 0 || h[b].blkNext in h) && (h[b].freeNext == 0 || h[b].freeNext in h)
    requires h[b].blkNext != 0 ==> b + HDR + size < h[b].blkNext
    requires n == b + HDR + size && g == Split(h, b, size)
    requires AllList(h, bh, bt) && FreeList(h, f, fh, ft) && b in f
    ensures n !in h
    ensures AllList(g, bh, if bt == b then n else bt)
    ensures FreeList(g, f + {n}, fh, if ft == b then n else ft)
  {
    hide IsNext, IsPrev, IsLast, Ends, FreeLinks, BlkLinks, FreeList, AllList;
    FreeNeighbours(h, f, fh, ft, b);
    BlkNeighbours(h, bh, bt, b);
    SplitPoint(h, f, fh, ft, bh, bt, b, n);
    forall o | o in g
      ensures FreeLinked(h, g, n, b, h[b].freeNext, o)
      ensures BlkLinked(h, g, n, b, h[b].blkNext, o)
    {
      SplitPointwise(h, b, size, o);
    }
    hide Split, FreeLinked, BlkLinked;
    AllListWith(h, bh, bt, n, b, h[b].blkNext, g);
    FreeListWith(h, f, fh, ft, n, b, h[b].freeNext, g);
  }

  /** The headers after block b has been put between p and n on the free list. */
  ghost function Inserted(h: Headers, b: nat, p: nat, n: nat): (g: Headers)
    requires b in h && (p == 0 || p in h) && (n == 0 || n in h)
    ensures g.Keys == h.Keys
  {
    var g := WithFreeNext(WithFreePrev(h, n, b), p, b);
    g[b := g[b].(freeNext := n, freePrev := p)]
  }

  lemma InsertedAt(h: Headers, b: nat, p: nat, n: nat, o: nat)
    requires 0 !in h && b in h && o in h && (p == 0 || p in h) && (n == 0 || n in h) && p < b && (n == 0 || n > b)
    ensures FreeLinked(h, Inserted(h, b, p, n), b, p, n, o)
    ensures
      var g := Inserted(h, b, p, n);
      g[o] == h[o].(freeNext := g[o].freeNext, freePrev := g[o].freePrev)
  {
  }

  lemma InsertedFrame(h: Headers, b: nat, p: nat, n: nat)
    requires b in h && (p == 0 || p in h) && (n == 0 || n in h)
    ensures
      var g := Inserted(h, b, p, n);
      forall o :: o in h ==> g[o] == h[o].(freeNext := g[o].freeNext, freePrev := g[o].freePrev)
  {
  }

  lemma InsertedLists(h: Headers, b: nat, p: nat, n: nat, g: Headers, f: set<nat>, fh: nat, ft: nat, bh: nat, bt: nat)
    requires b in h && (p == 0 || p in h) && (n == 0 || n in h)
    requires g == Inserted(h, b, p, n)
    requires AllList(h, bh, bt) && FreeList(h, f, fh, ft) && b !in f && IsNext(f, b, n) && IsPrev(f, b, p)
    ensures AllList(g, bh, bt)
    ensures FreeList(g, f + {b}, if fh == n then b else fh, if ft == p then b else ft)
  {
    hide IsNext, IsPrev, IsLast, Ends, FreeLinks, BlkLinks;
    EndsWith(f, fh, ft, b, p, n);
    assert h.Keys + {b} == h.Keys;
    BlkNeighbours(h, bh, bt, b);
    forall o | o in g
      ensures FreeLinked(h, g, b, p, n, o)
      ensures g[o] == h[o].(freeNext := g[o].freeNext, freePrev := g[o].freePrev)
    {
      InsertedAt(h, b, p, n, o);
    }
    hide Inserted, FreeLinked;
    FreeListWith(h, f, fh, ft, b, p, n, g);
    AllListFrame(h, bh, bt, g);
  }

  /** The headers after the free block n has been taken out of the chain, into b in front of it. */
  ghost function Swallowed(h: Headers, b: nat, n: nat): (g: Headers)
    requires b in h && n in h && b != n && (h[n].blkNext == 0 || h[n].blkNext in h)
  {
    var g := WithBlkPrev(h, h[n].blkNext, b);
    g[b := g[b].(blkNext := h[n].blkNext, size := h[b].size + HDR + h[n].size)] - {n}
  }

  lemma SwallowedAt(h: Headers, b: nat, n: nat, o: nat)
    requires 0 !in h && b in h && n in h && b != n && h[n].blkPrev == b
    requires h[n].blkNext == 0 || (h[n].blkNext in h && h[n].blkNext > n)
    requires o in h && o != n && b < n
    ensures
      var g := Swallowed(h, b, n);
      && o in g && BlkUnlinked(h, g, n, o)
      && g[o].freeNext == h[o].freeNext && g[o].freePrev == h[o].freePrev && g[o].linkCnt == h[o].linkCnt
      && g[o].size == if o == b then h[b].size + HDR + h[n].size else h[o].size
  {
  }

  lemma SwallowedLists(h: Headers, b: nat, n: nat, g: Headers, f: set<nat>, fh: nat, ft: nat, bh: nat, bt: nat)
    requires b in h && n in h && b != n && h[b].blkNext == n && (h[n].blkNext == 0 || h[n].blkNext in h)
    requires g == Swallowed(h, b, n)
    requires AllList(h, bh, bt) && FreeList(h, f, fh, ft) && n !in f
    ensures AllList(g, bh, if bt == n then b else bt)
    ensures FreeList(g, f, fh, ft)
  {
    hide IsNext, IsPrev, IsLast, Ends, FreeLinks, BlkLinks, FreeList, AllList;
    BlkInverse(h, bh, bt, n);
    BlkNeighbours(h, bh, bt, b);
    BlkNeighbours(h, bh, bt, n);
    assert g.Keys == h.Keys - {n};
    forall o | o in g
      ensures BlkUnlinked(h, g, n, o)
      ensures g[o].freeNext == h[o].freeNext && g[o].freePrev == h[o].freePrev
    {
      SwallowedAt(h, b, n, o);
    }
    hide Swallowed, BlkUnlinked;
    AllListWithout(h, bh, bt, n, g);
    FreeListDrop(h, f, fh, ft, n, g);
  }

  /** The headers after the boundary between block b and the free block n has moved up by d. */
  ghost function Shifted(h: Headers, b: nat, n: nat, d: nat): (g: Headers)
    requires b in h && n in h && b != n && 0 < d <= h[n].size
    requires (h[n].blkNext == 0 || h[n].blkNext in h)
    requires (h[n].freeNext == 0 || h[n].freeNext in h) && (h[n].freePrev == 0 || h[n].freePrev in h)
    ensures g.Keys == h.Keys - {n} + {n + d}
  {
    var x := h[n];
    var g := WithBlkPrev(WithFreeNext(WithFreePrev(h, x.freeNext, n + d), x.freePrev, n + d), x.blkNext, n + d);
    g[b := g[b].(blkNext := n + d, size := h[b].size + d)][n + d := g[n].(size := h[n].size - d)] - {n}
  }

  lemma ShiftedAt(h: Headers, b: nat, n: nat, d: nat, o: nat)
    requires 0 !in h && b in h && n in h && b < n && 0 < d <= h[n].size && n + d !in h && o in h
    requires h[n].blkNext == 0 || (h[n].blkNext in h && h[n].blkNext > n)
    requires h[n].freeNext == 0 || (h[n].freeNext in h && h[n].freeNext > n)
    requires h[n].freePrev == 0 || (h[n].freePrev in h && h[n].freePrev < n)
    requires h[n].blkPrev == b && h[n].freePrev != b
    requires (h[o].blkNext == n <==> o == h[n].blkPrev) && (h[o].blkPrev == n <==> o == h[n].blkNext)
    requires (h[o].freeNext == n <==> o == h[n].freePrev) && (h[o].freePrev == n <==> o == h[n].freeNext)
    ensures Moved(n, n + d, o) in Shifted(h, b, n, d) && Redirected(h, Shifted(h, b, n, d), n, n + d, o)
  {
  }

  ghost predicate ShiftedCores(h: Headers, b: nat, n: nat, d: nat, g: Headers)
    requires b in h && n in h
  {
    && g.Keys == h.Keys - {n} + {n + d} && n + d !in h && b != n && d <= h[n].size
    && CoreOf(g[n + d]) == Core(h[n].size - d, h[n].linkCnt)
    && b in g && CoreOf(g[b]) == Core(h[b].size + d, h[b].linkCnt)
    && forall o :: o in h && o != b && o != n ==> CoreOf(g[o]) == CoreOf(h[o])
  }

  lemma ShiftedCoresHold(h: Headers, b: nat, n: nat, d: nat, g: Headers)
    requires b in h && n in h && b != n && 0 < d <= h[n].size && n + d !in h
    requires (h[n].blkNext == 0 || h[n].blkNext in h)
    requires (h[n].freeNext == 0 || h[n].freeNext in h) && (h[n].freePrev == 0 || h[n].freePrev in h)
    requires g == Shifted(h, b, n, d)
    ensures ShiftedCores(h, b, n, d, g)
  {
  }

  lemma ShiftedRedirected(h: Headers, b: nat, n: nat, d: nat, m: nat, g: Headers, f: set<nat>, fh: nat, ft: nat, bh: nat, bt: nat)
    requires b in h && n in h && b != n && h[b].blkNext == n && 0 < d <= h[n].size
    requires (h[n].blkNext == 0 || h[n].blkNext in h)
    requires (h[n].freeNext == 0 || h[n].freeNext in h) && (h[n].freePrev == 0 || h[n].freePrev in h)
    requires h[n].blkNext != 0 ==> n + d < h[n].blkNext
    requires m == n + d && m !in h && g == Shifted(h, b, n, d)
    requires AllList(h, bh, bt) && FreeList(h, f, fh, ft) && n in f && b !in f
    ensures bh != n && forall o :: o in h ==> Moved(n, m, o) in g && Redirected(h, g, n, m, o)
  {
    hide IsNext, IsPrev, IsLast, Ends, FreeLinks, BlkLinks, FreeList, AllList;
    BlkNeighbours(h, bh, bt, b);
    BlkNeighbours(h, bh, bt, n);
    FreeNeighbours(h, f, fh, ft, n);
    BlkInverse(h, bh, bt, n);
    FreeInverse(h, f, fh, ft, n);
    forall o | o in h
      ensures Moved(n, m, o) in g && Redirected(h, g, n, m, o)
    {
      ShiftedAt(h, b, n, d, o);
    }
  }

  lemma ShiftedLists(h: Headers, b: nat, n: nat, d: nat, m: nat, g: Headers, f: set<nat>, fh: nat, ft: nat, bh: nat, bt: nat)
    requires b in h && n in h && b != n && h[b].blkNext == n && 0 < d <= h[n].size
    requires (h[n].blkNext == 0 || h[n].blkNext in h)
    requires (h[n].freeNext == 0 || h[n].freeNext in h) && (h[n].freePrev == 0 || h[n].freePrev in h)
    requires h[n].blkNext != 0 ==> n + d < h[n].blkNext
    requires m == n + d && g == Shifted(h, b, n, d)
    requires AllList(h, bh, bt) && FreeList(h, f, fh, ft) && n in f && b !in f
    ensures m !in h
    ensures AllList(g, bh, Moved(n, m, bt))
    ensures FreeList(g, f - {n} + {m}, Moved(n, m, fh), Moved(n, m, ft))
  {
    hide IsNext, IsPrev, IsLast, Ends, FreeLinks, BlkLinks, FreeList, AllList, Movable;
    MovableTo(h, bh, bt, n, m);
    ShiftedRedirected(h, b, n, d, m, g, f, fh, ft, bh, bt);
    hide Shifted, Redirected;
    ListsMoved(h, f, fh, ft, bh, bt, n, m, g);
  }
}
