/** The two lists of the region: blocks doubly linked in address order.

    A list is described by the set of its members: the successor of a member is the next
    larger one.  Insertion, removal and moving a member are first shown for one pair of
    neighbours and then for the whole list. */
module SmLists {

  datatype Header = Header(freeNext: nat, freePrev: nat, blkNext: nat, blkPrev: nat, size: nat, linkCnt: int)

  type Headers = map<nat, Header>

  /** x is the member of s that follows address o, or null. */
  ghost predicate IsNext(s: set<nat>, o: nat, x: nat) {
    if x == 0 then forall y :: y in s ==> y <= o
    else x in s && x > o && forall y :: y in s && y > o ==> y >= x
  }

  /** x is the member of s in front of address o, or null. */
  ghost predicate IsPrev(s: set<nat>, o: nat, x: nat) {
    if x == 0 then forall y :: y in s ==> y >= o
    else x in s && x < o && forall y :: y in s && y < o ==> y <= x
  }

  ghost predicate IsLast(s: set<nat>, x: nat) {
    if x == 0 then s == {} else x in s && forall y :: y in s ==> y <= x
  }

  ghost predicate Ends(s: set<nat>, head: nat, tail: nat) {
    0 !in s && IsNext(s, 0, head) && IsLast(s, tail)
  }

  ghost predicate FreeLinks(h: Headers, f: set<nat>, o: nat)
    requires o in h
  {
    if o in f then IsNext(f, o, h[o].freeNext) && IsPrev(f, o, h[o].freePrev)
    else h[o].freeNext == 0 && h[o].freePrev == 0
  }

  ghost predicate BlkLinks(h: Headers, s: set<nat>, o: nat)
    requires o in h
  {
    IsNext(s, o, h[o].blkNext) && IsPrev(s, o, h[o].blkPrev)
  }

  /** The members of f are doubly linked with correct ends; the blocks that are not on this
      list have null free links. */
  ghost predicate FreeList(h: Headers, f: set<nat>, head: nat, tail: nat) {
    0 !in h && f <= h.Keys && Ends(f, head, tail) && forall o :: o in h ==> FreeLinks(h, f, o)
  }

  /** All blocks, doubly linked with correct ends. */
  ghost predicate AllList(h: Headers, head: nat, tail: nat) {
    Ends(h.Keys, head, tail) && forall o :: o in h ==> BlkLinks(h, h.Keys, o)
  }

  // ---------------------------------------------------------------- neighbours

  lemma Mutual(s: set<nat>, o: nat, b: nat, x: nat, y: nat)
    requires o in s && b in s && 0 !in s && IsNext(s, o, x) && IsPrev(s, b, y)
    ensures x == b <==> y == o
  {
  }

  lemma NextWithout(s: set<nat>, b: nat, bn: nat, o: nat, x: nat)
    requires 0 !in s && b in s && IsNext(s, b, bn) && IsNext(s, o, x) && o != b
    ensures IsNext(s - {b}, o, if x == b then bn else x)
  {
  }

  lemma PrevWithout(s: set<nat>, b: nat, bp: nat, o: nat, x: nat)
    requires 0 !in s && b in s && IsPrev(s, b, bp) && IsPrev(s, o, x) && o != b
    ensures IsPrev(s - {b}, o, if x == b then bp else x)
  {
  }

  lemma LastWithout(s: set<nat>, b: nat, bp: nat, x: nat)
    requires 0 !in s && b in s && IsPrev(s, b, bp) && IsLast(s, x)
    ensures IsLast(s - {b}, if x == b then bp else x)
  {
    if x == b && bp == 0 {
      assert forall y :: y in s ==> y == b;
      assert s - {b} == {};
    }
  }

  /** Inserting n, whose neighbours in s are np and nn. */
  lemma NextWith(s: set<nat>, n: nat, np: nat, nn: nat, o: nat, x: nat)
    requires 0 !in s && n !in s && n > 0 && IsPrev(s, n, np) && IsNext(s, n, nn)
    requires IsNext(s, o, x) && (o in s || o == 0)
    ensures IsNext(s + {n}, o, if o == np then n else x)
    ensures IsNext(s + {n}, n, nn)
    ensures o == np ==> x == nn
  {
  }

  lemma PrevWith(s: set<nat>, n: nat, np: nat, nn: nat, o: nat, x: nat)
    requires 0 !in s && n !in s && n > 0 && IsPrev(s, n, np) && IsNext(s, n, nn)
    requires IsPrev(s, o, x) && o in s
    ensures IsPrev(s + {n}, o, if o == nn then n else x)
    ensures o == nn ==> x == np
  {
  }

  lemma PrevOfNew(s: set<nat>, n: nat, np: nat)
    requires n !in s && IsPrev(s, n, np)
    ensures IsPrev(s + {n}, n, np)
  {
  }

  lemma LastWith(s: set<nat>, n: nat, np: nat, x: nat)
    requires 0 !in s && n !in s && n > 0 && IsPrev(s, n, np) && IsLast(s, x)
    ensures IsLast(s + {n}, if x == np then n else x)
  {
  }

  lemma FreeNeighbours(h: Headers, f: set<nat>, head: nat, tail: nat, b: nat)
    requires FreeList(h, f, head, tail) && b in f
    ensures var p := h[b].freePrev; p != 0 ==> p in f && p in h && p < b
    ensures var n := h[b].freeNext; n != 0 ==> n in f && n in h && n > b
    ensures 0 !in h && b in h && b > 0 && (head == b <==> h[b].freePrev == 0) && (tail == b <==> h[b].freeNext == 0)
  {
    assert FreeLinks(h, f, b);
  }

  lemma BlkNeighbours(h: Headers, head: nat, tail: nat, b: nat)
    requires AllList(h, head, tail) && b in h
    ensures var p := h[b].blkPrev; p != 0 ==> p in h && p < b
    ensures var n := h[b].blkNext; n != 0 ==> n in h && n > b
    ensures 0 !in h && b > 0 && (head == b <==> h[b].blkPrev == 0) && (tail == b <==> h[b].blkNext == 0)
  {
    assert BlkLinks(h, h.Keys, b);
  }

  /** The links are mutually inverse: whatever points to b is b's neighbour on that side. */
  lemma BlkInverse(h: Headers, head: nat, tail: nat, b: nat)
    requires AllList(h, head, tail) && b in h
    ensures forall o :: o in h ==> (h[o].blkNext == b <==> o == h[b].blkPrev) && (h[o].blkPrev == b <==> o == h[b].blkNext)
  {
    forall o | o in h
      ensures (h[o].blkNext == b <==> o == h[b].blkPrev) && (h[o].blkPrev == b <==> o == h[b].blkNext)
    {
      assert BlkLinks(h, h.Keys, o) && BlkLinks(h, h.Keys, b);
      hide IsNext, IsPrev;
      Mutual(h.Keys, o, b, h[o].blkNext, h[b].blkPrev);
      Mutual(h.Keys, b, o, h[b].blkNext, h[o].blkPrev);
    }
  }

  lemma FreeInverse(h: Headers, f: set<nat>, head: nat, tail: nat, b: nat)
    requires FreeList(h, f, head, tail) && b in f
    ensures forall o :: o in h ==> (h[o].freeNext == b <==> o == h[b].freePrev) && (h[o].freePrev == b <==> o == h[b].freeNext)
  {
    FreeNeighbours(h, f, head, tail, b);
    forall o | o in h
      ensures (h[o].freeNext == b <==> o == h[b].freePrev) && (h[o].freePrev == b <==> o == h[b].freeNext)
    {
      assert FreeLinks(h, f, o) && FreeLinks(h, f, b);
      if o in f {
        hide IsNext, IsPrev;
        Mutual(f, o, b, h[o].freeNext, h[b].freePrev);
        Mutual(f, b, o, h[b].freeNext, h[o].freePrev);
      }
    }
  }

  /** An address between a member and its successor. */
  lemma Between(s: set<nat>, b: nat, bn: nat, n: nat)
    requires 0 !in s && b in s && IsNext(s, b, bn) && b < n && (bn != 0 ==> n < bn)
    ensures n !in s && IsNext(s, n, bn) && IsPrev(s, n, b)
  {
  }

  lemma SplitPoint(h: Headers, f: set<nat>, fh: nat, ft: nat, bh: nat, bt: nat, b: nat, n: nat)
    requires AllList(h, bh, bt) && FreeList(h, f, fh, ft) && b in f
    requires b < n && (h[b].blkNext != 0 ==> n < h[b].blkNext)
    ensures n !in h && IsNext(h.Keys, n, h[b].blkNext) && IsPrev(h.Keys, n, b)
    ensures n !in f && IsNext(f, n, h[b].freeNext) && IsPrev(f, n, b)
  {
    assert FreeLinks(h, f, b) && BlkLinks(h, h.Keys, b);
    Between(h.Keys, b, h[b].blkNext, n);
    Between(f, b, h[b].freeNext, n);
  }

  /** One step of the scan for the place to insert a block into the free list. */
  lemma ScanStep(h: Headers, head: nat, tail: nat, f: set<nat>, b: nat, o: nat)
    requires AllList(h, head, tail) && f <= h.Keys && o in h && o !in f && o >= b
    requires forall y :: y in f && y > b ==> y >= o
    ensures
      var n := h[o].blkNext;
      && (n != 0 ==> n in h && n > o)
      && forall y :: y in f && y > b ==> n != 0 && y >= n
  {
    hide IsNext, IsPrev, IsLast, Ends;
    assert BlkLinks(h, h.Keys, o);
    ScanSets(h.Keys, f, b, o, h[o].blkNext);
  }

  lemma ScanSets(s: set<nat>, f: set<nat>, b: nat, o: nat, n: nat)
    requires f <= s && o in s && o !in f && o >= b && IsNext(s, o, n)
    requires forall y :: y in f && y > b ==> y >= o
    ensures n != 0 ==> n in s && n > o
    ensures forall y :: y in f && y > b ==> n != 0 && y >= n
  {
  }

  lemma FreeWithin(h: Headers, f: set<nat>, head: nat, tail: nat)
    requires FreeList(h, f, head, tail)
    ensures f <= h.Keys && 0 !in h && (tail == 0 || tail in f)
  {
  }

  /** The free list starts at the lowest free block. */
  lemma FirstFree(h: Headers, f: set<nat>, head: nat, tail: nat)
    requires FreeList(h, f, head, tail)
    ensures head != 0 ==> head in f
    ensures forall o :: o in f ==> head != 0 && o >= head
  {
  }

  lemma NextFreeStep(h: Headers, f: set<nat>, head: nat, tail: nat, b: nat)
    requires FreeList(h, f, head, tail) && b in f
    ensures
      b in h && var n := h[b].freeNext;
      && (n != 0 ==> n in f && n > b)
      && forall o :: o in f && (n == 0 || o < n) ==> o <= b
  {
    assert FreeLinks(h, f, b);
  }

  /** The end of the scan for the place to insert a block into the free list. */
  lemma InsertPoint(h: Headers, f: set<nat>, fh: nat, ft: nat, b: nat, nn: nat)
    requires FreeList(h, f, fh, ft) && b in h && b !in f
    requires nn != 0 ==> nn in f && nn > b
    requires forall o :: o in f && o > b ==> nn != 0 && o >= nn
    ensures IsNext(f, b, nn)
    ensures var np := if nn != 0 then h[nn].freePrev else ft; IsPrev(f, b, np) && (np != 0 ==> np in h)
  {
    if nn != 0 { assert FreeLinks(h, f, nn); }
  }

  lemma FreeListDrop(h: Headers, f: set<nat>, head: nat, tail: nat, b: nat, g: Headers)
    requires FreeList(h, f, head, tail) && b !in f && g.Keys == h.Keys - {b}
    requires forall o :: o in g ==> g[o].freeNext == h[o].freeNext && g[o].freePrev == h[o].freePrev
    ensures FreeList(g, f, head, tail)
  {
    hide IsNext, IsPrev, IsLast;
    forall o | o in g ensures FreeLinks(g, f, o) {
      assert FreeLinks(h, f, o);
    }
  }

  /** The links of one list do not depend on the rest of the headers. */
  lemma AllListFrame(h: Headers, head: nat, tail: nat, g: Headers)
    requires AllList(h, head, tail) && g.Keys == h.Keys
    requires forall o :: o in h ==> g[o].blkNext == h[o].blkNext && g[o].blkPrev == h[o].blkPrev
    ensures AllList(g, head, tail)
  {
    hide IsNext, IsPrev, IsLast;
    forall o | o in g ensures BlkLinks(g, g.Keys, o) {
      assert BlkLinks(h, h.Keys, o);
    }
  }

  lemma FreeListFrame(h: Headers, f: set<nat>, head: nat, tail: nat, g: Headers)
    requires FreeList(h, f, head, tail) && g.Keys == h.Keys
    requires forall o :: o in h ==> g[o].freeNext == h[o].freeNext && g[o].freePrev == h[o].freePrev
    ensures FreeList(g, f, head, tail)
  {
    hide IsNext, IsPrev, IsLast;
    forall o | o in g ensures FreeLinks(g, f, o) {
      assert FreeLinks(h, f, o);
    }
  }

  // ---------------------------------------------------------------- removal

  lemma EndsWithout(s: set<nat>, head: nat, tail: nat, b: nat, bn: nat, bp: nat)
    requires Ends(s, head, tail) && b in s && IsNext(s, b, bn) && IsPrev(s, b, bp)
    ensures Ends(s - {b}, if head == b then bn else head, if tail == b then bp else tail)
  {
    NextWithout(s, b, bn, 0, head);
    LastWithout(s, b, bp, tail);
  }

  /** g is h after b's neighbours on the free list have been linked to each other. */
  ghost predicate FreeUnlinked(h: Headers, g: Headers, b: nat, o: nat)
    requires b in h && o in h && o in g
  {
    if o == b then g[o].freeNext == 0 && g[o].freePrev == 0
    else
      && g[o].freeNext == (if o == h[b].freePrev then h[b].freeNext else h[o].freeNext)
      && g[o].freePrev == (if o == h[b].freeNext then h[b].freePrev else h[o].freePrev)
  }

  lemma FreeLinksWithout(h: Headers, f: set<nat>, b: nat, g: Headers, o: nat)
    requires 0 !in f && b in f && b in h && o > 0 && o in h && o in g && FreeLinks(h, f, b) && FreeLinks(h, f, o)
    requires FreeUnlinked(h, g, b, o)
    ensures FreeLinks(g, f - {b}, o)
  {
    if o in f && o != b {
      NextWithout(f, b, h[b].freeNext, o, h[o].freeNext);
      PrevWithout(f, b, h[b].freePrev, o, h[o].freePrev);
      Mutual(f, o, b, h[o].freeNext, h[b].freePrev);
      Mutual(f, b, o, h[b].freeNext, h[o].freePrev);
    }
  }

  lemma FreeListWithout(h: Headers, f: set<nat>, head: nat, tail: nat, b: nat, g: Headers)
    requires FreeList(h, f, head, tail) && b in f
    requires g.Keys == h.Keys && forall o :: o in h ==> FreeUnlinked(h, g, b, o)
    ensures FreeList(g, f - {b}, if head == b then h[b].freeNext else head, if tail == b then h[b].freePrev else tail)
  {
    hide IsNext, IsPrev, IsLast;
    EndsWithout(f, head, tail, b, h[b].freeNext, h[b].freePrev);
    forall o | o in g ensures FreeLinks(g, f - {b}, o) {
      FreeLinksWithout(h, f, b, g, o);
    }
  }

  ghost predicate BlkUnlinked(h: Headers, g: Headers, b: nat, o: nat)
    requires b in h && o in h && o in g
  {
    && g[o].blkNext == (if o == h[b].blkPrev then h[b].blkNext else h[o].blkNext)
    && g[o].blkPrev == (if o == h[b].blkNext then h[b].blkPrev else h[o].blkPrev)
  }

  lemma BlkLinksWithout(h: Headers, b: nat, g: Headers, o: nat)
    requires 0 !in h && b in h && o in h && o in g && o != b && BlkLinks(h, h.Keys, b) && BlkLinks(h, h.Keys, o)
    requires BlkUnlinked(h, g, b, o)
    ensures BlkLinks(g, h.Keys - {b}, o)
  {
    var s := h.Keys;
    NextWithout(s, b, h[b].blkNext, o, h[o].blkNext);
    PrevWithout(s, b, h[b].blkPrev, o, h[o].blkPrev);
    Mutual(s, o, b, h[o].blkNext, h[b].blkPrev);
    Mutual(s, b, o, h[b].blkNext, h[o].blkPrev);
  }

  lemma AllListWithout(h: Headers, head: nat, tail: nat, b: nat, g: Headers)
    requires AllList(h, head, tail) && b in h
    requires g.Keys == h.Keys - {b} && forall o :: o in g ==> BlkUnlinked(h, g, b, o)
    ensures AllList(g, if head == b then h[b].blkNext else head, if tail == b then h[b].blkPrev else tail)
  {
    hide IsNext, IsPrev, IsLast;
    EndsWithout(h.Keys, head, tail, b, h[b].blkNext, h[b].blkPrev);
    forall o | o in g ensures BlkLinks(g, g.Keys, o) {
      BlkLinksWithout(h, b, g, o);
    }
  }

  // ---------------------------------------------------------------- insertion

  lemma EndsWith(s: set<nat>, head: nat, tail: nat, n: nat, np: nat, nn: nat)
    requires Ends(s, head, tail) && n !in s && n > 0 && IsNext(s, n, nn) && IsPrev(s, n, np)
    ensures Ends(s + {n}, if np == 0 then n else head, if tail == np then n else tail)
    ensures np < n && (np == 0 || np in s) && (nn == 0 || (nn > n && nn in s))
    ensures np == 0 <==> head == nn
    ensures nn == 0 <==> tail == np
  {
    NextWith(s, n, np, nn, 0, head);
    LastWith(s, n, np, tail);
  }

  ghost predicate FreeLinked(h: Headers, g: Headers, n: nat, np: nat, nn: nat, o: nat)
    requires o in g && (o != n ==> o in h)
  {
    if o == n then g[o].freeNext == nn && g[o].freePrev == np
    else
      && g[o].freeNext == (if o == np then n else h[o].freeNext)
      && g[o].freePrev == (if o == nn then n else h[o].freePrev)
  }

  lemma FreeLinksWith(h: Headers, f: set<nat>, n: nat, np: nat, nn: nat, g: Headers, o: nat)
    requires 0 !in f && n !in f && n > 0 && IsNext(f, n, nn) && IsPrev(f, n, np)
    requires o > 0 && o in g && (o != n ==> o in h && FreeLinks(h, f, o))
    requires FreeLinked(h, g, n, np, nn, o)
    ensures FreeLinks(g, f + {n}, o)
  {
    if o == n {
      NextWith(f, n, np, nn, np, nn);
      PrevOfNew(f, n, np);
    } else if o in f {
      NextWith(f, n, np, nn, o, h[o].freeNext);
      PrevWith(f, n, np, nn, o, h[o].freePrev);
    }
  }

  lemma FreeListWith(h: Headers, f: set<nat>, head: nat, tail: nat, n: nat, np: nat, nn: nat, g: Headers)
    requires FreeList(h, f, head, tail) && n !in f && n > 0 && IsNext(f, n, nn) && IsPrev(f, n, np)
    requires g.Keys == h.Keys + {n} && forall o :: o in g ==> FreeLinked(h, g, n, np, nn, o)
    ensures FreeList(g, f + {n}, if np == 0 then n else head, if tail == np then n else tail)
  {
    hide IsNext, IsPrev, IsLast;
    EndsWith(f, head, tail, n, np, nn);
    forall o | o in g ensures FreeLinks(g, f + {n}, o) {
      FreeLinksWith(h, f, n, np, nn, g, o);
    }
  }

  ghost predicate BlkLinked(h: Headers, g: Headers, n: nat, np: nat, nn: nat, o: nat)
    requires o in g && (o != n ==> o in h)
  {
    if o == n then g[o].blkNext == nn && g[o].blkPrev == np
    else
      && g[o].blkNext == (if o == np then n else h[o].blkNext)
      && g[o].blkPrev == (if o == nn then n else h[o].blkPrev)
  }

  lemma BlkLinksWith(h: Headers, n: nat, np: nat, nn: nat, g: Headers, o: nat)
    requires 0 !in h && n !in h && n > 0 && IsNext(h.Keys, n, nn) && IsPrev(h.Keys, n, np)
    requires o in g && (o != n ==> o in h && BlkLinks(h, h.Keys, o))
    requires BlkLinked(h, g, n, np, nn, o)
    ensures BlkLinks(g, h.Keys + {n}, o)
  {
    if o == n {
      NextWith(h.Keys, n, np, nn, np, nn);
      PrevOfNew(h.Keys, n, np);
    } else {
      NextWith(h.Keys, n, np, nn, o, h[o].blkNext);
      PrevWith(h.Keys, n, np, nn, o, h[o].blkPrev);
    }
  }

  lemma AllListWith(h: Headers, head: nat, tail: nat, n: nat, np: nat, nn: nat, g: Headers)
    requires AllList(h, head, tail) && n !in h && n > 0 && IsNext(h.Keys, n, nn) && IsPrev(h.Keys, n, np)
    requires g.Keys == h.Keys + {n} && forall o :: o in g ==> BlkLinked(h, g, n, np, nn, o)
    ensures AllList(g, if np == 0 then n else head, if tail == np then n else tail)
  {
    hide IsNext, IsPrev, IsLast;
    EndsWith(h.Keys, head, tail, n, np, nn);
    forall o | o in g ensures BlkLinks(g, g.Keys, o) {
      BlkLinksWith(h, n, np, nn, g, o);
    }
  }

  // ---------------------------------------------------------------- moving a member

  /** Position o after the member b has moved to b2. */
  function Moved(b: nat, b2: nat, o: nat): nat { if o == b then b2 else o }

  /** b moves up to b2 without passing another member. */
  ghost predicate Movable(s: set<nat>, b: nat, b2: nat) {
    0 !in s && b in s && b < b2 && forall y :: y in s && y > b ==> y > b2
  }

  lemma MovableTo(h: Headers, head: nat, tail: nat, b: nat, b2: nat)
    requires AllList(h, head, tail) && b in h && b < b2 && (h[b].blkNext != 0 ==> b2 < h[b].blkNext)
    ensures Movable(h.Keys, b, b2) && b2 !in h
  {
    assert BlkLinks(h, h.Keys, b);
    hide BlkLinks;
  }

  lemma NextMoved(s: set<nat>, b: nat, b2: nat, o: nat, x: nat)
    requires Movable(s, b, b2) && (o in s || o == 0) && IsNext(s, o, x)
    ensures IsNext(s - {b} + {b2}, Moved(b, b2, o), Moved(b, b2, x))
  {
  }

  lemma PrevMoved(s: set<nat>, b: nat, b2: nat, o: nat, x: nat)
    requires Movable(s, b, b2) && o in s && IsPrev(s, o, x)
    ensures IsPrev(s - {b} + {b2}, Moved(b, b2, o), Moved(b, b2, x))
  {
  }

  lemma MovableWithin(s: set<nat>, f: set<nat>, b: nat, b2: nat)
    requires Movable(s, b, b2) && f <= s && b in f
    ensures Movable(f, b, b2) && b2 !in s
  {
  }

  lemma EndsMoved(s: set<nat>, b: nat, b2: nat, head: nat, tail: nat)
    requires Movable(s, b, b2) && Ends(s, head, tail)
    ensures Ends(s - {b} + {b2}, Moved(b, b2, head), Moved(b, b2, tail))
  {
    NextMoved(s, b, b2, 0, head);
  }

  /** Every link to b has been redirected to b2, where b's own links now are. */
  ghost predicate Redirected(h: Headers, g: Headers, b: nat, b2: nat, o: nat)
    requires o in h && Moved(b, b2, o) in g
  {
    var m := g[Moved(b, b2, o)];
    && m.freeNext == Moved(b, b2, h[o].freeNext) && m.freePrev == Moved(b, b2, h[o].freePrev)
    && m.blkNext == Moved(b, b2, h[o].blkNext) && m.blkPrev == Moved(b, b2, h[o].blkPrev)
  }

  lemma ListsMoved(h: Headers, f: set<nat>, fh: nat, ft: nat, bh: nat, bt: nat, b: nat, b2: nat, g: Headers)
    requires AllList(h, bh, bt) && FreeList(h, f, fh, ft) && b in f && Movable(h.Keys, b, b2)
    requires g.Keys == h.Keys - {b} + {b2}
    requires forall o :: o in h ==> Redirected(h, g, b, b2, o)
    ensures AllList(g, Moved(b, b2, bh), Moved(b, b2, bt))
    ensures FreeList(g, f - {b} + {b2}, Moved(b, b2, fh), Moved(b, b2, ft))
  {
    hide IsNext, IsPrev, IsLast;
    MovableWithin(h.Keys, f, b, b2);
    EndsMoved(h.Keys, b, b2, bh, bt);
    EndsMoved(f, b, b2, fh, ft);
    hide Movable;
    forall o | o in g
      ensures BlkLinks(g, g.Keys, o) && FreeLinks(g, f - {b} + {b2}, o)
    {
      LinksMoved(h, f, b, b2, g, if o == b2 then b else o);
    }
  }

  lemma LinksMoved(h: Headers, f: set<nat>, b: nat, b2: nat, g: Headers, o: nat)
    requires o in h && Moved(b, b2, o) in g && f <= h.Keys && b in f && Movable(h.Keys, b, b2)
    requires BlkLinks(h, h.Keys, o) && FreeLinks(h, f, o) && Redirected(h, g, b, b2, o)
    ensures BlkLinks(g, h.Keys - {b} + {b2}, Moved(b, b2, o))
    ensures FreeLinks(g, f - {b} + {b2}, Moved(b, b2, o))
  {
    MovableWithin(h.Keys, f, b, b2);
    hide IsNext, IsPrev;
    NextMoved(h.Keys, b, b2, o, h[o].blkNext);
    PrevMoved(h.Keys, b, b2, o, h[o].blkPrev);
    if o in f {
      NextMoved(f, b, b2, o, h[o].freeNext);
      PrevMoved(f, b, b2, o, h[o].freePrev);
    }
  }
}
