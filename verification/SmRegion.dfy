/** The shared-memory region itself: block headers threaded on two doubly linked lists,
    updated in place, and the bytes between them. */
module SmRegion {
  import opened Ints
  import opened SmChain
  import opened SmRuns
  import opened SmLists
  import opened SmHeaders
  import opened SmView

  type byte = bv8

  lemma OutsideFewer(s: set<nat>, t: set<nat>)
    requires s <= t
    ensures forall a :: OutsideHeaders(t, a) ==> OutsideHeaders(s, a)
  {
  }

  lemma Balance(x: nat, t: nat)
    requires x < SIZE_MOD && t < SIZE_MOD
    ensures (x - t) % SIZE_MOD == 0 <==> x == t
  {
  }

  /** Adding d to a counter for a total that grows by e. */
  lemma Recounted(x: int, t: int, d: int, e: int)
    ensures ((x + d) % SIZE_MOD - (t + e)) % SIZE_MOD == ((x - t) % SIZE_MOD + (d - e)) % SIZE_MOD
  {
  }

  class Region {
    const mem: array<byte>
    var hdr: Headers
    var freeHead: nat
    var freeTail: nat
    var blkHead: nat
    var blkTail: nat
    var allocSize: nat
    var nBlocks: int
    var nAllocBlocks: int

    ghost var chain: Chain
    ghost var frees: set<nat>

    ghost predicate Linked()
      reads this`hdr, this`frees, this`freeHead, this`freeTail, this`blkHead, this`blkTail
    {
      && AllList(hdr, blkHead, blkTail)
      && FreeList(hdr, frees, freeHead, freeTail)
      && forall o :: o in hdr ==> o + HDR <= mem.Length
    }

    /** Writing a header overwrites its bytes in the region; what they become is left open. */
    method Put(o: nat, b: Header)
      requires o + HDR <= mem.Length
      modifies this`hdr, mem
      ensures hdr == old(hdr)[o := b]
      ensures forall a :: 0 <= a < mem.Length && !(o <= a < o + HDR) ==> mem[a] == old(mem[a])
    {
      hdr := hdr[o := b];
      var image := new byte[HDR];
      forall i | 0 <= i < HDR { mem[o + i] := image[i]; }
    }

    // Stores through a link that may be null.

    method SetFreeNext(t: nat, v: nat)
      requires t == 0 || (t in hdr && t + HDR <= mem.Length)
      modifies this`hdr, mem
      ensures hdr == WithFreeNext(old(hdr), t, v)
      ensures forall a :: 0 <= a < mem.Length && OutsideHeaders(hdr.Keys, a) ==> mem[a] == old(mem[a])
    {
      if t != 0 { Put(t, hdr[t].(freeNext := v)); }
    }

    method SetFreePrev(t: nat, v: nat)
      requires t == 0 || (t in hdr && t + HDR <= mem.Length)
      modifies this`hdr, mem
      ensures hdr == WithFreePrev(old(hdr), t, v)
      ensures forall a :: 0 <= a < mem.Length && OutsideHeaders(hdr.Keys, a) ==> mem[a] == old(mem[a])
    {
      if t != 0 { Put(t, hdr[t].(freePrev := v)); }
    }

    method SetBlkPrev(t: nat, v: nat)
      requires t == 0 || (t in hdr && t + HDR <= mem.Length)
      modifies this`hdr, mem
      ensures hdr == WithBlkPrev(old(hdr), t, v)
      ensures forall a :: 0 <= a < mem.Length && OutsideHeaders(hdr.Keys, a) ==> mem[a] == old(mem[a])
    {
      if t != 0 { Put(t, hdr[t].(blkPrev := v)); }
    }

    method Drop(o: nat)
      requires o + HDR <= mem.Length
      modifies this`hdr, mem
      ensures hdr == old(hdr) - {o}
      ensures forall a :: 0 <= a < mem.Length && !(o <= a < o + HDR) ==> mem[a] == old(mem[a])
    {
      hdr := hdr - {o};
      forall i | 0 <= i < 4 { mem[o + i] := 0; }
    }

    /** Takes a block off the free list. */
    method UnFree(blk: nat)
      requires Linked() && blk in frees
      modifies this`hdr, this`freeHead, this`freeTail, this`frees, mem
      ensures Linked()
      ensures frees == old(frees) - {blk}
      ensures hdr.Keys == old(hdr.Keys)
      ensures forall o :: o in hdr ==> hdr[o] == old(hdr)[o].(freeNext := hdr[o].freeNext, freePrev := hdr[o].freePrev)
      ensures forall a :: 0 <= a < mem.Length && OutsideHeaders(hdr.Keys, a) ==> mem[a] == old(mem[a])
    {
      hide IsNext, IsPrev, IsLast, Ends, FreeLinks, BlkLinks, FreeList, AllList, WithFreeNext, WithFreePrev, WithBlkPrev;
      FreeNeighbours(hdr, frees, freeHead, freeTail, blk);
      UnFreedLists(hdr, frees, freeHead, freeTail, blkHead, blkTail, blk);
      var b := hdr[blk];
      SetFreeNext(b.freePrev, b.freeNext);
      SetFreePrev(b.freeNext, b.freePrev);
      if freeHead == blk { freeHead := b.freeNext; }
      if freeTail == blk { freeTail := b.freePrev; }
      Put(blk, hdr[blk].(freePrev := 0, freeNext := 0));
      frees := frees - {blk};
      assert hdr == UnFreed(old(hdr), blk);
    }

    /** The header stores of a split. */
    method SplitHeader(blk: nat, size: nat)
      requires blk in hdr && hdr[blk].size > size + HDR && blk + HDR + size + HDR <= mem.Length
      requires blk + HDR + size !in hdr && forall o :: o in hdr ==> o + HDR <= mem.Length
      requires hdr[blk].blkNext == 0 || hdr[blk].blkNext in hdr
      requires hdr[blk].freeNext == 0 || hdr[blk].freeNext in hdr
      modifies this`hdr, mem
      ensures hdr == Split(old(hdr), blk, size)
      ensures forall a :: 0 <= a < mem.Length && OutsideHeaders(hdr.Keys, a) ==> mem[a] == old(mem[a])
    {
      hide WithFreeNext, WithFreePrev, WithBlkPrev;
      var b, rest := hdr[blk], blk + HDR + size;
      Put(rest, Header(b.freeNext, blk, b.blkNext, blk, b.size - size - HDR, -1));
      Put(blk, b.(size := size, freeNext := rest, blkNext := rest));
      SetFreePrev(b.freeNext, rest);
      SetBlkPrev(b.blkNext, rest);
    }

    /** Splits a free block; the remainder becomes a free block of its own. */
    method SplitBlock(blk: nat, size: nat)
      requires Linked() && blk in frees && blk in hdr
      requires hdr[blk].size > size + HDR
      requires blk + HDR + hdr[blk].size <= if hdr[blk].blkNext == 0 then mem.Length else hdr[blk].blkNext
      requires hdr[blk].blkNext == 0 || hdr[blk].blkNext in hdr
      requires hdr[blk].freeNext == 0 || hdr[blk].freeNext in hdr
      modifies this`hdr, this`freeTail, this`blkTail, this`frees, this`nBlocks, mem
      ensures Linked()
      ensures frees == old(frees) + {blk + HDR + size} && nBlocks == old(nBlocks) + 1
      ensures hdr == Split(old(hdr), blk, size)
      ensures forall a :: 0 <= a < mem.Length && OutsideHeaders(hdr.Keys, a) ==> mem[a] == old(mem[a])
    {
      hide IsNext, IsPrev, IsLast, Ends, FreeLinks, BlkLinks, FreeList, AllList, Split, OutsideHeaders;
      SplitLists(hdr, blk, size, blk + HDR + size, Split(hdr, blk, size), frees, freeHead, freeTail, blkHead, blkTail);
      SplitHeader(blk, size);
      var rest := blk + HDR + size;
      blkTail := if blkTail == blk then rest else blkTail;
      freeTail := if freeTail == blk then rest else freeTail;
      nBlocks := nBlocks + 1;
      frees := frees + {rest};
    }

    /** The header stores of an insertion into the free list. */
    method InsertHeader(blk: nat, prev: nat, next: nat)
      requires blk in hdr && (prev == 0 || prev in hdr) && (next == 0 || next in hdr)
      requires forall o :: o in hdr ==> o + HDR <= mem.Length
      modifies this`hdr, mem
      ensures hdr == Inserted(old(hdr), blk, prev, next)
      ensures forall a :: 0 <= a < mem.Length && OutsideHeaders(hdr.Keys, a) ==> mem[a] == old(mem[a])
    {
      hide WithFreeNext, WithFreePrev;
      SetFreePrev(next, blk);
      SetFreeNext(prev, blk);
      Put(blk, hdr[blk].(freeNext := next, freePrev := prev));
    }

    /** sm_internal_Free scans the blocks behind `blk` for a free one. */
    method NextFree(blk: nat) returns (next: nat)
      requires Linked() && blk in hdr && blk !in frees && hdr[blk].linkCnt != -1
      requires forall o :: o in hdr && o != blk ==> (o in frees <==> hdr[o].linkCnt == -1)
      ensures next != 0 ==> next in hdr
      ensures IsNext(frees, blk, next)
      ensures var prev := if next != 0 then hdr[next].freePrev else freeTail; IsPrev(frees, blk, prev) && (prev != 0 ==> prev in hdr)
    {
      hide IsNext, IsPrev, IsLast, Ends, FreeLinks, BlkLinks, FreeList, AllList;
      FreeWithin(hdr, frees, freeHead, freeTail);
      next := blk;
      while next != 0 && hdr[next].linkCnt != -1
        invariant next != 0 ==> next in hdr && next >= blk
        invariant forall o :: o in frees && o > blk ==> next != 0 && o >= next
        decreases if next == 0 then 0 else mem.Length - next
      {
        ScanStep(hdr, blkHead, blkTail, frees, blk, next);
        next := hdr[next].blkNext;
      }
      InsertPoint(hdr, frees, freeHead, freeTail, blk, next);
    }

    /** Puts a block that is no longer referenced on the free list, in address order. */
    method FreeBlock(blk: nat)
      requires Linked() && blk in hdr && blk !in frees && hdr[blk].linkCnt != -1
      requires forall o :: o in hdr && o != blk ==> (o in frees <==> hdr[o].linkCnt == -1)
      modifies this`hdr, this`freeHead, this`freeTail, this`frees, mem
      ensures Linked()
      ensures frees == old(frees) + {blk}
      ensures hdr.Keys == old(hdr.Keys)
      ensures forall o :: o in hdr ==> hdr[o] == old(hdr)[o].(freeNext := hdr[o].freeNext, freePrev := hdr[o].freePrev)
      ensures forall a :: 0 <= a < mem.Length && OutsideHeaders(hdr.Keys, a) ==> mem[a] == old(mem[a])
    {
      hide IsNext, IsPrev, IsLast, Ends, FreeLinks, BlkLinks, FreeList, AllList, OutsideHeaders;
      var next := NextFree(blk);
      var prev := if next != 0 then hdr[next].freePrev else freeTail;
      hide Inserted;
      InsertedFrame(hdr, blk, prev, next);
      InsertedLists(hdr, blk, prev, next, Inserted(hdr, blk, prev, next), frees, freeHead, freeTail, blkHead, blkTail);
      InsertHeader(blk, prev, next);
      freeHead := if freeHead == next then blk else freeHead;
      freeTail := if freeTail == prev then blk else freeTail;
      frees := frees + {blk};
    }

    /** The header stores of merging `next` into `blk`. */
    method SwallowHeader(blk: nat, next: nat)
      requires blk in hdr && next in hdr && blk != next && (hdr[next].blkNext == 0 || hdr[next].blkNext in hdr)
      requires forall o :: o in hdr ==> o + HDR <= mem.Length
      modifies this`hdr, mem
      ensures hdr == Swallowed(old(hdr), blk, next)
      ensures forall a :: 0 <= a < mem.Length && OutsideHeaders(old(hdr).Keys, a) ==> mem[a] == old(mem[a])
    {
      var n, size := hdr[next], hdr[blk].size;
      SetBlkPrev(n.blkNext, blk);
      Put(blk, hdr[blk].(blkNext := n.blkNext, size := size + HDR + n.size));
      Drop(next);
    }

    /** Merges the free block behind `blk` into it; `blk` stays free or allocated as it was. */
    method CombineWithNext(blk: nat)
      requires Linked() && blk in hdr && hdr[blk].blkNext in frees && hdr[blk].blkNext in hdr
      modifies this`hdr, this`freeHead, this`freeTail, this`blkTail, this`frees, this`nBlocks, mem
      ensures Linked()
      ensures frees == old(frees) - {old(hdr)[blk].blkNext} && nBlocks == old(nBlocks) - 1
      ensures hdr.Keys == old(hdr).Keys - {old(hdr)[blk].blkNext} && blk in hdr
      ensures CoreOf(hdr[blk]) == Core(old(hdr)[blk].size + HDR + old(hdr)[old(hdr)[blk].blkNext].size, old(hdr)[blk].linkCnt)
      ensures forall o :: o in hdr && o != blk ==> CoreOf(hdr[o]) == CoreOf(old(hdr)[o])
      ensures forall a :: 0 <= a < mem.Length && OutsideHeaders(old(hdr).Keys, a) ==> mem[a] == old(mem[a])
    {
      hide IsNext, IsPrev, IsLast, Ends, FreeLinks, BlkLinks, FreeList, AllList, OutsideHeaders;
      BlkNeighbours(hdr, blkHead, blkTail, blk);
      var next := hdr[blk].blkNext;
      UnFree(next);
      FreeWithin(hdr, frees, freeHead, freeTail);
      BlkNeighbours(hdr, blkHead, blkTail, next);
      SwallowedLists(hdr, blk, next, Swallowed(hdr, blk, next), frees, freeHead, freeTail, blkHead, blkTail);
      SwallowHeader(blk, next);
      nBlocks := nBlocks - 1;
      blkTail := if blkTail == next then blk else blkTail;   // freeTail has left `next` already
    }

    /** The header stores of moving the boundary between `blk` and `next` up by `d`. */
    method ShiftHeader(blk: nat, next: nat, d: nat)
      requires blk in hdr && next in hdr && blk != next && 0 < d <= hdr[next].size
      requires (hdr[next].blkNext == 0 || hdr[next].blkNext in hdr)
      requires (hdr[next].freeNext == 0 || hdr[next].freeNext in hdr) && (hdr[next].freePrev == 0 || hdr[next].freePrev in hdr)
      requires next + d + HDR <= mem.Length && forall o :: o in hdr ==> o + HDR <= mem.Length
      modifies this`hdr, mem
      ensures hdr == Shifted(old(hdr), blk, next, d)
      ensures forall a :: 0 <= a < mem.Length && OutsideHeaders(old(hdr).Keys + {next + d}, a) ==> mem[a] == old(mem[a])
    {
      hide WithFreeNext, WithFreePrev, WithBlkPrev;
      var n, size := hdr[next], hdr[blk].size;
      SetFreePrev(n.freeNext, next + d);
      SetFreeNext(n.freePrev, next + d);
      SetBlkPrev(n.blkNext, next + d);
      var moved := hdr[next];
      Put(blk, hdr[blk].(blkNext := next + d, size := size + d));
      Put(next + d, moved.(size := n.size - d));
      Drop(next);
    }

    /** Moves the boundary between an allocated block and the free block behind it. */
    method Shift(blk: nat, next: nat, d: nat)
      requires Linked() && blk in hdr && blk !in frees && hdr[blk].blkNext == next && next in frees && next in hdr && blk != next
      requires 0 < d <= hdr[next].size
      requires next + HDR + hdr[next].size <= if hdr[next].blkNext == 0 then mem.Length else hdr[next].blkNext
      requires (hdr[next].blkNext == 0 || hdr[next].blkNext in hdr)
      requires (hdr[next].freeNext == 0 || hdr[next].freeNext in hdr) && (hdr[next].freePrev == 0 || hdr[next].freePrev in hdr)
      modifies this`hdr, this`freeHead, this`freeTail, this`blkTail, this`frees, mem
      ensures Linked()
      ensures frees == old(frees) - {next} + {next + d}
      ensures ShiftedCores(old(hdr), blk, next, d, hdr)
      ensures forall a :: 0 <= a < mem.Length && OutsideHeaders(old(hdr).Keys + {next + d}, a) ==> mem[a] == old(mem[a])
    {
      hide IsNext, IsPrev, IsLast, Ends, FreeLinks, BlkLinks, FreeList, AllList, Shifted, OutsideHeaders;
      ShiftedLists(hdr, blk, next, d, next + d, Shifted(hdr, blk, next, d), frees, freeHead, freeTail, blkHead, blkTail);
      ShiftedCoresHold(hdr, blk, next, d, Shifted(hdr, blk, next, d));
      ShiftHeader(blk, next, d);
      freeTail := if freeTail == next then next + d else freeTail;
      blkTail := if blkTail == next then next + d else blkTail;
      freeHead := if freeHead == next then next + d else freeHead;
      frees := frees - {next} + {next + d};
    }

    /** Grows an allocated block at the expense of the free block behind it; never shrinks. */
    method ResizeTo(blk: nat, newSize: nat)
      requires Linked() && blk in hdr && blk !in frees && hdr[blk].blkNext in frees && hdr[blk].blkNext in hdr
      requires newSize + ALIGN <= hdr[blk].size + hdr[hdr[blk].blkNext].size
      requires
        var n := hdr[blk].blkNext;
        n + HDR + hdr[n].size <= if hdr[n].blkNext == 0 then mem.Length else hdr[n].blkNext
      modifies this`hdr, this`freeHead, this`freeTail, this`blkTail, this`frees, mem
      ensures Linked()
      ensures newSize <= old(hdr)[blk].size ==> hdr == old(hdr) && frees == old(frees)
      ensures
        var n, d := old(hdr)[blk].blkNext, newSize - old(hdr)[blk].size;
        d > 0 ==> frees == old(frees) - {n} + {n + d} && ShiftedCores(old(hdr), blk, n, d, hdr)
      ensures forall a :: 0 <= a < mem.Length && OutsideHeaders(old(hdr).Keys + hdr.Keys, a) ==> mem[a] == old(mem[a])
    {
      hide IsNext, IsPrev, IsLast, Ends, FreeLinks, BlkLinks, FreeList, AllList;
      if newSize > hdr[blk].size {
        BlkNeighbours(hdr, blkHead, blkTail, blk);
        var next := hdr[blk].blkNext;
        BlkNeighbours(hdr, blkHead, blkTail, next);
        FreeNeighbours(hdr, frees, freeHead, freeTail, next);
        Shift(blk, next, newSize - hdr[blk].size);
      }
    }

    // -------------------------------------------------------------- the chain behind the headers

    /** The headers present the chain; this holds also between the steps of one call. */
    ghost predicate Presented()
      reads this`hdr, this`frees, this`freeHead, this`freeTail, this`blkHead, this`blkTail, this`nBlocks, this`chain
    {
      && Linked() && mem.Length < REGION_LIMIT
      && Tiling(chain, BASE, mem.Length) && Matches(hdr, chain)
      && FreeByCount(hdr, frees) && nBlocks == |chain|
    }

    /** What every call of the library keeps. */
    ghost predicate Valid()
      reads this
    {
      && Presented() && WellFormed(chain, mem.Length)
      && nAllocBlocks == Total(chain, Used) && allocSize < SIZE_MOD
    }

    /** By how much the byte count is off, in size_t arithmetic. */
    ghost function Miscount(): nat
      reads this`allocSize, this`chain
    {
      (allocSize - Total(chain, Bytes)) % SIZE_MOD
    }

    /** Off by nothing is right. */
    lemma CountedRight()
      requires Valid()
      ensures Miscount() == 0 <==> allocSize == Total(chain, Bytes)
    {
      hide *;
      BytesInRegion();
      MiscountIs();
      Balance(allocSize, Total(chain, Bytes));
    }

    lemma MiscountIs()
      ensures Miscount() == (allocSize - Total(chain, Bytes)) % SIZE_MOD
    {
    }

    lemma BytesInRegion()
      requires Valid()
      ensures Total(chain, Bytes) < SIZE_MOD && allocSize < SIZE_MOD
    {
      hide Linked, Matches, Segment;
      BytesFit(chain, BASE, mem.Length);
    }

    /** Changes the link count of an allocated block to another allocated value. */
    method SetCount(blk: nat, ghost k: nat, v: int)
      requires Presented() && k < |chain| && chain[k].off == blk && chain[k].link != -1 && v != -1
      modifies this`hdr, this`chain, mem
      ensures Presented() && chain == old(chain)[k := old(chain)[k].(link := v)]
      ensures hdr.Keys == old(hdr.Keys)
      ensures forall a :: 0 <= a < mem.Length && OutsideHeaders(hdr.Keys, a) ==> mem[a] == old(mem[a])
    {
      hide IsNext, IsPrev, IsLast, Ends, FreeLinks, BlkLinks, FreeList, AllList, Tiling, HasOffset;
      MatchesRelink(hdr, chain, mem.Length, k, v);
      RelinkTiling(chain, k, v, BASE, mem.Length);
      assert Presents(hdr, chain[k]);
      hide Matches;
      ghost var h := hdr;
      Put(blk, hdr[blk].(linkCnt := v));
      chain := chain[k := chain[k].(link := v)];
      AllListFrame(h, blkHead, blkTail, hdr);
      FreeListFrame(h, frees, freeHead, freeTail, hdr);
    }

    /** Puts a block whose count has reached zero on the free list and marks it free. */
    method Release(blk: nat, ghost k: nat)
      requires Presented() && k < |chain| && chain[k].off == blk && chain[k].link == 0
      modifies this`hdr, this`freeHead, this`freeTail, this`frees, this`chain, mem
      ensures Presented() && chain == old(chain)[k := old(chain)[k].(link := -1)]
      ensures hdr.Keys == old(hdr.Keys)
      ensures forall a :: 0 <= a < mem.Length && OutsideHeaders(hdr.Keys, a) ==> mem[a] == old(mem[a])
    {
      hide IsNext, IsPrev, IsLast, Ends, FreeLinks, BlkLinks, FreeList, AllList, Tiling, HasOffset;
      assert Presents(hdr, chain[k]);
      ghost var h0 := hdr;
      FreeBlock(blk);
      MatchesFrame(h0, chain, hdr);
      MatchesRelink(hdr, chain, mem.Length, k, -1);
      RelinkTiling(chain, k, -1, BASE, mem.Length);
      hide Matches;
      ghost var h := hdr;
      Put(blk, hdr[blk].(linkCnt := -1));
      chain := chain[k := chain[k].(link := -1)];
      AllListFrame(h, blkHead, blkTail, hdr);
      FreeListFrame(h, frees, freeHead, freeTail, hdr);
    }

    /** Merges the free block behind block k into it. */
    method Combine(blk: nat, ghost k: nat)
      requires Presented() && k + 1 < |chain| && chain[k].off == blk && chain[k + 1].Free()
      modifies this`hdr, this`freeHead, this`freeTail, this`blkTail, this`frees, this`nBlocks, this`chain, mem
      ensures Presented() && chain == CombineAt(old(chain), k)
      ensures hdr.Keys <= old(hdr).Keys
      ensures forall a :: 0 <= a < mem.Length && OutsideHeaders(old(hdr).Keys, a) ==> mem[a] == old(mem[a])
    {
      hide IsNext, IsPrev, IsLast, Ends, FreeLinks, BlkLinks, FreeList, AllList, Tiling, HasOffset, CombineAt;
      ghost var h := hdr;
      NextBlock(hdr, blkHead, blkTail, chain, mem.Length, k);
      assert Presents(hdr, chain[k]) && Presents(hdr, chain[k + 1]);
      CombineWithNext(blk);
      MatchesCombine(h, chain, mem.Length, k, hdr);
      CombineTiling(chain, k, BASE, mem.Length);
      chain := CombineAt(chain, k);
    }

    /** Cuts a free block in two free ones. */
    method Carve(blk: nat, n: nat, ghost k: nat)
      requires Presented() && k < |chain| && chain[k].off == blk && chain[k].Free() && chain[k].size > n + HDR
      modifies this`hdr, this`freeTail, this`blkTail, this`frees, this`nBlocks, this`chain, mem
      ensures Presented() && chain == SplitAt(old(chain), k, n)
      ensures old(hdr).Keys <= hdr.Keys
      ensures forall a :: 0 <= a < mem.Length && OutsideHeaders(hdr.Keys, a) ==> mem[a] == old(mem[a])
    {
      hide IsNext, IsPrev, IsLast, Ends, FreeLinks, BlkLinks, FreeList, AllList, Tiling, HasOffset, SplitAt, Split, OutsideHeaders;
      ghost var h := hdr;
      Room(chain, BASE, mem.Length, k);
      NextBlock(hdr, blkHead, blkTail, chain, mem.Length, k);
      assert Presents(hdr, chain[k]);
      FreeNeighbours(hdr, frees, freeHead, freeTail, blk);
      BlkNeighbours(hdr, blkHead, blkTail, blk);
      SplitPoint(hdr, frees, freeHead, freeTail, blkHead, blkTail, blk, blk + HDR + n);
      SplitCores(hdr, blk, n);
      SplitBlock(blk, n);
      MatchesSplit(h, chain, mem.Length, k, n, hdr);
      SplitTiling(chain, k, n, BASE, mem.Length);
      chain := SplitAt(chain, k, n);
    }

    /** Takes a free block into use. */
    method Take(blk: nat, ghost k: nat)
      requires Presented() && k < |chain| && chain[k].off == blk && chain[k].Free()
      modifies this`hdr, this`freeHead, this`freeTail, this`frees, this`chain, mem
      ensures Presented() && chain == old(chain)[k := old(chain)[k].(link := 1)]
      ensures hdr.Keys == old(hdr.Keys) && blk in hdr && hdr[blk].size == chain[k].size
      ensures forall a :: 0 <= a < mem.Length && OutsideHeaders(hdr.Keys, a) ==> mem[a] == old(mem[a])
    {
      hide IsNext, IsPrev, IsLast, Ends, FreeLinks, BlkLinks, FreeList, AllList, Tiling, HasOffset;
      assert Presents(hdr, chain[k]);
      ghost var h0 := hdr;
      UnFree(blk);
      MatchesFrame(h0, chain, hdr);
      MatchesRelink(hdr, chain, mem.Length, k, 1);
      RelinkTiling(chain, k, 1, BASE, mem.Length);
      hide Matches;
      ghost var h := hdr;
      Put(blk, hdr[blk].(linkCnt := 1));
      chain := chain[k := chain[k].(link := 1)];
      AllListFrame(h, blkHead, blkTail, hdr);
      FreeListFrame(h, frees, freeHead, freeTail, hdr);
    }

    /** Moves the boundary behind allocated block k; never shrinks it. */
    method Stretch(blk: nat, n: nat, ghost k: nat)
      requires Presented() && k + 1 < |chain| && chain[k].off == blk && chain[k].link >= 1 && chain[k + 1].Free()
      requires n + ALIGN <= chain[k].size + chain[k + 1].size
      modifies this`hdr, this`freeHead, this`freeTail, this`blkTail, this`frees, this`chain, mem
      ensures Presented() && chain == if n <= old(chain)[k].size then old(chain) else ShiftAt(old(chain), k, n)
      ensures forall a :: 0 <= a < mem.Length && OutsideHeaders(old(hdr).Keys + hdr.Keys, a) ==> mem[a] == old(mem[a])
    {
      hide IsNext, IsPrev, IsLast, Ends, FreeLinks, BlkLinks, FreeList, AllList, Tiling, HasOffset, ShiftAt;
      ghost var h := hdr;
      Room(chain, BASE, mem.Length, k + 1);
      Room(chain, BASE, mem.Length, k);
      NextBlock(hdr, blkHead, blkTail, chain, mem.Length, k);
      NextBlock(hdr, blkHead, blkTail, chain, mem.Length, k + 1);
      assert Presents(hdr, chain[k]) && Presents(hdr, chain[k + 1]);
      ResizeTo(blk, n);
      if n > chain[k].size {
        MatchesShift(h, chain, mem.Length, k, n, hdr);
        ShiftTiling(chain, k, n, BASE, mem.Length);
        chain := ShiftAt(chain, k, n);
      }
    }

    // -------------------------------------------------------------- the library's calls

    /** smInit: null when the region cannot hold a header and a byte. */
    static method Init(mem: array<byte>) returns (rgn: Region?)
      requires mem.Length < REGION_LIMIT
      modifies mem
      ensures rgn == null <==> mem.Length <= BASE + HDR
      ensures rgn != null ==> fresh(rgn) && rgn.mem == mem && rgn.Valid() && rgn.chain == InitChain(mem.Length) && rgn.Miscount() == 0
    {
      if mem.Length <= BASE + HDR { return null; }
      rgn := new Region(mem);
    }

    constructor (mem: array<byte>)
      requires BASE + HDR < mem.Length < REGION_LIMIT
      modifies mem
      ensures this.mem == mem && Valid() && chain == InitChain(mem.Length) && Miscount() == 0
    {
      this.mem := mem;
      hdr := map[];
      freeHead, freeTail, blkHead, blkTail := BASE, BASE, BASE, BASE;
      allocSize, nBlocks, nAllocBlocks := 0, 1, 0;
      chain, frees := InitChain(mem.Length), {BASE};
      new;
      Put(BASE, Header(0, 0, 0, 0, mem.Length - BASE - HDR, -1));
      assert hdr.Keys == {BASE};
      InitWellFormed(mem.Length);
      SegmentTiling(chain, BASE, mem.Length, false);
      Offset(chain, 0, BASE);
    }

    /** Walks the free list to the first block of at least n bytes. */
    method FindFit(n: nat) returns (blk: nat)
      requires Presented()
      ensures blk == 0 <==> FirstFit(chain, n) == |chain|
      ensures blk != 0 ==> blk == chain[FirstFit(chain, n)].off
    {
      hide IsNext, IsPrev, IsLast, Ends, FreeLinks, BlkLinks, FreeList, AllList, Tiling, Matches;
      FreeWithin(hdr, frees, freeHead, freeTail);
      FirstFree(hdr, frees, freeHead, freeTail);
      blk := freeHead;
      while blk != 0 && hdr[blk].size < n
        invariant blk != 0 ==> blk in frees
        invariant forall o :: o in frees && (blk == 0 || o < blk) ==> hdr[o].size < n
        decreases if blk == 0 then 0 else mem.Length - blk
      {
        NextFreeStep(hdr, frees, freeHead, freeTail, blk);
        blk := hdr[blk].freeNext;
      }
      FirstFitByList(hdr, frees, chain, mem.Length, n, blk);
    }

    /** Splits a free block if enough would be left over; the size goes through an int. */
    method CarveFor(blk: nat, n: nat, ghost k: nat)
      requires Presented() && k < |chain| && chain[k].off == blk && chain[k].Free() && chain[k].size >= n
      requires Splits(chain[k], n) ==> Wrap32(n) >= 0
      modifies this`hdr, this`freeTail, this`blkTail, this`frees, this`nBlocks, this`chain, mem
      ensures Presented() && chain == if Splits(old(chain)[k], n) then SplitAt(old(chain), k, Given(n)) else old(chain)
      ensures old(hdr).Keys <= hdr.Keys
      ensures forall a :: 0 <= a < mem.Length && OutsideHeaders(hdr.Keys, a) ==> mem[a] == old(mem[a])
    {
      hide Linked, Tiling, Matches, OutsideHeaders, SplitAt;
      SizeOf(blk, k);
      if hdr[blk].size - n >= ALIGN + HDR {
        FitsInt(n);
        Carve(blk, Wrap32(n), k);
      }
    }

    /** Takes a free block into use. */
    method Occupy(blk: nat, n: nat, ghost k: nat)
      requires Presented() && k < |chain| && chain[k].off == blk && chain[k].Free() && chain[k].size >= n
      requires Splits(chain[k], n) ==> Wrap32(n) >= 0
      modifies this`hdr, this`freeHead, this`freeTail, this`blkTail, this`frees, this`nBlocks, this`chain, mem
      ensures Presented() && chain == AllocAt(old(chain), k, n) && blk in hdr && hdr[blk].size == chain[k].size
      ensures SameOutside(old(hdr).Keys + hdr.Keys, old(mem[..]), mem[..])
    {
      hide Linked, Tiling, Matches, OutsideHeaders;
      ghost var h := hdr;
      CarveFor(blk, n, k);
      Take(blk, k);
      OutsideFewer(hdr.Keys, h.Keys + hdr.Keys);
    }

    /** Takes a free block into use and counts it. */
    method TakeFit(blk: nat, n: nat, ghost k: nat)
      requires Valid() && k < |chain| && chain[k].off == blk && chain[k].Free() && chain[k].size >= n
      requires Splits(chain[k], n) ==> Wrap32(n) >= 0
      modifies this, mem
      ensures Valid() && Miscount() == old(Miscount())
      ensures chain == AllocAt(old(chain), k, n)
      ensures SameOutside(old(hdr).Keys + hdr.Keys, old(mem[..]), mem[..])
    {
      hide Presented, AllocAt, Segment, Total, SameOutside;
      ghost var c := chain;
      AllocKeeps(c, mem.Length, k, n);
      TotalAlloc(c, k, n, Used);
      TotalAlloc(c, k, n, Bytes);
      Occupy(blk, n, k);
      nAllocBlocks := nAllocBlocks + 1;
      Recounted(allocSize, Total(c, Bytes), hdr[blk].size, hdr[blk].size);
      allocSize := (allocSize + hdr[blk].size) % SIZE_MOD;
    }

    /** smMalloc: null, or the payload of a block of RoundUp(size) bytes, as far as an int holds them. */
    method Malloc(size: nat) returns (ptr: nat)
      requires Valid() && size < SIZE_MOD && SplitFits(chain, RoundUp(size))
      modifies this, mem
      ensures Valid() && Miscount() == old(Miscount())
      ensures Outcome(chain, ptr) == DoMalloc(old(chain), size)
      ensures forall i :: 0 <= i < |old(chain)| && old(chain)[i].link >= 1 ==> Kept(old(chain)[i], old(mem[..]), mem[..])
    {
      hide Linked, Tiling, Matches, Segment, IndexOf, FirstFit, Total, AllocAt, Miscount, SameOutside, Kept, RoundUp;
      var n := RoundUp(size);
      var blk := FindFit(n);
      KeptUntouched(chain, mem.Length, mem[..]);
      if blk == 0 { return 0; }
      ghost var c, h, k := chain, hdr, FirstFit(chain, n);
      TakeFit(blk, n, k);
      ptr := blk + HDR;
      KeptInAlloc(h, c, hdr, chain, mem.Length, k, n, old(mem[..]), mem[..]);
    }

    /** smLinkTo: one more reference to an allocated block; null for a block that is free. The region
        stays valid exactly when the link count does not overflow. */
    method LinkTo(ptr: nat) returns (res: nat)
      requires Valid()
      requires ptr != 0 ==> ptr >= HDR && IndexOf(chain, ptr - HDR) < |chain| && chain[IndexOf(chain, ptr - HDR)].link < INT_LIMIT
      modifies this`hdr, this`chain, mem
      ensures Presented() && Miscount() == old(Miscount())
      ensures Valid() <==> ptr == 0 || old(chain)[IndexOf(old(chain), ptr - HDR)].link != INT_LIMIT - 1
      ensures if ptr == 0 then res == 0 && chain == old(chain) else Outcome(chain, res) == DoLink(old(chain), ptr - HDR)
      ensures forall i :: 0 <= i < |old(chain)| ==> Kept(old(chain)[i], old(mem[..]), mem[..])
    {
      hide Linked, Tiling, Matches, Segment, IndexOf, Total;
      KeptUntouched(chain, mem.Length, mem[..]);
      if ptr == 0 { return 0; }
      var blk := ptr - HDR;
      ghost var c, h, k := chain, hdr, IndexOf(chain, blk);
      SizeOf(blk, k);
      if hdr[blk].linkCnt <= 0 { return 0; }
      ghost var b := c[k].(link := Incremented(c[k].link));
      LinkKeeps(c, mem.Length, k);
      TotalSet(c, k, b, Used);
      TotalSet(c, k, b, Bytes);
      SetCount(blk, k, Incremented(hdr[blk].linkCnt));
      KeptInRelink(h, c, hdr, mem.Length, k, b.link, old(mem[..]), mem[..]);
      return ptr;
    }

    /** The free block k is merged with whatever free neighbours it has. */
    method Coalesce(blk: nat, ghost k: nat)
      requires Presented() && k < |chain| && chain[k].off == blk && chain[k].Free()
      modifies this`hdr, this`freeHead, this`freeTail, this`blkTail, this`frees, this`nBlocks, this`chain, mem
      ensures Presented()
      ensures
        var f := old(chain);
        var g := if k + 1 < |f| && f[k + 1].Free() then CombineAt(f, k) else f;
        chain == if k > 0 && f[k - 1].Free() then CombineAt(g, k - 1) else g
      ensures hdr.Keys <= old(hdr).Keys
      ensures forall a :: 0 <= a < mem.Length && OutsideHeaders(old(hdr).Keys, a) ==> mem[a] == old(mem[a])
    {
      hide IsNext, IsPrev, IsLast, Ends, FreeLinks, BlkLinks, FreeList, AllList, Tiling, Matches, OutsideHeaders;
      ghost var f := chain;
      MergeTests(hdr, frees, freeHead, freeTail, blkHead, blkTail, chain, mem.Length, k);
      ghost var h := hdr;
      if hdr[blk].freeNext != 0 && hdr[blk].freeNext == hdr[blk].blkNext {
        Combine(blk, k);
      }
      assert k > 0 ==> chain[k - 1] == f[k - 1];
      OutsideFewer(hdr.Keys, h.Keys);
      MergeTests(hdr, frees, freeHead, freeTail, blkHead, blkTail, chain, mem.Length, k);
      if hdr[blk].freePrev != 0 && hdr[blk].freePrev == hdr[blk].blkPrev {
        Combine(hdr[blk].freePrev, k - 1);
      }
    }

    /** Frees a block that has one reference left. */
    method FreeLast(blk: nat, ghost k: nat)
      requires Presented() && k < |chain| && chain[k].off == blk && chain[k].link == 1
      modifies this`hdr, this`freeHead, this`freeTail, this`blkTail, this`frees, this`nBlocks, this`chain, mem
      ensures Presented() && chain == ReleaseAt(old(chain), k)
      ensures SameOutside(old(hdr).Keys, old(mem[..]), mem[..]) && hdr.Keys <= old(hdr).Keys
    {
      hide Linked, Tiling, Matches, OutsideHeaders;
      ghost var c := chain;
      SetCount(blk, k, 0);
      Release(blk, k);
      assert chain == c[k := c[k].(link := -1)];
      Coalesce(blk, k);
    }

    /** Takes one reference off a block in use, and frees it if it was the last. */
    method GiveUp(blk: nat, ghost k: nat)
      requires Valid() && k < |chain| && chain[k].off == blk && chain[k].link >= 1
      modifies this, mem
      ensures Valid() && chain == ReleaseAt(old(chain), k)
      ensures Miscount() == (old(Miscount()) + Lost(old(chain)[k])) % SIZE_MOD
      ensures SameOutside(old(hdr).Keys, old(mem[..]), mem[..]) && hdr.Keys <= old(hdr).Keys
    {
      hide Linked, Tiling, Matches, Segment, OutsideHeaders, ReleaseAt, Total, Wrap32;
      ghost var c, x := chain, allocSize;
      SizeOf(blk, k);
      ReleaseKeeps(c, mem.Length, k);
      TotalRelease(c, k, Used);
      TotalRelease(c, k, Bytes);
      if hdr[blk].linkCnt > 1 {
        ReleaseShared(c, k);
        SetCount(blk, k, hdr[blk].linkCnt - 1);
      } else {
        var size := Wrap32(hdr[blk].size);
        FreeLast(blk, k);
        nAllocBlocks := nAllocBlocks - 1;
        allocSize := (allocSize - size) % SIZE_MOD;
        ghost var gone: int := c[k].size;
        Recounted(x, Total(c, Bytes), -size, -gone);
      }
    }

    /** smFree: one reference less; the last one frees the block. */
    method Free(ptr: nat)
      requires Valid()
      requires ptr != 0 ==> ptr >= HDR && IndexOf(chain, ptr - HDR) < |chain|
      modifies this, mem
      ensures Valid()
      ensures chain == if ptr == 0 then old(chain) else DoFree(old(chain), ptr - HDR)
      ensures Miscount() == (old(Miscount()) + if ptr == 0 then 0 else Lost(old(chain)[IndexOf(old(chain), ptr - HDR)])) % SIZE_MOD
      ensures forall i :: 0 <= i < |old(chain)| && old(chain)[i].link >= 1 && (old(chain)[i].off + HDR != ptr || old(chain)[i].link > 1) ==>
                Kept(old(chain)[i], old(mem[..]), mem[..])
    {
      hide Linked, Tiling, Matches, Segment, OutsideHeaders, Kept, ReleaseAt, IndexOf, Total, Miscount, SameOutside;
      KeptUntouched(chain, mem.Length, mem[..]);
      MiscountBelow();
      if ptr == 0 { return; }
      var blk := ptr - HDR;
      ghost var c, h, k := chain, hdr, IndexOf(chain, blk);
      SizeOf(blk, k);
      if hdr[blk].linkCnt <= 0 { return; }
      GiveUp(blk, k);
      assert h.Keys + hdr.Keys == h.Keys;
      KeptInRelease(h, c, hdr, chain, mem.Length, k, old(mem[..]), mem[..]);
      if c[k].link > 1 {
        ReleaseShared(c, k);
        KeptInRelink(h, c, hdr, mem.Length, k, c[k].link - 1, old(mem[..]), mem[..]);
      }
    }

    lemma MiscountBelow()
      ensures Miscount() % SIZE_MOD == Miscount()
    {
    }

    lemma ReleaseShared(c: Chain, k: nat)
      requires k < |c| && c[k].link > 1
      ensures ReleaseAt(c, k) == c[k := c[k].(link := c[k].link - 1)]
    {
    }

    lemma InRegion(k: nat)
      requires Presented() && k < |chain|
      ensures chain[k].End() <= mem.Length
    {
      TilingOrder(chain, BASE, mem.Length);
    }

    /** memcpy between two payloads. */
    method CopyBytes(dst: nat, src: nat, n: nat)
      requires dst + n <= mem.Length && src + n <= mem.Length && (dst + n <= src || src + n <= dst)
      modifies mem
      ensures Copied(old(mem[..]), src, mem[..], dst, n)
      ensures forall a :: 0 <= a < mem.Length && !(dst <= a < dst + n) ==> mem[a] == old(mem[a])
    {
      for j := 0 to n
        invariant Copied(old(mem[..]), src, mem[..], dst, j)
        invariant forall a :: 0 <= a < mem.Length && !(dst <= a < dst + j) ==> mem[a] == old(mem[a])
      {
        mem[dst + j] := mem[src + j];
      }
    }

    /** The part of smRealloc that resizes in place. */
    method Grow(blk: nat, n: nat, ghost k: nat)
      requires Valid() && k < |chain| && chain[k].off == blk && chain[k].link == 1 && !MustMove(chain, k, n)
      modifies this, mem
      ensures Valid() && Miscount() == old(Miscount())
      ensures chain == GrowAt(old(chain), k, n)
      ensures forall i :: 0 <= i < |old(chain)| && old(chain)[i].link >= 1 ==> Kept(old(chain)[i], old(mem[..]), mem[..])
    {
      hide Linked, Tiling, Matches, Segment, OutsideHeaders, Kept, Total;
      ghost var c, h := chain, hdr;
      GrowKeeps(c, mem.Length, k, n);
      TotalGrow(c, k, n, Used);
      TotalGrow(c, k, n, Bytes);
      SizeOf(blk, k);
      NextOf(blk, k);
      var tmp := hdr[blk].blkNext;
      SizeOf(tmp, k + 1);
      var oldSize := hdr[blk].size;
      if n + ALIGN > hdr[blk].size + hdr[tmp].size {
        Combine(blk, k);
      } else {
        Stretch(blk, n, k);
      }
      SizeOf(blk, k);
      Recounted(allocSize, Total(c, Bytes), hdr[blk].size - oldSize, hdr[blk].size - oldSize);
      allocSize := (allocSize + (hdr[blk].size - oldSize)) % SIZE_MOD;
      OutsideFewer(h.Keys, h.Keys + hdr.Keys);
      KeptInGrow(h, c, hdr, chain, mem.Length, k, n, old(mem[..]), mem[..]);
    }

    lemma NextOf(blk: nat, k: nat)
      requires Presented() && k + 1 < |chain| && chain[k].off == blk
      ensures blk in hdr && hdr[blk].blkNext == chain[k + 1].off
    {
      NextBlock(hdr, blkHead, blkTail, chain, mem.Length, k);
    }

    /** The part of smRealloc that moves the contents to a new block. */
    method Move(blk: nat, n: nat, ghost k: nat) returns (res: nat)
      requires Valid() && k < |chain| && chain[k].off == blk && chain[k].link == 1 && RoundUp(n) == n < SIZE_MOD
      requires CopyFits(chain, n, chain[k].size)
      modifies this, mem
      ensures Valid()
      ensures Miscount() == (old(Miscount()) + if res == 0 then 0 else Lost(old(chain)[k])) % SIZE_MOD
      ensures
        var m := DoMalloc(old(chain), n);
        IndexOf(m.chain, blk) < |m.chain| && Outcome(chain, res) == if m.ptr == 0 then m else Outcome(DoFree(m.chain, blk), m.ptr)
      ensures forall i :: 0 <= i < |old(chain)| && i != k && old(chain)[i].link >= 1 ==> Kept(old(chain)[i], old(mem[..]), mem[..])
      ensures res == 0 ==> Kept(old(chain)[k], old(mem[..]), mem[..])
      ensures res != blk + HDR
      ensures res != 0 ==> Copied(old(mem[..]), blk + HDR, mem[..], res, if old(chain)[k].size > n then n else old(chain)[k].size)
    {
      hide Linked, Tiling, Matches, Segment, OutsideHeaders, Kept, AllocAt, Total, Copied, RoundUp, ReleaseAt, IndexOf, FirstFit, Miscount, Wrap32;
      MiscountBelow();
      ghost var c, m0 := chain, mem[..];
      IndexOfAt(k);
      MovedFromStays(c, mem.Length, blk, n);
      if FirstFit(c, n) < |c| { Apart(c, mem.Length, k, FirstFit(c, n)); }
      res := Malloc(n);
      ghost var m1 := mem[..];
      if res == 0 { return; }
      ghost var m, j, i := chain, FirstFit(c, n), IndexOf(chain, blk);
      SizeOf(blk, i);
      Apart(m, mem.Length, i, j);
      var len := if hdr[blk].size > n then n else hdr[blk].size;
      CopyBytes(res, blk + HDR, len);
      ghost var m2 := mem[..];
      Free(blk + HDR);
      KeptInMove(c, m, mem.Length, k, i, j, n, len, m0, m1, m2, mem[..]);
    }

    lemma IndexOfAt(k: nat)
      requires Presented() && k < |chain|
      ensures IndexOf(chain, chain[k].off) == k
    {
      TilingOrder(chain, BASE, mem.Length);
    }

    /** The size and link count found behind a block. Behind the last one that is the region header: it
        has the offset of the first block where a block has its size, and that of the last block where
        a block has its link count. */
    method LookBehind(blk: nat, ghost k: nat) returns (size: nat, cnt: int)
      requires Valid() && k < |chain| && chain[k].off == blk && blk in hdr
      ensures k + 1 < |chain| ==> size == chain[k + 1].size && (cnt >= 0 <==> !chain[k + 1].Free())
      ensures k + 1 == |chain| ==> size == BASE && cnt == Wrap32(blk)
    {
      hide IsNext, IsPrev, IsLast, Ends, FreeLinks, BlkLinks, FreeList, AllList, Tiling, Matches, Segment;
      NextBlock(hdr, blkHead, blkTail, chain, mem.Length, k);
      var next := hdr[blk].blkNext;
      if next != 0 {
        OffsetPositive(k);
        SizeOf(next, k + 1);
        CountOf(k + 1);
        return hdr[next].size, hdr[next].linkCnt;
      }
      BlkNeighbours(hdr, blkHead, blkTail, blk);
      FirstIsHead();
      OffsetPositive(k);
      return blkHead, Wrap32(blkTail);
    }

    lemma OffsetPositive(k: nat)
      requires Presented() && k < |chain|
      ensures k + 1 < |chain| ==> chain[k + 1].off > 0
    {
      TilingOrder(chain, BASE, mem.Length);
    }

    lemma FirstIsHead()
      requires Presented() && chain != []
      ensures blkHead == BASE
    {
      hide IsNext, IsPrev, IsLast, Ends, FreeLinks, BlkLinks, FreeList, AllList, Matches;
      assert chain[0].off == BASE;
      hide Tiling;
      NextBlock(hdr, blkHead, blkTail, chain, mem.Length, 0);
      BlkNeighbours(hdr, blkHead, blkTail, BASE);
    }

    /** smRealloc: only a block with exactly one reference can be resized. */
    method Realloc(ptr: nat, size: nat) returns (res: nat)
      requires Valid() && size < SIZE_MOD
      requires ptr != 0 ==> ptr >= HDR && Callable(chain, Op.Realloc(ptr - HDR, size))
      modifies this, mem
      ensures Valid()
      ensures if ptr == 0 then res == 0 && chain == old(chain) else Outcome(chain, res) == DoRealloc(old(chain), ptr - HDR, size)
      ensures Miscount() == (old(Miscount()) + if res == 0 || res == ptr then 0 else Lost(old(chain)[IndexOf(old(chain), ptr - HDR)])) % SIZE_MOD
      ensures forall i :: 0 <= i < |old(chain)| && old(chain)[i].link >= 1 && (res == 0 || old(chain)[i].off + HDR != ptr) ==>
                Kept(old(chain)[i], old(mem[..]), mem[..])
      ensures res != 0 ==>
        var b := old(chain)[IndexOf(old(chain), ptr - HDR)];
        Copied(old(mem[..]), ptr, mem[..], res, if b.size > RoundUp(size) then RoundUp(size) else b.size)
    {
      hide Linked, Tiling, Matches, Segment, OutsideHeaders, Kept, AllocAt, Total, Copied, RoundUp, ReleaseAt, GrowAt, IndexOf, FirstFit, Miscount, Lost, Wrap32;
      MiscountBelow();
      KeptUntouched(chain, mem.Length, mem[..]);
      if ptr == 0 { return 0; }
      var n, blk := RoundUp(size), ptr - HDR;
      RoundUpCovers(size);
      ghost var c, k := chain, IndexOf(chain, blk);
      SizeOf(blk, k);
      if hdr[blk].linkCnt != 1 { return 0; }
      InRegion(k);
      ghost var kept := if c[k].size > n then n else c[k].size;
      KeptIsCopied(c[k], mem[..], mem[..], kept);
      if n <= hdr[blk].size && n + HDR + ALIGN > hdr[blk].size { return ptr; }
      var nextSize, nextCnt := LookBehind(blk, k);
      if nextCnt >= 0 || n > hdr[blk].size + HDR + nextSize {
        res := Move(blk, n, k);
      } else {
        Grow(blk, n, k);
        KeptIsCopied(c[k], old(mem[..]), mem[..], kept);
        res := ptr;
      }
    }

    lemma CountOf(k: nat)
      requires Valid() && k < |chain|
      ensures chain[k].Free() || chain[k].link >= 1
    {
      SegmentAt(chain, k, mem.Length);
    }

    /** What the library's own consistency check walks the two lists for. */
    lemma VerifyHolds(o: nat)
      requires Valid() && o in hdr
      ensures
        var b := hdr[o];
        && (if b.blkNext == 0 then blkTail == o && o + HDR + b.size == mem.Length
            else b.blkNext in hdr && hdr[b.blkNext].blkPrev == o && o + HDR + b.size == b.blkNext)
        && (if b.blkPrev == 0 then blkHead == o && o == BASE else b.blkPrev in hdr && hdr[b.blkPrev].blkNext == o)
      ensures
        var b := hdr[o];
        b.linkCnt == -1 ==>
        && (if b.freeNext == 0 then freeTail == o else b.freeNext in hdr && hdr[b.freeNext].linkCnt == -1 && hdr[b.freeNext].freePrev == o)
        && (if b.freePrev == 0 then freeHead == o else b.freePrev in hdr && hdr[b.freePrev].linkCnt == -1 && hdr[b.freePrev].freeNext == o)
    {
      hide IsNext, IsPrev, IsLast, Ends, FreeLinks, BlkLinks, FreeList, AllList, Tiling, HasOffset, Segment;
      var k := IndexOfMatch(hdr, chain, o);
      NextBlock(hdr, blkHead, blkTail, chain, mem.Length, k);
      Room(chain, BASE, mem.Length, k);
      BlkNeighbours(hdr, blkHead, blkTail, o);
      BlkInverse(hdr, blkHead, blkTail, o);
      FirstOff(k);
      assert Presents(hdr, chain[k]);
      if hdr[o].linkCnt == -1 {
        FreeNeighbours(hdr, frees, freeHead, freeTail, o);
        FreeInverse(hdr, frees, freeHead, freeTail, o);
      }
    }

    lemma FirstOff(k: nat)
      requires Presented() && k < |chain|
      ensures k == 0 ==> chain[k].off == BASE
      ensures k > 0 ==> chain[k - 1].off > 0
    {
      TilingOrder(chain, BASE, mem.Length);
    }

    lemma SizeOf(blk: nat, k: nat)
      requires Presented() && k < |chain| && chain[k].off == blk
      ensures blk in hdr && hdr[blk].size == chain[k].size && hdr[blk].linkCnt == chain[k].link
    {
      assert Presents(hdr, chain[k]);
    }
  }
}
