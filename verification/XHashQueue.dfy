/**
 * The weighted cache as it runs: a hash table for lookups and a circular,
 * doubly linked queue around a sentinel, newest element first.
 */
module XHashQueue {
  import opened Options
  import opened LruCache
  import XHash

  class Element {
    ghost const id: nat
    const key: Key
    const weight: nat
    var next: Element?
    var prev: Element?
    var linkCnt: int
    var locked: bool
    ghost var stamp: nat

    constructor (key: Key, weight: nat, ghost id: nat, ghost stamp: nat)
      ensures this.key == key && this.weight == weight && this.id == id && this.stamp == stamp
      ensures linkCnt == 1 && !locked && next == null && prev == null
    {
      this.key := key;
      this.weight := weight;
      this.id := id;
      this.stamp := stamp;
      linkCnt := 1;
      locked := false;
      next := null;
      prev := null;
    }

    ghost function ToElem(): Elem
      reads this
    {
      Elem(id, key, weight, linkCnt, locked, stamp)
    }
  }

  ghost function Elems(q: seq<Element>): (es: seq<Elem>)
    ensures |es| == |q|
    ensures forall i :: 0 <= i < |q| ==> es[i] == q[i].ToElem()
    reads q
  {
    if q == [] then [] else [q[0].ToElem()] + Elems(q[1..])
  }

  /** Every element of r points to the next one, and back. */
  ghost predicate Linked(r: seq<Element>)
    reads r`next, r`prev
  {
    forall i :: 0 <= i < |r| - 1 ==> r[i].next == r[i + 1] && r[i + 1].prev == r[i]
  }

  ghost predicate NoTwice(q: seq<Element>, s: Element) {
    && s !in q
    && (forall i, j :: 0 <= i < j < |q| ==> q[i].id != q[j].id)
  }

  /** The queue from the sentinel round to the sentinel. */
  ghost function Ring(s: Element, q: seq<Element>): seq<Element> {
    [s] + q + [s]
  }

  ghost function Less(q: seq<Element>, i: nat): (r: seq<Element>)
    requires i < |q|
    ensures |r| == |q| - 1
    ensures forall j :: 0 <= j < |r| ==> r[j] == q[if j < i then j else j + 1]
  {
    q[..i] + q[i + 1..]
  }

  /** The ring's links, position by position. */
  lemma RingAt(s: Element, q: seq<Element>, i: nat)
    requires Linked(Ring(s, q)) && i < |q|
    ensures q[i].prev == (if i == 0 then s else q[i - 1]) && q[i].next == (if i == |q| - 1 then s else q[i + 1])
  {
    var r := Ring(s, q);
    assert r[i + 1] == q[i];
    assert r[i].next == r[i + 1] && r[i + 1].prev == r[i];
    var k := i + 1;
    assert r[k].next == r[k + 1];
  }

  lemma RingEnds(s: Element, q: seq<Element>)
    requires Linked(Ring(s, q))
    ensures s.next == (if q == [] then s else q[0]) && s.prev == (if q == [] then s else q[|q| - 1])
    ensures q != [] ==> q[0].prev == s && q[|q| - 1].next == s
  {
    var r, k := Ring(s, q), |q|;
    assert r[0].next == r[1];
    assert r[k].next == r[k + 1] && r[k + 1].prev == r[k];
  }

  /** Links that a change leaves alone. */
  lemma RingFrom(s: Element, q: seq<Element>)
    requires if q == [] then s.next == s && s.prev == s
             else s.next == q[0] && q[0].prev == s && s.prev == q[|q| - 1] && q[|q| - 1].next == s
    requires forall i :: 0 <= i < |q| - 1 ==> q[i].next == q[i + 1] && q[i + 1].prev == q[i]
    ensures Linked(Ring(s, q))
  {
    var r := Ring(s, q);
    forall i | 0 <= i < |r| - 1
      ensures r[i].next == r[i + 1] && r[i + 1].prev == r[i]
    {
      if 0 < i < |q| {
        var k := i - 1;
        assert q[k].next == q[k + 1];
      }
    }
  }

  /** Takes an element out of the ring: its neighbours are joined. */
  method Unhook(xe: Element, ghost s: Element, ghost q: seq<Element>, ghost i: nat)
    requires Linked(Ring(s, q)) && NoTwice(q, s) && i < |q| && q[i] == xe
    modifies q`next, q`prev, s`next, s`prev
    ensures Linked(Ring(s, Less(q, i)))
  {
    RingAt(s, q, i);
    RingEnds(s, q);
    ghost var rest := Less(q, i);
    forall j | 0 <= j < |q| - 1
      ensures q[j].next == q[j + 1] && q[j + 1].prev == q[j]
    {
      RingAt(s, q, j);
      RingAt(s, q, j + 1);
    }
    xe.next.prev := xe.prev;
    xe.prev.next := xe.next;
    RingFrom(s, rest);
  }

  /** Puts an element at the head of the ring. */
  method Hook(xe: Element, s: Element, ghost q: seq<Element>)
    requires Linked(Ring(s, q)) && NoTwice(q, s) && xe !in q && xe != s
    modifies xe`next, xe`prev, q`next, q`prev, s`next, s`prev
    ensures Linked(Ring(s, [xe] + q))
  {
    RingEnds(s, q);
    forall j | 0 <= j < |q| - 1
      ensures q[j].next == q[j + 1] && q[j + 1].prev == q[j]
    {
      RingAt(s, q, j);
      RingAt(s, q, j + 1);
    }
    xe.next := s.next;
    xe.prev := s;
    xe.next.prev := xe;
    s.next := xe;
    RingFrom(s, [xe] + q);
  }

  ghost function TableIds(m: map<Key, Element>): (t: map<Key, nat>)
    ensures t.Keys == m.Keys
    ensures forall k :: k in m ==> t[k] == m[k].id
  {
    map k | k in m :: m[k].id
  }

  /** The table points into the queue, under each element's own key. */
  ghost predicate PointsInto(m: map<Key, Element>, q: seq<Element>) {
    forall k :: k in m ==> m[k] in q && m[k].key == k
  }

  lemma IndexIs(q: seq<Element>, s: Element, i: nat)
    requires NoTwice(q, s) && i < |q|
    ensures IndexOf(Elems(q), q[i].id) == i
  {
    hide IndexOf, Elems;
    var es := Elems(q);
    var j := IndexOf(es, q[i].id);
    assert es[i].id == q[i].id;
    assert j < |es| ==> es[j].id == q[j].id;
  }

  lemma OthersApart(q: seq<Element>, s: Element, i: nat)
    requires i < |q| && NoTwice(q, s)
    ensures forall j :: 0 <= j < |q| && j != i ==> q[j] != q[i]
  {
  }

  lemma UnlinkAt(c: Cache, id: nat, i: nat)
    requires i < |c.queue| && IndexOf(c.queue, id) == i
    ensures var e := c.queue[i];
            Unlink(c, id) ==
            Cache([e.(links := e.links - 1, stamp := c.clock)] + Without(c.queue, i), c.table, c.num, c.max, c.clock + 1)
  {
  }

  lemma WithLinksAt(c: Cache, id: nat, n: int, i: nat)
    requires Has(c, id) && IndexOf(c.queue, id) == i
    ensures WithLinks(c, id, n) == Cache(c.queue[i := c.queue[i].(links := c.queue[i].links + n)], c.table, c.num, c.max, c.clock)
  {
  }

  lemma WithLockAt(c: Cache, id: nat, b: bool, i: nat)
    requires Has(c, id) && IndexOf(c.queue, id) == i
    ensures WithLock(c, id, b) == Cache(c.queue[i := c.queue[i].(locked := b)], c.table, c.num, c.max, c.clock)
  {
  }

  /** Element values, known from before, after the one at i changed its own fields. */
  lemma ElemsUpdated(q: seq<Element>, i: nat, before: seq<Elem>)
    requires i < |q| == |before|
    requires forall j :: 0 <= j < |q| && j != i ==> q[j].ToElem() == before[j]
    ensures Elems(q) == before[i := q[i].ToElem()]
  {
  }

  lemma ElemsSame(q: seq<Element>, before: seq<Elem>)
    requires |q| == |before|
    requires forall j :: 0 <= j < |q| ==> q[j].ToElem() == before[j]
    ensures Elems(q) == before
  {
  }

  lemma ElemsCons(xe: Element, q: seq<Element>)
    ensures Elems([xe] + q) == [xe.ToElem()] + Elems(q)
  {
  }

  lemma ElemsLess(q: seq<Element>, i: nat)
    requires i < |q|
    ensures Elems(Less(q, i)) == Without(Elems(q), i)
  {
    WithoutAt(Elems(q), i);
  }

  lemma LessKeeps(q: seq<Element>, s: Element, i: nat, m: map<Key, Element>)
    requires i < |q| && NoTwice(q, s) && PointsInto(m, q)
    ensures NoTwice(Less(q, i), s) && PointsInto(m - {q[i].key}, Less(q, i))
  {
    var r := Less(q, i);
    forall k | k in m - {q[i].key}
      ensures m[k] in r
    {
      var j :| 0 <= j < |q| && q[j] == m[k];
      assert r[if j < i then j else j - 1] == m[k];
    }
  }

  /** Moving an element to the head keeps the queue's elements. */
  lemma RotateKeeps(q: seq<Element>, s: Element, i: nat, m: map<Key, Element>)
    requires i < |q| && NoTwice(q, s) && PointsInto(m, q)
    ensures NoTwice([q[i]] + Less(q, i), s) && PointsInto(m, [q[i]] + Less(q, i)) && q[i] !in Less(q, i) && q[i] != s
  {
    var r := [q[i]] + Less(q, i);
    forall k | k in m
      ensures m[k] in r
    {
      var j :| 0 <= j < |q| && q[j] == m[k];
      assert r[if j == i then 0 else if j < i then j + 1 else j] == m[k];
    }
  }

  /** The element the sentinel points to is the first. */
  lemma HeadIs(q: seq<Element>, s: Element, i: nat)
    requires i < |q| && NoTwice(q, s) && Linked(Ring(s, q)) && s.next == q[i]
    ensures i == 0 && [q[i]] + Less(q, i) == q && Elems(q) == [q[i].ToElem()] + Without(Elems(q), i)
  {
    hide Linked, Ring;
    RingEnds(s, q);
    OthersApart(q, s, 0);
    assert q[0] == q[i];
    assert Less(q, 0) == q[1..];
    assert Without(Elems(q), 0) == Elems(q)[1..];
  }

  lemma IdsChange(m: map<Key, Element>, xe: Element)
    ensures TableIds(m - {xe.key}) == TableIds(m) - {xe.key}
    ensures TableIds((m - {xe.key})[xe.key := xe]) == (TableIds(m) - {xe.key})[xe.key := xe.id]
  {
  }

  /** A new element may join the queue and the table. */
  lemma Joins(q: seq<Element>, s: Element, xe: Element, m: map<Key, Element>)
    requires NoTwice(q, s) && PointsInto(m, q) && xe != s && forall e :: e in q ==> e.id != xe.id
    ensures NoTwice([xe] + q, s) && PointsInto(m[xe.key := xe], [xe] + q)
  {
  }

  lemma IdsAdd(m: map<Key, Element>, xe: Element)
    ensures TableIds(m[xe.key := xe]) == TableIds(m)[xe.key := xe.id]
  {
  }

  class HashQueue {
    const table: XHash.HashTable<Element>
    const sentinel: Element
    var numElements: int
    var maxElements: int
    ghost var queue: seq<Element>
    ghost var clock: nat

    ghost predicate Valid()
      reads this, sentinel, queue, table, table.rows
    {
      && table.Valid()
      && NoTwice(queue, sentinel)
      && Linked(Ring(sentinel, queue))
      && PointsInto(table.contents, queue)
    }

    ghost function Abstract(): (c: Cache)
      ensures |c.queue| == |queue|
      reads this, queue, table
    {
      Cache(Elems(queue), TableIds(table.contents), numElements, maxElements, clock)
    }

    constructor (maxCnt: int, size: nat, random: seq<nat>)
      requires size > 0 && |random| == 256
      ensures Valid() && fresh(table) && fresh(table.rows) && fresh(sentinel)
      ensures Abstract() == Cache([], map[], 0, maxCnt, 0)
    {
      table := new XHash.HashTable(size, random);
      var s := new Element([], 0, 0, 0);
      sentinel := s;
      numElements := 0;
      maxElements := maxCnt;
      queue := [];
      clock := 0;
      new;
      s.next := s;
      s.prev := s;
    }

    /** Counts one more reference to an element. */
    method Link(item: Element, ghost i: nat)
      requires Valid() && i < |queue| && queue[i] == item
      modifies item`linkCnt
      ensures Valid() && queue == old(queue)
      ensures Abstract() == WithLinks(old(Abstract()), item.id, 1)
      ensures item.linkCnt == old(item.linkCnt) + 1
    {
      hide WithLinks, IndexOf, TableIds, Linked, PointsInto, NoTwice;
      ghost var c := Abstract();
      IndexIs(queue, sentinel, i);
      OthersApart(queue, sentinel, i);
      WithLinksAt(c, item.id, 1, i);
      item.linkCnt := item.linkCnt + 1;
      ElemsUpdated(queue, i, c.queue);
      assert Elems(queue) == c.queue[i := c.queue[i].(links := c.queue[i].links + 1)];
    }

    /** Gives up a reference to an element, which moves to the head of the queue. */
    method Unlink(item: Element, ghost i: nat)
      requires Valid() && i < |queue| && queue[i] == item
      modifies this`queue, this`clock, item`linkCnt, item`stamp, queue`next, queue`prev, sentinel`next, sentinel`prev
      ensures Valid() && queue == [item] + Less(old(queue), i)
      ensures Abstract() == LruCache.Unlink(old(Abstract()), item.id)
    {
      hide *;
      AbstractIs();
      NoneTwice();
      IndexIs(queue, sentinel, i);
      UnlinkAt(Abstract(), item.id, i);
      ghost var e, rest := item.ToElem(), Without(Elems(queue), i);
      EnQueue(item, i);
      Release(item);
      AbstractIs();
      assert ([e] + rest)[0 := item.ToElem()] == [item.ToElem()] + rest;
    }

    lemma NoneTwice()
      requires Valid()
      ensures NoTwice(queue, sentinel)
    {
    }

    /** One reference less to the element at the head, which is the last one unlinked. */
    method Release(item: Element)
      requires Valid() && queue != [] && queue[0] == item
      modifies item`linkCnt, item`stamp, this`clock
      ensures Valid() && queue == old(queue) && clock == old(clock) + 1
      ensures item.ToElem() == old(item.ToElem().(links := item.ToElem().links - 1, stamp := clock))
      ensures Elems(queue) == old(Elems(queue))[0 := item.ToElem()]
    {
      hide TableIds, Linked, PointsInto, NoTwice;
      ghost var es := Elems(queue);
      OthersApart(queue, sentinel, 0);
      item.linkCnt := item.linkCnt - 1;
      item.stamp := clock;
      clock := clock + 1;
      ElemsUpdated(queue, 0, es);
    }

    method LockItem(item: Element, lock: bool, ghost i: nat)
      requires Valid() && i < |queue| && queue[i] == item
      modifies item`locked
      ensures Valid() && queue == old(queue)
      ensures Abstract() == WithLock(old(Abstract()), item.id, lock)
      ensures item.locked == lock
    {
      hide WithLock, IndexOf, TableIds, Linked, PointsInto, NoTwice;
      ghost var c := Abstract();
      IndexIs(queue, sentinel, i);
      OthersApart(queue, sentinel, i);
      WithLockAt(c, item.id, lock, i);
      item.locked := lock;
      ElemsUpdated(queue, i, c.queue);
      assert Elems(queue) == c.queue[i := c.queue[i].(locked := lock)];
    }

    /** Finds an element by its key and counts a reference to it. */
    method Lookup(key: Key) returns (xe: Element?)
      requires Valid()
      modifies queue`linkCnt
      ensures Valid() && queue == old(queue)
      ensures xe != null <==> key in old(Abstract()).table
      ensures xe != null ==> xe in queue && xe.key == key
      ensures Abstract() == if xe == null then old(Abstract()) else WithLinks(old(Abstract()), old(Abstract()).table[key], 1)
    {
      var r := table.Lookup(key);
      if r.None? {
        return null;
      }
      xe := r.value;
      ghost var i :| 0 <= i < |queue| && queue[i] == xe;
      Link(xe, i);
    }

    /** Puts an element of the queue at its head, unless it is there already. */
    method EnQueue(xe: Element, ghost i: nat)
      requires Valid() && i < |queue| && queue[i] == xe
      modifies this`queue, queue`next, queue`prev, sentinel`next, sentinel`prev
      ensures Valid() && queue == [xe] + Less(old(queue), i)
      ensures Elems(queue) == [xe.ToElem()] + Without(old(Elems(queue)), i)
      ensures xe.ToElem() == old(xe.ToElem())
    {
      hide Without, Elems, Linked, PointsInto, NoTwice, Less;
      ghost var q := queue;
      RotateKeeps(q, sentinel, i, table.contents);
      Rotate(xe, i);
      queue := [xe] + Less(q, i);
    }

    /** The links of EnQueue. */
    method Rotate(xe: Element, ghost i: nat)
      requires Linked(Ring(sentinel, queue)) && NoTwice(queue, sentinel) && i < |queue| && queue[i] == xe
      modifies queue`next, queue`prev, sentinel`next, sentinel`prev
      ensures Linked(Ring(sentinel, [xe] + Less(queue, i)))
      ensures Elems([xe] + Less(queue, i)) == [xe.ToElem()] + Without(old(Elems(queue)), i)
      ensures xe.ToElem() == old(xe.ToElem())
    {
      hide Without, Elems, Linked, NoTwice;
      ghost var q, es := queue, Elems(queue);
      RingEnds(sentinel, q);
      RotateKeeps(q, sentinel, i, map[]);
      LessKeeps(q, sentinel, i, map[]);
      ElemsLess(q, i);
      if sentinel.next == xe {
        HeadIs(q, sentinel, i);
        return;
      }
      Unhook(xe, sentinel, q, i);
      Hook(xe, sentinel, Less(q, i));
      ElemsSame(Less(q, i), Without(es, i));
      ElemsCons(xe, Less(q, i));
    }

    /** Frees an element that has left the table: out of the ring, and its weight with it. */
    method Drop(xe: Element, ghost i: nat)
      requires Valid() && i < |queue| && queue[i] == xe && xe.key !in table.contents
      modifies this`queue, this`numElements, queue`next, queue`prev, sentinel`next, sentinel`prev
      ensures Valid() && queue == Less(old(queue), i)
      ensures Elems(queue) == Without(old(Elems(queue)), i) && numElements == old(numElements) - xe.weight
    {
      hide Without, Elems, Linked, PointsInto, NoTwice, Less;
      ghost var q, es := queue, Elems(queue);
      LessKeeps(q, sentinel, i, table.contents);
      ElemsLess(q, i);
      assert table.contents - {xe.key} == table.contents;
      Unhook(xe, sentinel, q, i);
      queue := Less(q, i);
      ElemsSame(queue, Without(es, i));
      numElements := numElements - xe.weight;
    }

    /** Puts an element back into the table after the callback refused to let it go. */
    method Readmit(xe: Element, ghost i: nat)
      requires Valid() && i < |queue| && queue[i] == xe && xe.key !in table.contents
      modifies table, table.rows
      ensures Valid() && table.contents == old(table.contents)[xe.key := xe]
    {
      hide Linked, NoTwice;
      var ok := table.Add(xe.key, xe);
    }

    /** Takes an element out of the table alone. */
    method TakeOut(xe: Element)
      requires Valid()
      modifies table, table.rows
      ensures Valid() && table.contents == old(table.contents) - {xe.key}
    {
      hide Linked, NoTwice;
      var found := table.Remove(xe.key);
    }

    /** Takes an element out of the table, and puts it back if there is a callback and it refuses. */
    method Ask(xe: Element, ghost i: nat, round: nat, fn: DiscardFn) returns (gone: bool)
      requires Valid() && i < |queue| && queue[i] == xe
      modifies table, table.rows
      ensures Valid()
      ensures gone <==> if fn.Fn? then fn.ask(round, xe.key, xe.locked) else !xe.locked
      ensures table.contents == if !gone && fn.Fn? then (old(table.contents) - {xe.key})[xe.key := xe]
                                else old(table.contents) - {xe.key}
    {
      hide Linked, NoTwice, Ring, PointsInto;
      TakeOut(xe);
      if fn.Fn? && !fn.ask(round, xe.key, xe.locked) {
        Readmit(xe, i);
        return false;
      }
      gone := fn.Fn? || !xe.locked;
    }

    /** One step of the walk: an element nobody holds is asked for, and freed if it may go. */
    method TryOne(xe: Element, ghost i: nat, round: nat, fn: DiscardFn) returns (gone: bool)
      requires Valid() && i < |queue| && queue[i] == xe
      modifies this`queue, this`numElements, queue`next, queue`prev, sentinel`next, sentinel`prev, table, table.rows
      ensures Valid()
      ensures if gone then queue == Less(old(queue), i) else unchanged(this) && unchanged(queue) && unchanged(sentinel)
      ensures gone ==> (Abstract(), true) == Scan(old(Abstract()), i, round, fn)
      ensures !gone ==> Scan(Abstract(), i - 1, round, fn) == Scan(old(Abstract()), i, round, fn)
    {
      hide Without, Elems, Linked, NoTwice, TableIds, Scan, Evictable, Released, Refused, Ring, PointsInto, Less;
      ScanStep(Abstract(), i, round, fn);
      if xe.linkCnt != 0 {
        return false;
      }
      StepFacts(xe, i, round, fn);
      gone := Ask(xe, i, round, fn);
      if gone {
        Drop(xe, i);
      }
    }

    /** Walks the queue from its tail for one element to discard. */
    method DiscardOne(round: nat, fn: DiscardFn) returns (ok: bool)
      requires Valid()
      modifies this`queue, this`numElements, queue`next, queue`prev, sentinel`next, sentinel`prev, table, table.rows
      ensures Valid()
      ensures (Abstract(), ok) == LruCache.DiscardOne(old(Abstract()), round, fn)
      ensures forall j :: 0 <= j < |queue| ==> queue[j] in old(queue)
    {
      hide Without, Elems, Linked, NoTwice, TableIds, Scan, Evictable, Released, Refused, Ring, PointsInto, Abstract, Valid;
      ghost var q, c := queue, Abstract();
      ghost var i := |q| - 1;
      Neighbours();
      var xe := sentinel.prev;
      while xe != sentinel
        invariant -1 <= i < |q| && queue == q && Valid()
        invariant xe == if i >= 0 then q[i] else sentinel
        invariant unchanged(q) && unchanged(sentinel) && unchanged(this)
        invariant Scan(Abstract(), i, round, fn) == Scan(c, |q| - 1, round, fn)
        decreases i
      {
        ok := TryOne(xe, i, round, fn);
        if ok {
          return;
        }
        Neighbours();
        assert queue[i].prev == if i == 0 then sentinel else queue[i - 1];
        xe := xe.prev;
        assert xe == if i == 0 then sentinel else q[i - 1];
        i := i - 1;
      }
      ScanEnd(Abstract(), i, round, fn);
      ok := false;
    }

    /** The backward links, and where they end. */
    lemma Neighbours()
      requires Valid()
      ensures forall i :: 0 <= i < |queue| ==> queue[i] != sentinel
      ensures forall i :: 0 <= i < |queue| ==> queue[i].prev == if i == 0 then sentinel else queue[i - 1]
      ensures sentinel.prev == if queue == [] then sentinel else queue[|queue| - 1]
    {
      hide Linked, Ring;
      RingEnds(sentinel, queue);
      forall i | 0 <= i < |queue|
        ensures queue[i].prev == if i == 0 then sentinel else queue[i - 1]
      {
        RingAt(sentinel, queue, i);
      }
    }

    /** The scan's two outcomes for an unheld element, in terms of the parts. */
    lemma StepFacts(xe: Element, i: nat, round: nat, fn: DiscardFn)
      requires Valid() && i < |queue| && queue[i] == xe
      ensures xe.linkCnt == 0 ==>
                (Evictable(Elems(queue)[i], round, fn) <==> if fn.Fn? then fn.ask(round, xe.key, xe.locked) else !xe.locked)
      ensures Released(Abstract(), i) ==
              Cache(Without(Elems(queue), i), TableIds(table.contents - {xe.key}), numElements - xe.weight, maxElements, clock)
      ensures Refused(Abstract(), i, fn) ==
              Cache(Elems(queue),
                    TableIds(if fn.Fn? then (table.contents - {xe.key})[xe.key := xe] else table.contents - {xe.key}),
                    numElements, maxElements, clock)
    {
      hide Linked, NoTwice, TableIds, Without;
      IdsChange(table.contents, xe);
    }

    /** Discards until the new weight fits, or nothing more can go. */
    method MakeRoom(weight: nat, fn: DiscardFn) returns (ok: bool)
      requires Valid()
      modifies this`queue, this`numElements, queue`next, queue`prev, sentinel`next, sentinel`prev, table, table.rows
      ensures Valid()
      ensures (Abstract(), ok) == LruCache.MakeRoom(old(Abstract()), weight, 0, fn)
      ensures forall j :: 0 <= j < |queue| ==> queue[j] in old(queue)
    {
      hide *;
      ghost var c := Abstract();
      AbstractIs();
      ghost var q := queue;
      var round := 0;
      ok := true;
      while numElements + weight > maxElements && ok
        invariant Valid()
        invariant forall j :: 0 <= j < |queue| ==> queue[j] in q
        invariant if ok then LruCache.MakeRoom(Abstract(), weight, round, fn) == LruCache.MakeRoom(c, weight, 0, fn)
                  else (Abstract(), false) == LruCache.MakeRoom(c, weight, 0, fn)
        decreases ok, |queue|
      {
        AbstractIs();
        MakeRoomStep(Abstract(), weight, round, fn);
        DiscardShrinks(Abstract(), round, fn);
        ok := DiscardOne(round, fn);
        round := round + 1;
      }
      AbstractIs();
      MakeRoomStep(Abstract(), weight, round, fn);
    }

    /**
     * Adds an element under a new key, making room for its weight first; the
     * caller gets the one reference to it, or null when there is no room or
     * the key is taken.
     */
    method Add(key: Key, weight: nat, fn: DiscardFn, ghost id: nat) returns (xe: Element?)
      requires Valid() && !Has(Abstract(), id)
      modifies this, queue, sentinel, table, table.rows
      ensures Valid()
      ensures (Abstract(), xe != null) == LruCache.Add(old(Abstract()), key, id, weight, fn)
      ensures xe != null ==> fresh(xe) && queue != [] && queue[0] == xe
    {
      hide Elems, Linked, TableIds, LruCache.MakeRoom, Ring, PointsInto, NoTwice;
      var w := if weight == 0 then 1 else weight;
      ghost var q := queue;
      NewId(id);
      var ok := MakeRoom(w, fn);
      if !ok {
        return null;
      }
      xe := new Element(key, w, id, clock);
      ok := Insert(xe);
      if !ok {
        xe := null;
      }
    }

    /** Puts a new element into the table and at the head of the queue, unless its key is taken. */
    method Insert(xe: Element) returns (ok: bool)
      requires Valid() && xe !in queue && xe != sentinel && forall e :: e in queue ==> e.id != xe.id
      requires xe.stamp == clock
      modifies this`queue, this`clock, this`numElements, xe`next, xe`prev, queue`next, queue`prev, sentinel`next, sentinel`prev, table, table.rows
      ensures Valid()
      ensures ok <==> xe.key !in old(Abstract()).table
      ensures !ok ==> Abstract() == old(Abstract())
      ensures ok ==> queue == [xe] + old(queue)
      ensures ok ==> Abstract() == Inserted(old(Abstract()), old(xe.ToElem()))
    {
      hide Elems, TableIds, PointsInto, NoTwice, Linked, Ring, Abstract, Inserted, XHash.HashTable.Valid;
      ghost var m, c, e := table.contents, Abstract(), xe.ToElem();
      AbstractIs();
      IdsAdd(m, xe);
      Joins(queue, sentinel, xe, m);
      ok := AddToTable(xe);
      if !ok {
        AbstractIs();
        return;
      }
      EnQueueNew(xe);
      numElements := numElements + xe.weight;
      clock := clock + 1;
      InsertedIs(c, e);
      AbstractIs();
    }

    static lemma InsertedIs(c: Cache, e: Elem)
      ensures Inserted(c, e) == Cache([e] + c.queue, c.table[e.key := e.id], c.num + e.weight, c.max, c.clock + 1)
    {
    }

    method AddToTable(xe: Element) returns (ok: bool)
      requires Valid()
      modifies table, table.rows
      ensures table.Valid() && Linked(Ring(sentinel, queue))
      ensures ok <==> xe.key !in old(table.contents)
      ensures table.contents == if ok then old(table.contents)[xe.key := xe] else old(table.contents)
    {
      hide Linked, NoTwice, PointsInto;
      ok := table.Add(xe.key, xe);
    }

    /** Puts an element that is not in the queue at its head. */
    method EnQueueNew(xe: Element)
      requires Linked(Ring(sentinel, queue)) && NoTwice(queue, sentinel) && xe !in queue && xe != sentinel
      modifies this`queue, xe`next, xe`prev, queue`next, queue`prev, sentinel`next, sentinel`prev
      ensures queue == [xe] + old(queue) && Linked(Ring(sentinel, queue))
      ensures Elems(queue) == [old(xe.ToElem())] + old(Elems(queue))
    {
      hide Elems, Linked, Ring, NoTwice;
      ghost var q, es := queue, Elems(queue);
      Hook(xe, sentinel, q);
      queue := [xe] + q;
      ElemsSame(q, es);
      ElemsCons(xe, q);
    }

    lemma NewId(id: nat)
      requires Valid() && !Has(Abstract(), id)
      ensures forall e :: e in queue ==> e.id != id
    {
      forall e | e in queue
        ensures e.id != id
      {
        var i :| 0 <= i < |queue| && queue[i] == e;
        assert Abstract().queue[i].id == e.id;
      }
    }

    /** Removes an element whose last reference the caller holds. */
    method Remove(item: Element, noCall: bool, fn: DiscardFn, ghost i: nat) returns (ok: bool)
      requires Valid() && i < |queue| && queue[i] == item
      modifies this`queue, this`numElements, queue`next, queue`prev, sentinel`next, sentinel`prev, table, table.rows
      ensures Valid()
      ensures (Abstract(), ok) == LruCache.Remove(old(Abstract()), item.id, noCall, fn)
    {
      hide *;
      RemoveFacts(item, noCall, fn, i);
      if item.linkCnt != 1 {
        return false;
      }
      TakeOut(item);
      if if !noCall && fn.Fn? then !fn.ask(0, item.key, item.locked) else item.locked {
        Readmit(item, i);
        AbstractIs();
        return false;
      }
      Drop(item, i);
      AbstractIs();
      ok := true;
    }

    lemma AbstractIs()
      ensures Abstract() == Cache(Elems(queue), TableIds(table.contents), numElements, maxElements, clock)
    {
    }

    /** The outcomes of a removal, in terms of the parts. */
    lemma RemoveFacts(item: Element, noCall: bool, fn: DiscardFn, i: nat)
      requires Valid() && i < |queue| && queue[i] == item
      ensures Has(Abstract(), item.id)
      ensures LruCache.Remove(Abstract(), item.id, noCall, fn) ==
              var m := table.contents - {item.key};
              if item.linkCnt != 1 then (Abstract(), false)
              else if (if !noCall && fn.Fn? then !fn.ask(0, item.key, item.locked) else item.locked)
              then (Cache(Elems(queue), TableIds(m[item.key := item]), numElements, maxElements, clock), false)
              else (Cache(Without(Elems(queue), i), TableIds(m), numElements - item.weight, maxElements, clock), true)
    {
      hide Linked, TableIds, Ring, Without, LruCache.Remove, NoTwice, PointsInto, IndexOf, Elems;
      IndexIs(queue, sentinel, i);
      RemoveAt(Abstract(), item.id, noCall, fn, i);
      IdsChange(table.contents, item);
    }
  }
}
