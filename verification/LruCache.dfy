/**
 * The hash queue as a value: a table for lookups and a queue, newest first,
 * for choosing what to discard. The linked structures are in XHashQueue.
 */
module LruCache {

  type Key = seq<bv8>

  /** One element; stamp is when it was last added or unlinked, which the program does not store. */
  datatype Elem = Elem(id: nat, key: Key, weight: nat, links: int, locked: bool, stamp: nat)

  datatype Cache = Cache(queue: seq<Elem>, table: map<Key, nat>, num: int, max: int, clock: nat)

  /** The discard callback, if there is one: in a given round of questions, whether it lets an element go, locked or not. */
  datatype DiscardFn = NoFn | Fn(ask: (nat, Key, bool) -> bool)

  function Total(q: seq<Elem>): nat {
    if q == [] then 0 else q[0].weight + Total(q[1..])
  }

  function Without(q: seq<Elem>, i: nat): seq<Elem>
    requires i < |q|
  {
    q[..i] + q[i + 1..]
  }

  // ------------------------------------------------------------------ operations

  /** Looks for an element to discard from position i toward the head; the element under consideration is out of the table meanwhile. */
  function Scan(c: Cache, i: int, round: nat, fn: DiscardFn): (Cache, bool)
    requires i < |c.queue|
    decreases i
  {
    if i < 0 then (c, false)
    else
      var e := c.queue[i];
      if e.links != 0 then Scan(c, i - 1, round, fn)
      else
        var t := c.table - {e.key};
        if fn.Fn? && !fn.ask(round, e.key, e.locked) then Scan(c.(table := t[e.key := e.id]), i - 1, round, fn)
        else if fn.Fn? || !e.locked
        then (c.(table := t, queue := Without(c.queue, i), num := c.num - e.weight), true)
        else Scan(c.(table := t), i - 1, round, fn)
  }

  /** One step of the scan, case by case. */
  lemma ScanStep(c: Cache, i: nat, round: nat, fn: DiscardFn)
    requires i < |c.queue|
    ensures var e := c.queue[i];
            Scan(c, i, round, fn) ==
            if e.links != 0 then Scan(c, i - 1, round, fn)
            else if Evictable(e, round, fn) then (Released(c, i), true)
            else Scan(Refused(c, i, fn), i - 1, round, fn)
  {
  }

  lemma ScanEnd(c: Cache, i: int, round: nat, fn: DiscardFn)
    requires i < 0
    ensures Scan(c, i, round, fn) == (c, false)
  {
  }

  /** An element gone from table and queue. */
  function Released(c: Cache, i: nat): Cache
    requires i < |c.queue|
  {
    Cache(Without(c.queue, i), c.table - {c.queue[i].key}, c.num - c.queue[i].weight, c.max, c.clock)
  }

  /** An element that stays: it returns to the table only if there was a callback to refuse. */
  function Refused(c: Cache, i: nat, fn: DiscardFn): Cache
    requires i < |c.queue|
  {
    var e := c.queue[i];
    var t := c.table - {e.key};
    Cache(c.queue, if fn.Fn? then t[e.key := e.id] else t, c.num, c.max, c.clock)
  }

  function DiscardOne(c: Cache, round: nat, fn: DiscardFn): (Cache, bool) {
    Scan(c, |c.queue| - 1, round, fn)
  }

  lemma {:induction false} ScanShrinks(c: Cache, i: int, round: nat, fn: DiscardFn)
    requires i < |c.queue|
    ensures var (d, ok) := Scan(c, i, round, fn);
            && (ok ==> |d.queue| == |c.queue| - 1)
            && (!ok ==> d.queue == c.queue && d.num == c.num)
            && d.max == c.max && d.clock == c.clock
    decreases i
  {
    if i >= 0 {
      var e := c.queue[i];
      var t := c.table - {e.key};
      ScanShrinks(c, i - 1, round, fn);
      ScanShrinks(c.(table := t[e.key := e.id]), i - 1, round, fn);
      ScanShrinks(c.(table := t), i - 1, round, fn);
    }
  }

  lemma DiscardShrinks(c: Cache, round: nat, fn: DiscardFn)
    ensures var (d, ok) := DiscardOne(c, round, fn);
            && (ok ==> |d.queue| == |c.queue| - 1)
            && (!ok ==> d.queue == c.queue && d.num == c.num)
            && d.max == c.max && d.clock == c.clock
  {
    ScanShrinks(c, |c.queue| - 1, round, fn);
  }

  /** Discards until the new weight fits, or nothing more can go. */
  function MakeRoom(c: Cache, weight: nat, round: nat, fn: DiscardFn): (Cache, bool)
    decreases |c.queue|
  {
    if c.num + weight <= c.max then (c, true)
    else
      var (d, ok) := DiscardOne(c, round, fn);
      DiscardShrinks(c, round, fn);
      if ok then MakeRoom(d, weight, round + 1, fn) else (d, false)
  }

  lemma MakeRoomStep(c: Cache, weight: nat, round: nat, fn: DiscardFn)
    ensures MakeRoom(c, weight, round, fn) ==
            if c.num + weight <= c.max then (c, true)
            else
              var (d, ok) := DiscardOne(c, round, fn);
              if ok then MakeRoom(d, weight, round + 1, fn) else (d, false)
  {
  }

  function Inserted(c: Cache, e: Elem): Cache {
    Cache([e] + c.queue, c.table[e.key := e.id], c.num + e.weight, c.max, c.clock + 1)
  }

  /** A duplicate key is found only after room has been made. */
  function Add(c: Cache, key: Key, id: nat, weight: nat, fn: DiscardFn): (Cache, bool) {
    var w := if weight == 0 then 1 else weight;
    var (d, ok) := MakeRoom(c, w, 0, fn);
    if !ok || key in d.table then (d, false)
    else (Inserted(d, Elem(id, key, w, 1, false, d.clock)), true)
  }

  function IndexOf(q: seq<Elem>, id: nat): (i: nat)
    ensures i <= |q|
    ensures i < |q| ==> q[i].id == id
    ensures i == |q| ==> forall j :: 0 <= j < |q| ==> q[j].id != id
  {
    if q == [] then 0 else if q[0].id == id then 0 else 1 + IndexOf(q[1..], id)
  }

  predicate Has(c: Cache, id: nat) {
    IndexOf(c.queue, id) < |c.queue|
  }

  function WithLinks(c: Cache, id: nat, n: int): Cache
    requires Has(c, id)
  {
    var i := IndexOf(c.queue, id);
    c.(queue := c.queue[i := c.queue[i].(links := c.queue[i].links + n)])
  }

  function WithLock(c: Cache, id: nat, locked: bool): Cache
    requires Has(c, id)
  {
    var i := IndexOf(c.queue, id);
    c.(queue := c.queue[i := c.queue[i].(locked := locked)])
  }

  /** Moves an element to the head of the queue and drops one link. */
  function Unlink(c: Cache, id: nat): Cache
    requires Has(c, id)
  {
    var i := IndexOf(c.queue, id);
    var e := c.queue[i];
    c.(queue := [e.(links := e.links - 1, stamp := c.clock)] + Without(c.queue, i), clock := c.clock + 1)
  }

  /** Removal by the last holder, unless the callback refuses or, uncalled, the element is locked. */
  function Remove(c: Cache, id: nat, noCall: bool, fn: DiscardFn): (Cache, bool)
    requires Has(c, id)
  {
    var i := IndexOf(c.queue, id);
    var e := c.queue[i];
    var t := c.table - {e.key};
    if e.links != 1 then (c, false)
    else if (if !noCall && fn.Fn? then !fn.ask(0, e.key, e.locked) else e.locked)
    then (c.(table := t[e.key := e.id]), false)
    else (c.(table := t, queue := Without(c.queue, i), num := c.num - e.weight), true)
  }

  lemma RemoveAt(c: Cache, id: nat, noCall: bool, fn: DiscardFn, i: nat)
    requires i < |c.queue| && IndexOf(c.queue, id) == i
    ensures var e := c.queue[i];
            Remove(c, id, noCall, fn) ==
            if e.links != 1 then (c, false)
            else if (if !noCall && fn.Fn? then !fn.ask(0, e.key, e.locked) else e.locked)
            then (Cache(c.queue, (c.table - {e.key})[e.key := e.id], c.num, c.max, c.clock), false)
            else (Cache(Without(c.queue, i), c.table - {e.key}, c.num - e.weight, c.max, c.clock), true)
  {
  }

  datatype Op =
    | AddOp(key: Key, newId: nat, weight: nat)
    | LookupOp(lookKey: Key)
    | LinkOp(id: nat)
    | UnlinkOp(id: nat)
    | RemoveOp(id: nat, noCall: bool)
    | LockOp(id: nat, lock: bool)

  /** A new element is a new object; every other operation holds a reference to one in the queue. */
  predicate Callable(c: Cache, op: Op) {
    match op
    case AddOp(_, id, _) => !Has(c, id)
    case LookupOp(k) => k in c.table ==> Has(c, c.table[k])
    case LinkOp(id) => Has(c, id)
    case UnlinkOp(id) => Has(c, id)
    case RemoveOp(id, _) => Has(c, id)
    case LockOp(id, _) => Has(c, id)
  }

  function Do(c: Cache, op: Op, fn: DiscardFn): Cache
    requires Callable(c, op)
  {
    match op
    case AddOp(k, id, w) => Add(c, k, id, w, fn).0
    case LookupOp(k) => if k in c.table then WithLinks(c, c.table[k], 1) else c
    case LinkOp(id) => WithLinks(c, id, 1)
    case UnlinkOp(id) => Unlink(c, id)
    case RemoveOp(id, noCall) => Remove(c, id, noCall, fn).0
    case LockOp(id, b) => WithLock(c, id, b)
  }

  // ------------------------------------------------------------------ the invariant

  predicate Distinct(q: seq<Elem>) {
    forall i, j :: 0 <= i < j < |q| ==> q[i].key != q[j].key && q[i].id != q[j].id
  }

  /** Newest first. */
  predicate Ordered(q: seq<Elem>, clock: nat) {
    && (forall i :: 0 <= i < |q| ==> q[i].stamp < clock)
    && (forall i, j :: 0 <= i < j < |q| ==> q[j].stamp < q[i].stamp)
  }

  predicate Weighted(q: seq<Elem>) {
    forall i :: 0 <= i < |q| ==> q[i].weight >= 1
  }

  /** The table and the queue hold the same elements. */
  predicate InSync(q: seq<Elem>, t: map<Key, nat>) {
    && (forall i :: 0 <= i < |q| ==> q[i].key in t && t[q[i].key] == q[i].id)
    && (forall k :: k in t ==> HasKey(q, k))
  }

  predicate HasKey(q: seq<Elem>, k: Key) {
    exists i :: 0 <= i < |q| && q[i].key == k
  }

  predicate Sound(c: Cache) {
    && Distinct(c.queue)
    && Ordered(c.queue, c.clock)
    && Weighted(c.queue)
    && InSync(c.queue, c.table)
    && c.num == Total(c.queue)
    && c.num <= c.max
  }

  /** The setting in which the queue keeps its promise: a callback decides, or nothing is ever locked. */
  predicate Usable(c: Cache, fn: DiscardFn) {
    fn.Fn? || forall i :: 0 <= i < |c.queue| ==> !c.queue[i].locked
  }

  /** What may be discarded: nobody holds it and nobody objects. */
  predicate Evictable(e: Elem, round: nat, fn: DiscardFn) {
    e.links == 0 && (if fn.Fn? then fn.ask(round, e.key, e.locked) else !e.locked)
  }

  // ------------------------------------------------------------------ removal and insertion

  lemma {:induction false} TotalWithout(q: seq<Elem>, i: nat)
    requires i < |q|
    ensures Total(Without(q, i)) == Total(q) - q[i].weight
  {
    if i == 0 {
      assert Without(q, 0) == q[1..];
    } else {
      TotalWithout(q[1..], i - 1);
      assert Without(q, i) == [q[0]] + Without(q[1..], i - 1);
    }
  }

  lemma {:induction false} TotalUpdate(q: seq<Elem>, i: nat, e: Elem)
    requires i < |q| && e.weight == q[i].weight
    ensures Total(q[i := e]) == Total(q)
  {
    if i == 0 {
      assert q[0 := e][1..] == q[1..];
    } else {
      TotalUpdate(q[1..], i - 1, e);
      assert q[i := e][1..] == q[1..][i - 1 := e];
    }
  }

  lemma WithoutAt(q: seq<Elem>, i: nat)
    requires i < |q|
    ensures |Without(q, i)| == |q| - 1
    ensures forall j :: 0 <= j < |q| - 1 ==> Without(q, i)[j] == q[if j < i then j else j + 1]
  {
  }

  lemma DistinctWithout(q: seq<Elem>, i: nat, clock: nat)
    requires i < |q| && Distinct(q) && Ordered(q, clock) && Weighted(q)
    ensures Distinct(Without(q, i)) && Weighted(Without(q, i))
  {
    WithoutAt(q, i);
  }

  lemma OrderedWithout(q: seq<Elem>, i: nat, clock: nat)
    requires i < |q| && Ordered(q, clock)
    ensures Ordered(Without(q, i), clock)
  {
    WithoutAt(q, i);
  }

  lemma SyncWithout(q: seq<Elem>, i: nat, t: map<Key, nat>)
    requires i < |q| && Distinct(q) && InSync(q, t)
    ensures InSync(Without(q, i), t - {q[i].key})
  {
    WithoutAt(q, i);
    var r := Without(q, i);
    forall k | k in t - {q[i].key}
      ensures HasKey(r, k)
    {
      var j :| 0 <= j < |q| && q[j].key == k;
      assert r[if j < i then j else j - 1].key == k;
    }
  }

  /** Taking an element out of both the queue and the table keeps everything but the bound on the weight. */
  lemma WithoutKeeps(c: Cache, i: nat)
    requires Sound(c) && i < |c.queue|
    ensures Sound(c.(queue := Without(c.queue, i), table := c.table - {c.queue[i].key}, num := c.num - c.queue[i].weight))
  {
    hide Total, Without, Distinct, Ordered, Weighted, InSync;
    TotalWithout(c.queue, i);
    DistinctWithout(c.queue, i, c.clock);
    OrderedWithout(c.queue, i, c.clock);
    SyncWithout(c.queue, i, c.table);
  }

  lemma SyncHead(q: seq<Elem>, e: Elem, t: map<Key, nat>)
    requires InSync(q, t) && e.key !in t
    ensures InSync([e] + q, t[e.key := e.id])
  {
    var r := [e] + q;
    forall k | k in t[e.key := e.id]
      ensures HasKey(r, k)
    {
      if k == e.key {
        assert r[0].key == k;
      } else {
        var j :| 0 <= j < |q| && q[j].key == k;
        assert r[j + 1].key == k;
      }
    }
  }

  lemma DistinctHead(q: seq<Elem>, e: Elem)
    requires Distinct(q) && IndexOf(q, e.id) == |q| && !HasKey(q, e.key)
    ensures Distinct([e] + q)
  {
    hide IndexOf;
  }

  lemma OrderHead(q: seq<Elem>, e: Elem)
    requires Ordered(q, e.stamp) && Weighted(q) && e.weight >= 1
    ensures Ordered([e] + q, e.stamp + 1) && Weighted([e] + q)
  {
  }

  /** A new head: newest stamp, new id and key. */
  lemma HeadKeeps(c: Cache, e: Elem)
    requires Sound(c) && e.key !in c.table && !Has(c, e.id) && e.stamp == c.clock
    requires e.weight >= 1 && c.num + e.weight <= c.max
    ensures Sound(c.(queue := [e] + c.queue, table := c.table[e.key := e.id], num := c.num + e.weight, clock := c.clock + 1))
  {
    hide Distinct, Ordered, Weighted, IndexOf;
    assert ([e] + c.queue)[1..] == c.queue;
    assert !HasKey(c.queue, e.key);
    hide InSync, HasKey;
    SyncHead(c.queue, e, c.table);
    DistinctHead(c.queue, e);
    OrderHead(c.queue, e);
  }

  lemma SyncUpdate(q: seq<Elem>, i: nat, e: Elem, t: map<Key, nat>)
    requires i < |q| && e.key == q[i].key && e.id == q[i].id && InSync(q, t)
    ensures InSync(q[i := e], t)
  {
    forall k | k in t
      ensures HasKey(q[i := e], k)
    {
      var j :| 0 <= j < |q| && q[j].key == k;
      assert q[i := e][j].key == k;
    }
  }

  lemma OrderUpdate(q: seq<Elem>, i: nat, e: Elem, clock: nat)
    requires i < |q| && e.stamp == q[i].stamp && e.weight == q[i].weight && Ordered(q, clock) && Weighted(q)
    ensures Ordered(q[i := e], clock) && Weighted(q[i := e])
  {
  }

  lemma DistinctUpdate(q: seq<Elem>, i: nat, e: Elem)
    requires i < |q| && e.key == q[i].key && e.id == q[i].id && Distinct(q)
    ensures Distinct(q[i := e])
  {
  }

  /** Changing an element's links or lock touches nothing the invariant speaks of. */
  lemma UpdateKeeps(c: Cache, i: nat, e: Elem)
    requires Sound(c) && i < |c.queue|
    requires e.(links := 0, locked := false) == c.queue[i].(links := 0, locked := false)
    ensures Sound(c.(queue := c.queue[i := e]))
  {
    hide Total, Distinct, Ordered, Weighted, InSync;
    TotalUpdate(c.queue, i, e);
    SyncUpdate(c.queue, i, e, c.table);
    OrderUpdate(c.queue, i, e, c.clock);
    DistinctUpdate(c.queue, i, e);
  }

  // ------------------------------------------------------------------ eviction

  /** The outcome of a scan: the element at v is gone, and nothing older was evictable. */
  predicate Evicted(c: Cache, d: Cache, v: nat, round: nat, fn: DiscardFn) {
    && v < |c.queue|
    && Evictable(c.queue[v], round, fn)
    && (forall j :: v < j < |c.queue| ==> !Evictable(c.queue[j], round, fn))
    && d == c.(queue := Without(c.queue, v), table := c.table - {c.queue[v].key}, num := c.num - c.queue[v].weight)
  }

  /** Discarding takes the last evictable element, and fails leaving all as it was exactly when there is none. */
  lemma DiscardsLastEvictable(c: Cache, round: nat, fn: DiscardFn) returns (v: nat)
    requires Sound(c) && Usable(c, fn)
    ensures var (d, ok) := DiscardOne(c, round, fn);
            if ok then Evicted(c, d, v, round, fn)
            else d == c && forall j :: 0 <= j < |c.queue| ==> !Evictable(c.queue[j], round, fn)
  {
    v := ScanFinds(c, |c.queue| - 1, round, fn);
  }

  lemma {:induction false} ScanFinds(c: Cache, i: int, round: nat, fn: DiscardFn) returns (v: nat)
    requires Sound(c) && Usable(c, fn) && -1 <= i < |c.queue|
    requires forall j :: i < j < |c.queue| ==> !Evictable(c.queue[j], round, fn)
    ensures var (d, ok) := Scan(c, i, round, fn);
            if ok then Evicted(c, d, v, round, fn)
            else d == c && forall j :: 0 <= j < |c.queue| ==> !Evictable(c.queue[j], round, fn)
    decreases i
  {
    hide Distinct, Ordered, Weighted, Total, HasKey;
    v := 0;
    if i >= 0 {
      var e := c.queue[i];
      if Evictable(e, round, fn) {
        v := i;
      } else {
        if e.links == 0 {
          assert (c.table - {e.key})[e.key := e.id] == c.table;
        }
        v := ScanFinds(c, i - 1, round, fn);
      }
    }
  }

  /** The victim is the evictable element whose last add or unlink is the oldest. */
  lemma DiscardsOldest(c: Cache, round: nat, fn: DiscardFn) returns (v: nat)
    requires Sound(c) && Usable(c, fn) && DiscardOne(c, round, fn).1
    ensures Evicted(c, DiscardOne(c, round, fn).0, v, round, fn)
    ensures forall j :: 0 <= j < |c.queue| && Evictable(c.queue[j], round, fn) ==> c.queue[v].stamp <= c.queue[j].stamp
  {
    hide Scan;
    v := DiscardsLastEvictable(c, round, fn);
  }

  lemma DiscardKeeps(c: Cache, round: nat, fn: DiscardFn)
    requires Sound(c) && Usable(c, fn)
    ensures Sound(DiscardOne(c, round, fn).0) && Usable(DiscardOne(c, round, fn).0, fn)
  {
    var v := DiscardsLastEvictable(c, round, fn);
    var (d, ok) := DiscardOne(c, round, fn);
    if ok {
      WithoutKeeps(c, v);
      WithoutAt(c.queue, v);
    }
  }

  lemma {:induction false} MakeRoomKeeps(c: Cache, weight: nat, round: nat, fn: DiscardFn)
    requires Sound(c) && Usable(c, fn)
    ensures var (d, ok) := MakeRoom(c, weight, round, fn);
            && Sound(d) && Usable(d, fn)
            && d.max == c.max && d.clock == c.clock
            && (ok ==> d.num + weight <= d.max)
            && (forall id :: !Has(c, id) ==> !Has(d, id))
    decreases |c.queue|
  {
    hide Scan, Sound, Usable;
    if c.num + weight > c.max {
      var (d, ok) := DiscardOne(c, round, fn);
      DiscardKeeps(c, round, fn);
      DiscardShrinks(c, round, fn);
      DiscardAddsNone(c, round, fn);
      if ok {
        MakeRoomKeeps(d, weight, round + 1, fn);
      }
    }
  }

  lemma DiscardAddsNone(c: Cache, round: nat, fn: DiscardFn)
    requires Sound(c) && Usable(c, fn)
    ensures forall id :: !Has(c, id) ==> !Has(DiscardOne(c, round, fn).0, id)
  {
    hide Scan, Sound;
    var v := DiscardsLastEvictable(c, round, fn);
    var (d, ok) := DiscardOne(c, round, fn);
    if ok {
      forall id | !Has(c, id)
        ensures !Has(d, id)
      {
        WithoutAt(c.queue, v);
        IndexFinds(d.queue, id);
      }
    }
  }

  lemma IndexFinds(q: seq<Elem>, id: nat)
    ensures IndexOf(q, id) == |q| <==> forall j :: 0 <= j < |q| ==> q[j].id != id
  {
  }

  // ------------------------------------------------------------------ every operation, every run

  lemma AddKeeps(c: Cache, key: Key, id: nat, weight: nat, fn: DiscardFn)
    requires Sound(c) && Usable(c, fn) && !Has(c, id)
    ensures Sound(Add(c, key, id, weight, fn).0) && Usable(Add(c, key, id, weight, fn).0, fn)
  {
    hide Sound, MakeRoom, Total;
    var w := if weight == 0 then 1 else weight;
    MakeRoomKeeps(c, w, 0, fn);
    var (d, ok) := MakeRoom(c, w, 0, fn);
    if ok && key !in d.table {
      HeadKeeps(d, Elem(id, key, w, 1, false, d.clock));
    }
  }

  /** Unlinking is taking the element out and putting it back at the head. */
  lemma UnlinkKeeps(c: Cache, id: nat)
    requires Sound(c) && Has(c, id)
    ensures Sound(Unlink(c, id))
  {
    hide Without, Total, HasKey;
    var i := IndexOf(c.queue, id);
    var e := c.queue[i];
    var q, t := Without(c.queue, i), c.table - {e.key};
    WithoutKeeps(c, i);
    WithoutAt(c.queue, i);
    var d := c.(queue := q, table := t, num := c.num - e.weight);
    IndexFinds(q, id);
    HeadKeeps(d, e.(links := e.links - 1, stamp := c.clock));
    assert t[e.key := e.id] == c.table;
  }

  lemma RemoveKeeps(c: Cache, id: nat, noCall: bool, fn: DiscardFn)
    requires Sound(c) && Has(c, id)
    ensures Sound(Remove(c, id, noCall, fn).0)
    ensures !Remove(c, id, noCall, fn).1 ==> Remove(c, id, noCall, fn).0 == c
  {
    hide Without, Total, HasKey;
    var i := IndexOf(c.queue, id);
    var e := c.queue[i];
    WithoutKeeps(c, i);
    assert (c.table - {e.key})[e.key := e.id] == c.table;
  }

  /** Without a callback an element must not be locked. */
  predicate Permitted(op: Op, fn: DiscardFn) {
    op.LockOp? && op.lock ==> fn.Fn?
  }

  lemma StepKeeps(c: Cache, op: Op, fn: DiscardFn)
    requires Sound(c) && Usable(c, fn) && Callable(c, op) && Permitted(op, fn)
    ensures Sound(Do(c, op, fn)) && Usable(Do(c, op, fn), fn)
  {
    hide Sound, Remove, Add, Without;
    match op
    case AddOp(k, id, w) => AddKeeps(c, k, id, w, fn);
    case LookupOp(k) =>
      if k in c.table {
        var i := IndexOf(c.queue, c.table[k]);
        UpdateKeeps(c, i, c.queue[i].(links := c.queue[i].links + 1));
      }
    case LinkOp(id) =>
      var i := IndexOf(c.queue, id);
      UpdateKeeps(c, i, c.queue[i].(links := c.queue[i].links + 1));
    case UnlinkOp(id) =>
      UnlinkKeeps(c, id);
      WithoutAt(c.queue, IndexOf(c.queue, id));
    case RemoveOp(id, noCall) =>
      RemoveKeeps(c, id, noCall, fn);
      RemoveUsable(c, id, noCall, fn);
    case LockOp(id, b) =>
      var i := IndexOf(c.queue, id);
      UpdateKeeps(c, i, c.queue[i].(locked := b));
  }

  lemma RemoveUsable(c: Cache, id: nat, noCall: bool, fn: DiscardFn)
    requires Usable(c, fn) && Has(c, id)
    ensures Usable(Remove(c, id, noCall, fn).0, fn)
  {
    WithoutAt(c.queue, IndexOf(c.queue, id));
  }

  /** Run every operation with its own round of answers. */
  datatype Step = Step(op: Op, fn: DiscardFn)

  predicate Runs(c: Cache, steps: seq<Step>, d: Cache)
    decreases steps
  {
    if steps == [] then d == c
    else Callable(c, steps[0].op) && Runs(Do(c, steps[0].op, steps[0].fn), steps[1..], d)
  }

  /** Over every run the table and the queue hold the same elements, and their weights fit. */
  lemma {:induction false} RunKeeps(c: Cache, steps: seq<Step>, d: Cache, called: bool)
    requires Sound(c) && (called || forall i :: 0 <= i < |c.queue| ==> !c.queue[i].locked)
    requires forall i :: 0 <= i < |steps| ==> steps[i].fn.Fn? == called && Permitted(steps[i].op, steps[i].fn)
    requires Runs(c, steps, d)
    ensures Sound(d)
    decreases steps
  {
    hide Sound, Do;
    if steps != [] {
      StepKeeps(c, steps[0].op, steps[0].fn);
      RunKeeps(Do(c, steps[0].op, steps[0].fn), steps[1..], d, called);
    }
  }

  lemma EmptyIsSound(max: nat, clock: nat)
    ensures Sound(Cache([], map[], 0, max, clock))
  {
  }

  /** A key that was added and neither evicted nor removed is found, and nothing else is. */
  lemma LookupFinds(c: Cache, k: Key)
    requires Sound(c)
    ensures k in c.table <==> HasKey(c.queue, k)
    ensures k in c.table ==> Has(c, c.table[k]) && c.queue[IndexOf(c.queue, c.table[k])].key == k
  {
    if k in c.table {
      var j :| 0 <= j < |c.queue| && c.queue[j].key == k;
      IndexFinds(c.queue, c.table[k]);
    }
  }

  // ------------------------------------------------------------------ what the calls do

  /** A removal succeeds for the one holder, if the callback agrees or, uncalled, the element is not locked; only that element goes. */
  lemma RemoveTells(c: Cache, id: nat, noCall: bool, fn: DiscardFn)
    requires Sound(c) && Has(c, id)
    ensures var i := IndexOf(c.queue, id);
            var e, (d, ok) := c.queue[i], Remove(c, id, noCall, fn);
            && (ok <==> e.links == 1 && if noCall || fn.NoFn? then !e.locked else fn.ask(0, e.key, e.locked))
            && (ok ==> d.queue == c.queue[..i] + c.queue[i + 1..] && e.key !in d.table)
            && (!ok ==> d == c)
  {
    hide Sound;
    RemoveKeeps(c, id, noCall, fn);
  }

  /** An unlinked element is the newest, has one reference less, and leaves the others in order. */
  lemma UnlinkTells(c: Cache, id: nat)
    requires Sound(c) && Has(c, id)
    ensures var i, q := IndexOf(c.queue, id), Unlink(c, id).queue;
            && |q| == |c.queue|
            && q[0] == c.queue[i].(links := c.queue[i].links - 1, stamp := q[0].stamp)
            && q[1..] == c.queue[..i] + c.queue[i + 1..]
            && forall j :: 0 < j < |q| ==> q[j].stamp < q[0].stamp
  {
    hide Sound;
    UnlinkKeeps(c, id);
    OrderedIs(Unlink(c, id));
  }

  lemma OrderedIs(c: Cache)
    requires Sound(c)
    ensures Ordered(c.queue, c.clock)
  {
  }

  /** A callback that answers alike in every round. */
  ghost predicate Steady(fn: DiscardFn) {
    fn.Fn? ==> forall r, k, b :: fn.ask(r, k, b) == fn.ask(0, k, b)
  }

  /** The weight that cannot be discarded. */
  function Staying(q: seq<Elem>, fn: DiscardFn): nat {
    if q == [] then 0 else Staying(q[1..], fn) + if Evictable(q[0], 0, fn) then 0 else q[0].weight
  }

  lemma {:induction false} StayingWithout(q: seq<Elem>, i: nat, fn: DiscardFn)
    requires i < |q| && Evictable(q[i], 0, fn)
    ensures Staying(Without(q, i), fn) == Staying(q, fn)
  {
    if i == 0 {
      assert Without(q, 0) == q[1..];
    } else {
      StayingWithout(q[1..], i - 1, fn);
      assert Without(q, i) == [q[0]] + Without(q[1..], i - 1);
    }
  }

  lemma {:induction false} AllStay(q: seq<Elem>, fn: DiscardFn)
    requires forall i :: 0 <= i < |q| ==> !Evictable(q[i], 0, fn)
    ensures Staying(q, fn) == Total(q)
  {
    if q != [] {
      AllStay(q[1..], fn);
    }
  }

  lemma {:induction false} StayingAtMost(q: seq<Elem>, fn: DiscardFn)
    ensures Staying(q, fn) <= Total(q)
  {
    if q != [] {
      StayingAtMost(q[1..], fn);
    }
  }

  /** What was discarded was evictable, older than every evictable element that stays, and not more than needed. */
  ghost predicate Trimmed(c: Cache, d: Cache, weight: nat, fn: DiscardFn) {
    && (forall e :: e in d.queue ==> e in c.queue)
    && (forall e :: e in c.queue && e !in d.queue ==> Evictable(e, 0, fn))
    && (forall e, f :: e in c.queue && e !in d.queue && f in d.queue && Evictable(f, 0, fn) ==> e.stamp < f.stamp)
    && (d != c ==> exists e :: e in c.queue && e !in d.queue && d.num + e.weight + weight > c.max)
  }

  /** Room is made if and only if what cannot be discarded leaves it. */
  lemma {:induction false} MakeRoomTells(c: Cache, weight: nat, round: nat, fn: DiscardFn)
    requires Sound(c) && Usable(c, fn) && Steady(fn)
    ensures var (d, ok) := MakeRoom(c, weight, round, fn);
            && (ok <==> Staying(c.queue, fn) + weight <= c.max)
            && Trimmed(c, d, weight, fn)
    decreases |c.queue|
  {
    hide Scan, Without, Total, Usable, Staying, Trimmed;
    StayingAtMost(c.queue, fn);
    TotalIs(c);
    if c.num + weight <= c.max {
      NothingTrimmed(c, weight, fn);
    } else {
      var (b, ok) := DiscardOne(c, round, fn);
      var v := DiscardsLastEvictable(c, round, fn);
      DiscardKeeps(c, round, fn);
      DiscardShrinks(c, round, fn);
      if ok {
        StayingWithout(c.queue, v, fn);
        MakeRoomTells(b, weight, round + 1, fn);
        OneMoreTrimmed(c, b, MakeRoom(b, weight, round + 1, fn).0, v, weight, fn);
      } else {
        AllStay(c.queue, fn);
        NothingTrimmed(c, weight, fn);
      }
    }
  }

  lemma TotalIs(c: Cache)
    requires Sound(c)
    ensures c.num == Total(c.queue)
  {
  }

  lemma NothingTrimmed(c: Cache, weight: nat, fn: DiscardFn)
    ensures Trimmed(c, c, weight, fn)
  {
  }

  /** The victim is gone and nothing else, and it was older than what else could have gone. */
  lemma VictimIsOldest(c: Cache, b: Cache, v: nat, fn: DiscardFn)
    requires Sound(c) && Evicted(c, b, v, 0, fn)
    ensures forall e :: e in b.queue <==> e in c.queue && e != c.queue[v]
    ensures forall f :: f in b.queue && Evictable(f, 0, fn) ==> c.queue[v].stamp < f.stamp
  {
    var q, victim := c.queue, c.queue[v];
    WithoutAt(q, v);
    OrderedIs(c);
    SoundIs(c);
    hide Without, Total, Sound, Evictable;
    forall e | e in q && e != victim
      ensures e in b.queue
    {
      var i :| 0 <= i < |q| && q[i] == e;
      assert b.queue[if i < v then i else i - 1] == e;
    }
    forall e | e in b.queue
      ensures e in q && e != victim && (Evictable(e, 0, fn) ==> victim.stamp < e.stamp)
    {
      var i :| 0 <= i < |b.queue| && b.queue[i] == e;
      assert q[if i < v then i else i + 1] == e;
    }
  }

  lemma OneMoreTrimmed(c: Cache, b: Cache, d: Cache, v: nat, weight: nat, fn: DiscardFn)
    requires Sound(c) && Evicted(c, b, v, 0, fn) && Trimmed(b, d, weight, fn) && c.num + weight > c.max
    ensures Trimmed(c, d, weight, fn)
  {
    var victim := c.queue[v];
    VictimIsOldest(c, b, v, fn);
    assert Evictable(victim, 0, fn) && b.num == c.num - victim.weight && b.max == c.max;
    hide Without, Total, Sound, Evictable, Evicted;
    assert victim in c.queue && victim !in d.queue;
    if d == b {
      assert d.num + victim.weight + weight > c.max;
    }
  }

  /**
   * An add succeeds if what cannot be discarded leaves room for its weight,
   * and no element of the key is left; the new element is the newest, has the
   * caller's one link, and weighs at least one.
   */
  lemma AddTells(c: Cache, key: Key, id: nat, weight: nat, fn: DiscardFn)
    requires Sound(c) && Usable(c, fn) && Steady(fn) && !Has(c, id)
    ensures var w := if weight == 0 then 1 else weight;
            var (b, room), (d, ok) := MakeRoom(c, w, 0, fn), Add(c, key, id, weight, fn);
            && (ok <==> Staying(c.queue, fn) + w <= c.max && !HasKey(b.queue, key))
            && Trimmed(c, b, w, fn)
            && (ok ==> |d.queue| == 1 + |b.queue| && d.queue[1..] == b.queue)
            && (ok ==> var e := d.queue[0];
                       e.id == id && e.key == key && e.weight == w && e.links == 1 && !e.locked && d.table[key] == id)
            && (!ok ==> d == b)
  {
    hide Staying, Trimmed, MakeRoom, Sound, Usable, Steady;
    var w := if weight == 0 then 1 else weight;
    MakeRoomTells(c, w, 0, fn);
    MakeRoomKeeps(c, w, 0, fn);
    LookupFinds(MakeRoom(c, w, 0, fn).0, key);
    AddKeeps(c, key, id, weight, fn);
    SoundIs(Add(c, key, id, weight, fn).0);
  }

  // ------------------------------------------------------------------ references

  /** An element's link count; nothing links to what is not in the queue. */
  function Links(c: Cache, id: nat): int {
    if Has(c, id) then c.queue[IndexOf(c.queue, id)].links else 0
  }

  /** The references to an element that a call hands out, or, negative, takes back. */
  function Handed(c: Cache, op: Op, fn: DiscardFn, id: nat): int {
    match op
    case AddOp(k, newId, w) => if newId == id && Add(c, k, newId, w, fn).1 then 1 else 0
    case LookupOp(k) => if k in c.table && c.table[k] == id then 1 else 0
    case LinkOp(i) => if i == id then 1 else 0
    case UnlinkOp(i) => if i == id then -1 else 0
    case RemoveOp(i, noCall) => if i == id && Has(c, i) && Remove(c, i, noCall, fn).1 then -1 else 0
    case LockOp(_, _) => 0
  }

  /** The same over a run. */
  function HandedBy(c: Cache, steps: seq<Step>, id: nat): int
    decreases steps
  {
    if steps == [] || !Callable(c, steps[0].op) then 0
    else Handed(c, steps[0].op, steps[0].fn, id) + HandedBy(Do(c, steps[0].op, steps[0].fn), steps[1..], id)
  }

  /** Elements keep their link counts while others come and go. */
  lemma LinksWithout(q: seq<Elem>, i: nat, id: nat)
    requires i < |q| && Distinct(q) && q[i].id != id
    ensures IndexOf(Without(q, i), id) < |Without(q, i)| <==> IndexOf(q, id) < |q|
    ensures IndexOf(q, id) < |q| ==> Without(q, i)[IndexOf(Without(q, i), id)] == q[IndexOf(q, id)]
  {
    WithoutAt(q, i);
    var r, j, k := Without(q, i), IndexOf(q, id), IndexOf(Without(q, i), id);
    hide IndexOf, Without;
    if j < |q| {
      assert r[if j < i then j else j - 1] == q[j];
    }
    if k < |r| {
      assert r[k] == q[if k < i then k else k + 1];
    }
  }

  lemma GoneWithout(q: seq<Elem>, i: nat)
    requires i < |q| && Distinct(q)
    ensures IndexOf(Without(q, i), q[i].id) == |Without(q, i)|
  {
    WithoutAt(q, i);
    IndexFinds(Without(q, i), q[i].id);
  }

  lemma LinksHead(q: seq<Elem>, e: Elem, id: nat)
    ensures IndexOf([e] + q, id) == if e.id == id then 0 else 1 + IndexOf(q, id)
  {
    assert ([e] + q)[1..] == q;
  }

  lemma LinksUpdate(q: seq<Elem>, i: nat, e: Elem, id: nat)
    requires i < |q| && e.id == q[i].id && Distinct(q)
    ensures IndexOf(q[i := e], id) == IndexOf(q, id)
  {
    var r, j, k := q[i := e], IndexOf(q, id), IndexOf(q[i := e], id);
    hide IndexOf;
    assert k < |q| ==> q[k].id == id;
    assert j < |q| ==> r[j].id == id;
  }

  /** Only elements that nobody links to are discarded. */
  lemma {:induction false} MakeRoomSpares(c: Cache, weight: nat, round: nat, fn: DiscardFn, id: nat)
    requires Sound(c) && Usable(c, fn)
    ensures var d := MakeRoom(c, weight, round, fn).0;
            && Links(d, id) == Links(c, id)
            && (Links(c, id) != 0 ==> d.queue[IndexOf(d.queue, id)] == c.queue[IndexOf(c.queue, id)])
    decreases |c.queue|
  {
    hide Scan, Without, Total;
    if c.num + weight > c.max {
      var (d, ok) := DiscardOne(c, round, fn);
      DiscardKeeps(c, round, fn);
      DiscardShrinks(c, round, fn);
      var v := DiscardsLastEvictable(c, round, fn);
      if ok {
        if c.queue[v].id == id {
          GoneWithout(c.queue, v);
          assert IndexOf(c.queue, id) == v;
        } else {
          LinksWithout(c.queue, v, id);
        }
        MakeRoomSpares(d, weight, round + 1, fn, id);
      }
    }
  }

  /** An element keeps its key and weight. */
  predicate SameElem(c: Cache, d: Cache, id: nat) {
    Has(c, id) && Has(d, id) ==>
      var e, f := c.queue[IndexOf(c.queue, id)], d.queue[IndexOf(d.queue, id)];
      e.key == f.key && e.weight == f.weight
  }

  /** Every call changes an element's link count by the references it hands out or takes back. */
  lemma StepLinks(c: Cache, op: Op, fn: DiscardFn, id: nat)
    requires Sound(c) && Usable(c, fn) && Callable(c, op)
    ensures Links(Do(c, op, fn), id) == Links(c, id) + Handed(c, op, fn, id)
    ensures Links(c, id) != 0 ==> SameElem(c, Do(c, op, fn), id)
  {
    hide MakeRoom, Without, Sound, Usable, IndexOf;
    SoundIs(c);
    match op
    case AddOp(k, newId, weight) =>
      var w := if weight == 0 then 1 else weight;
      MakeRoomSpares(c, w, 0, fn, id);
      MakeRoomKeeps(c, w, 0, fn);
      var d := MakeRoom(c, w, 0, fn).0;
      LinksHead(d.queue, Elem(newId, k, w, 1, false, d.clock), id);
    case LookupOp(k) =>
      if k in c.table {
        LinksChanged(c, c.table[k], 1, id);
      }
    case LinkOp(i) => LinksChanged(c, i, 1, id);
    case UnlinkOp(i) => LinksUnlinked(c, i, id);
    case RemoveOp(i, noCall) => LinksRemoved(c, i, noCall, fn, id);
    case LockOp(i, b) =>
      var k := IndexOf(c.queue, i);
      LinksUpdate(c.queue, k, c.queue[k].(locked := b), id);
  }

  lemma SoundIs(c: Cache)
    requires Sound(c)
    ensures Distinct(c.queue) && InSync(c.queue, c.table)
  {
  }

  lemma LinksChanged(c: Cache, i: nat, n: int, id: nat)
    requires Distinct(c.queue) && Has(c, i)
    ensures Links(WithLinks(c, i, n), id) == Links(c, id) + if i == id then n else 0
    ensures SameElem(c, WithLinks(c, i, n), id)
  {
    var k := IndexOf(c.queue, i);
    LinksUpdate(c.queue, k, c.queue[k].(links := c.queue[k].links + n), id);
    hide IndexOf;
  }

  lemma LinksUnlinked(c: Cache, i: nat, id: nat)
    requires Distinct(c.queue) && Has(c, i)
    ensures Links(Unlink(c, i), id) == Links(c, id) - if i == id then 1 else 0
    ensures SameElem(c, Unlink(c, i), id)
  {
    hide Without;
    var k := IndexOf(c.queue, i);
    var e := c.queue[k];
    LinksHead(Without(c.queue, k), e.(links := e.links - 1, stamp := c.clock), id);
    if i != id {
      LinksWithout(c.queue, k, id);
    }
    hide IndexOf;
  }

  lemma LinksRemoved(c: Cache, i: nat, noCall: bool, fn: DiscardFn, id: nat)
    requires Distinct(c.queue) && Has(c, i)
    ensures Links(Remove(c, i, noCall, fn).0, id) == Links(c, id) - if i == id && Remove(c, i, noCall, fn).1 then 1 else 0
    ensures SameElem(c, Remove(c, i, noCall, fn).0, id)
  {
    hide Without;
    var k := IndexOf(c.queue, i);
    RemoveAt(c, i, noCall, fn, k);
    GoneWithout(c.queue, k);
    if i != id {
      LinksWithout(c.queue, k, id);
    }
    hide IndexOf, Remove;
  }

  /** Over every run an element's link count is the references handed out and not returned. */
  lemma {:induction false} RunLinks(c: Cache, steps: seq<Step>, d: Cache, called: bool, id: nat)
    requires Sound(c) && (called || forall i :: 0 <= i < |c.queue| ==> !c.queue[i].locked)
    requires forall i :: 0 <= i < |steps| ==> steps[i].fn.Fn? == called && Permitted(steps[i].op, steps[i].fn)
    requires Runs(c, steps, d)
    ensures Links(d, id) == Links(c, id) + HandedBy(c, steps, id)
    decreases steps
  {
    hide Sound, Do, Links, Handed;
    if steps != [] {
      StepKeeps(c, steps[0].op, steps[0].fn);
      StepLinks(c, steps[0].op, steps[0].fn, id);
      RunLinks(Do(c, steps[0].op, steps[0].fn), steps[1..], d, called, id);
    }
  }

  /** Somebody holds a reference at every point of a run. */
  predicate HeldThroughout(c: Cache, steps: seq<Step>, id: nat) {
    forall i :: 0 <= i <= |steps| ==> Links(c, id) + HandedBy(c, steps[..i], id) > 0
  }

  lemma TailHeld(c: Cache, steps: seq<Step>, id: nat)
    requires steps != [] && Callable(c, steps[0].op) && HeldThroughout(c, steps, id)
    requires Links(Do(c, steps[0].op, steps[0].fn), id) == Links(c, id) + Handed(c, steps[0].op, steps[0].fn, id)
    ensures HeldThroughout(Do(c, steps[0].op, steps[0].fn), steps[1..], id)
  {
    hide Do, Links, Handed, Callable;
    var b := Do(c, steps[0].op, steps[0].fn);
    forall i | 0 <= i <= |steps[1..]|
      ensures Links(b, id) + HandedBy(b, steps[1..][..i], id) > 0
    {
      var first := steps[..i + 1];
      assert first[0] == steps[0] && first[1..] == steps[1..][..i];
      assert Links(c, id) + HandedBy(c, first, id) > 0;
    }
  }

  lemma LinkedStands(c: Cache, id: nat)
    requires Sound(c) && Links(c, id) > 0
    ensures Has(c, id) && SameElem(c, c, id)
    ensures var e := c.queue[IndexOf(c.queue, id)];
            e.key in c.table && c.table[e.key] == id
  {
    SoundIs(c);
  }

  /** An element that somebody holds throughout a run is the same at its end, and found under its key. */
  lemma {:induction false} HeldStays(c: Cache, steps: seq<Step>, d: Cache, called: bool, id: nat)
    requires Sound(c) && (called || forall i :: 0 <= i < |c.queue| ==> !c.queue[i].locked)
    requires forall i :: 0 <= i < |steps| ==> steps[i].fn.Fn? == called && Permitted(steps[i].op, steps[i].fn)
    requires Runs(c, steps, d) && HeldThroughout(c, steps, id)
    ensures Has(c, id) && Has(d, id) && SameElem(c, d, id)
    ensures var e := d.queue[IndexOf(d.queue, id)];
            e.key in d.table && d.table[e.key] == id
    decreases steps
  {
    assert steps[..0] == [];
    hide Sound, Do, Links, Handed, Callable, IndexOf;
    LinkedStands(c, id);
    if steps != [] {
      var op, fn := steps[0].op, steps[0].fn;
      StepKeeps(c, op, fn);
      StepLinks(c, op, fn, id);
      TailHeld(c, steps, id);
      HeldStays(Do(c, op, fn), steps[1..], d, called, id);
    }
  }

  // ------------------------------------------------------------------ no callback, a locked element

  /** The last element nobody holds, or none. */
  predicate LastUnheld(c: Cache, v: nat) {
    && v < |c.queue|
    && c.queue[v].links == 0
    && forall j :: v < j < |c.queue| ==> c.queue[j].links != 0
  }

  /**
   * Without a callback, looking for a victim keeps table and queue in step
   * exactly when the oldest element that nobody holds is not locked: a locked
   * one leaves the table but stays in the queue.
   */
  lemma UncalledDiscard(c: Cache, v: nat)
    requires Sound(c) && LastUnheld(c, v)
    ensures Sound(DiscardOne(c, 0, NoFn).0) <==> !c.queue[v].locked
  {
    var e := c.queue[v];
    SkipsHeld(c, |c.queue| - 1, v);
    if e.locked {
      ScanTable(c.(table := c.table - {e.key}), v - 1);
      var d := DiscardOne(c, 0, NoFn).0;
      StaysQueued(c.(table := c.table - {e.key}), v - 1, v);
      assert e.key !in d.table;
    } else {
      WithoutKeeps(c, v);
    }
  }

  lemma {:induction false} SkipsHeld(c: Cache, i: int, v: nat)
    requires LastUnheld(c, v) && v <= i < |c.queue|
    ensures Scan(c, i, 0, NoFn) == Scan(c, v, 0, NoFn)
    decreases i
  {
    if i > v {
      SkipsHeld(c, i - 1, v);
    }
  }

  /** Without a callback nothing returns to the table... */
  lemma {:induction false} ScanTable(c: Cache, i: int)
    requires i < |c.queue|
    ensures Scan(c, i, 0, NoFn).0.table.Keys <= c.table.Keys
    decreases i
  {
    if i >= 0 {
      ScanTable(c, i - 1);
      ScanTable(c.(table := c.table - {c.queue[i].key}), i - 1);
    }
  }

  /** ...and an element behind the scan stays in the queue. */
  lemma {:induction false} StaysQueued(c: Cache, i: int, p: nat)
    requires i < p < |c.queue|
    ensures c.queue[p] in Scan(c, i, 0, NoFn).0.queue
    decreases i
  {
    if i >= 0 {
      var e := c.queue[i];
      if e.links == 0 && !e.locked {
        assert Without(c.queue, i)[p - 1] == c.queue[p];
      } else {
        StaysQueued(c, i - 1, p);
        StaysQueued(c.(table := c.table - {e.key}), i - 1, p);
      }
    }
  }
}
