/**
 * The chained hash table: an array of bucket chains, one per row, searched
 * and changed in place. Keys are compared as whole byte strings.
 */
module XHash {
  import opened Options

  type Key = seq<bv8>

  datatype Entry<V> = Entry(key: Key, data: V)

  /** The running 32-bit hash of key[i..], from v, over the program's table of 256 numbers. */
  function HashFrom(key: Key, i: nat, v: nat, random: seq<nat>): nat
    requires i <= |key| && |random| == 256
    decreases |key| - i
  {
    if i == |key| then v else HashFrom(key, i + 1, Mixed(key[i], v, random), random)
  }

  function Mixed(b: bv8, v: nat, random: seq<nat>): nat
    requires |random| == 256
  {
    (v + random[(b as nat + v) % 256]) % 0x1_0000_0000
  }

  function RowOf(key: Key, rows: nat, random: seq<nat>): (r: nat)
    requires rows > 0 && |random| == 256
    ensures r < rows
  {
    HashFrom(key, 0, 1, random) / 2 % rows
  }

  /** The position of a key in a chain, or its length. */
  function Position<V>(chain: seq<Entry<V>>, key: Key): (i: nat)
    ensures i <= |chain|
    ensures i < |chain| ==> chain[i].key == key
    ensures forall j :: 0 <= j < i ==> chain[j].key != key
  {
    if chain == [] || chain[0].key == key then 0 else 1 + Position(chain[1..], key)
  }

  function Find<V>(chain: seq<Entry<V>>, key: Key): Option<V> {
    var i := Position(chain, key);
    if i < |chain| then Some(chain[i].data) else None
  }

  function Get<V>(m: map<Key, V>, key: Key): Option<V> {
    if key in m then Some(m[key]) else None
  }

  predicate NoDuplicates<V>(chain: seq<Entry<V>>) {
    forall i, j :: 0 <= i < j < |chain| ==> chain[i].key != chain[j].key
  }

  lemma {:induction false} PositionIs<V>(chain: seq<Entry<V>>, key: Key, i: nat)
    requires i <= |chain| && (i < |chain| ==> chain[i].key == key)
    requires forall j :: 0 <= j < i ==> chain[j].key != key
    ensures Position(chain, key) == i
  {
  }

  /** Appending to a chain that lacks the key adds that key alone. */
  lemma FindAppended<V>(chain: seq<Entry<V>>, e: Entry<V>, key: Key)
    requires Position(chain, e.key) == |chain|
    ensures Find(chain + [e], key) == if key == e.key then Some(e.data) else Find(chain, key)
  {
    var longer := chain + [e];
    var i := Position(chain, key);
    PositionIs(longer, key, if key == e.key then |chain| else if i < |chain| then i else |longer|);
  }

  function Cut<V>(chain: seq<Entry<V>>, p: nat): seq<Entry<V>>
    requires p < |chain|
  {
    chain[..p] + chain[p + 1..]
  }

  lemma CutAt<V>(chain: seq<Entry<V>>, p: nat)
    requires p < |chain|
    ensures |Cut(chain, p)| == |chain| - 1
    ensures forall j :: 0 <= j < |chain| - 1 ==> Cut(chain, p)[j] == chain[if j < p then j else j + 1]
  {
  }

  lemma NoDuplicatesCut<V>(chain: seq<Entry<V>>, p: nat)
    requires p < |chain| && NoDuplicates(chain)
    ensures NoDuplicates(Cut(chain, p))
  {
    CutAt(chain, p);
    hide Cut;
  }

  /** Cutting a key's only entry out of a chain removes that key alone. */
  lemma FindCut<V>(chain: seq<Entry<V>>, k: Key, key: Key)
    requires NoDuplicates(chain) && Position(chain, k) < |chain|
    ensures Find(Cut(chain, Position(chain, k)), key) == if key == k then None else Find(chain, key)
  {
    var p := Position(chain, k);
    CutAt(chain, p);
    OthersDiffer(chain, p);
    hide Cut, Position, NoDuplicates;
    var shorter := Cut(chain, p);
    var i := Position(chain, key);
    if key == k || i == |chain| {
      PositionIs(shorter, key, |shorter|);
    } else {
      var j := if i < p then i else i - 1;
      assert shorter[j] == chain[i];
      PositionIs(shorter, key, j);
    }
  }

  lemma OthersDiffer<V>(chain: seq<Entry<V>>, p: nat)
    requires p < |chain| && NoDuplicates(chain)
    ensures forall j :: 0 <= j < |chain| && j != p ==> chain[j].key != chain[p].key
  {
  }

  class HashTable<V> {
    const random: seq<nat>
    const rows: array<seq<Entry<V>>>
    var nItems: nat
    ghost var contents: map<Key, V>

    ghost predicate Valid()
      reads this, rows
    {
      && |random| == 256
      && rows.Length > 0
      && (forall r :: 0 <= r < rows.Length ==> NoDuplicates(rows[r]))
      && (forall k: Key :: Find(rows[RowOf(k, rows.Length, random)], k) == Get(contents, k))
      && nItems == |contents|
    }

    constructor (n: nat, random: seq<nat>)
      requires n > 0 && |random| == 256
      ensures Valid() && fresh(rows) && contents == map[]
    {
      this.random := random;
      rows := new seq<Entry<V>>[n](_ => []);
      nItems := 0;
      contents := map[];
    }

    /** Runs the hash over the key's bytes. */
    method ComputeHash(key: Key) returns (t: nat)
      requires |random| == 256 && rows.Length > 0
      ensures t == RowOf(key, rows.Length, random)
    {
      var v: nat := 1;
      var i := 0;
      while i < |key|
        invariant 0 <= i <= |key|
        invariant HashFrom(key, i, v, random) == HashFrom(key, 0, 1, random)
      {
        v := Mixed(key[i], v, random);
        i := i + 1;
      }
      t := v / 2 % rows.Length;
    }

    /** Walks a chain to a key. */
    method Walk(chain: seq<Entry<V>>, key: Key) returns (i: nat)
      ensures i == Position(chain, key)
    {
      i := 0;
      while i < |chain| && chain[i].key != key
        invariant 0 <= i <= |chain|
        invariant forall j :: 0 <= j < i ==> chain[j].key != key
      {
        i := i + 1;
      }
      PositionIs(chain, key, i);
    }

    /** Adds an entry at the end of its chain; a duplicate key is refused. */
    method Add(key: Key, data: V) returns (ok: bool)
      requires Valid()
      modifies this, rows
      ensures Valid()
      ensures ok <==> key !in old(contents)
      ensures contents == if ok then old(contents)[key := data] else old(contents)
    {
      var t := ComputeHash(key);
      var i := Walk(rows[t], key);
      assert Find(rows[t], key) == Get(contents, key);
      if i < |rows[t]| {
        return false;
      }
      ghost var chain := rows[t];
      forall k: Key
        ensures Find(chain + [Entry(key, data)], k) == if k == key then Some(data) else Find(chain, k)
      {
        FindAppended(chain, Entry(key, data), k);
      }
      rows[t] := rows[t] + [Entry(key, data)];
      nItems := nItems + 1;
      contents := contents[key := data];
      ok := true;
    }

    /** Cuts a key's entry out of its chain. */
    method Remove(key: Key) returns (ok: bool)
      requires Valid()
      modifies this, rows
      ensures Valid()
      ensures ok <==> key in old(contents)
      ensures contents == old(contents) - {key}
    {
      var t := ComputeHash(key);
      var i := Walk(rows[t], key);
      assert Find(rows[t], key) == Get(contents, key);
      if i == |rows[t]| {
        assert contents - {key} == contents;
        return false;
      }
      ghost var chain := rows[t];
      forall k: Key
        ensures Find(Cut(chain, i), k) == if k == key then None else Find(chain, k)
      {
        FindCut(chain, key, k);
      }
      NoDuplicatesCut(chain, i);
      rows[t] := Cut(rows[t], i);
      nItems := nItems - 1;
      contents := contents - {key};
      ok := true;
    }

    method Lookup(key: Key) returns (data: Option<V>)
      requires Valid()
      ensures data == Get(contents, key)
    {
      var t := ComputeHash(key);
      var i := Walk(rows[t], key);
      assert Find(rows[t], key) == Get(contents, key);
      data := if i < |rows[t]| then Some(rows[t][i].data) else None;
    }
  }
}
