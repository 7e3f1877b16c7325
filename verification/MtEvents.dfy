/**
 * The event-wait table: requests in order of arrival, each knowing its own
 * position, which every removal keeps up to date.
 */
module MtEvents {

  const MAX_EVENTS: nat := 1024

  datatype Status = InProcess | Complete

  /** A thread's request: what it waits for, how much of it, and whether it has been served. */
  class EventReq {
    const id: nat
    const obj: object
    const reqLen: int
    var status: Status
    var tableIdx: int

    constructor (id: nat, obj: object, reqLen: int)
      ensures this.id == id && this.obj == obj && this.reqLen == reqLen && status == InProcess && tableIdx == -1
    {
      this.id := id;
      this.obj := obj;
      this.reqLen := reqLen;
      status := InProcess;
      tableIdx := -1;
    }
  }

  /** The requests of s that are not in gone, in order. */
  function Without(s: seq<EventReq>, gone: set<EventReq>): seq<EventReq> {
    if s == [] then []
    else if s[0] in gone then Without(s[1..], gone)
    else [s[0]] + Without(s[1..], gone)
  }

  function Members(s: seq<EventReq>): set<EventReq> {
    if s == [] then {} else Members(s[..|s| - 1]) + {s[|s| - 1]}
  }

  predicate NoTwice(s: seq<EventReq>) {
    forall i, j :: 0 <= i < j < |s| ==> s[i] != s[j]
  }

  function Cut(s: seq<EventReq>, i: nat): (r: seq<EventReq>)
    requires i < |s|
    ensures |r| == |s| - 1
    ensures forall j :: 0 <= j < |r| ==> r[j] == s[if j < i then j else j + 1]
  {
    s[..i] + s[i + 1..]
  }

  lemma CutNoTwice(s: seq<EventReq>, i: nat)
    requires i < |s| && NoTwice(s)
    ensures NoTwice(Cut(s, i))
  {
  }

  lemma {:induction false} MembersHas(s: seq<EventReq>, e: EventReq)
    ensures e in Members(s) <==> e in s
  {
    if s != [] {
      MembersHas(s[..|s| - 1], e);
      assert s == s[..|s| - 1] + [s[|s| - 1]];
    }
  }

  lemma {:induction false} WithoutHas(s: seq<EventReq>, gone: set<EventReq>, e: EventReq)
    ensures e in Without(s, gone) <==> e in s && e !in gone
  {
    if s != [] {
      WithoutHas(s[1..], gone, e);
    }
  }

  lemma {:induction false} WithoutConcat(a: seq<EventReq>, b: seq<EventReq>, gone: set<EventReq>)
    ensures Without(a + b, gone) == Without(a, gone) + Without(b, gone)
  {
    if a == [] {
      assert a + b == b;
    } else {
      assert (a + b)[1..] == a[1..] + b;
      WithoutConcat(a[1..], b, gone);
    }
  }

  lemma {:induction false} WithoutNone(s: seq<EventReq>, gone: set<EventReq>)
    requires forall i :: 0 <= i < |s| ==> s[i] !in gone
    ensures Without(s, gone) == s
  {
    if s != [] {
      WithoutNone(s[1..], gone);
    }
  }

  lemma {:induction false} WithoutAll(s: seq<EventReq>, gone: set<EventReq>)
    requires forall i :: 0 <= i < |s| ==> s[i] in gone
    ensures Without(s, gone) == []
  {
    if s != [] {
      WithoutAll(s[1..], gone);
    }
  }

  /** Cutting a request out is filtering for it. */
  lemma {:induction false} CutIsWithout(s: seq<EventReq>, i: nat)
    requires i < |s| && NoTwice(s)
    ensures Cut(s, i) == Without(s, {s[i]})
  {
    if i == 0 {
      assert Cut(s, 0) == s[1..];
      WithoutNone(s[1..], {s[0]});
    } else {
      CutIsWithout(s[1..], i - 1);
      assert Cut(s, i) == [s[0]] + Cut(s[1..], i - 1);
    }
  }

  lemma {:induction false} WithoutTwice(s: seq<EventReq>, a: set<EventReq>, b: set<EventReq>)
    ensures Without(Without(s, a), b) == Without(s, a + b)
  {
    if s != [] {
      WithoutTwice(s[1..], a, b);
      if s[0] !in a {
        var r := [s[0]] + Without(s[1..], a);
        assert r[1..] == Without(s[1..], a);
      }
    }
  }

  /** Filtering out a batch that was appended leaves what was there, in order, and none of the batch. */
  lemma BackedOut(s: seq<EventReq>, batch: seq<EventReq>)
    requires NoTwice(s + batch)
    ensures Without(s + batch, Members(batch)) == s
  {
    WithoutConcat(s, batch, Members(batch));
    forall i | 0 <= i < |s|
      ensures s[i] !in Members(batch)
    {
      MembersHas(batch, s[i]);
      assert (s + batch)[i] == s[i];
      assert forall j :: 0 <= j < |batch| ==> batch[j] == (s + batch)[|s| + j];
    }
    WithoutNone(s, Members(batch));
    forall i | 0 <= i < |batch|
      ensures batch[i] in Members(batch)
    {
      MembersHas(batch, batch[i]);
    }
    WithoutAll(batch, Members(batch));
  }

  class EventTable {
    const table: array<EventReq?>
    var nEvents: nat
    ghost var events: seq<EventReq>

    ghost predicate Valid()
      reads this, table, events`tableIdx
    {
      && table.Length == MAX_EVENTS
      && nEvents == |events| <= MAX_EVENTS
      && NoTwice(events)
      && (forall i :: 0 <= i < nEvents ==> table[i] == events[i] && events[i].tableIdx == i)
      && (forall i :: nEvents <= i < MAX_EVENTS ==> table[i] == null)
    }

    constructor ()
      ensures Valid() && fresh(table) && events == []
    {
      table := new EventReq?[MAX_EVENTS](_ => null);
      nEvents := 0;
      events := [];
    }

    /** Adds a request at the end; -1 when the table is full. The caller stores the index in the request. */
    method Add(event: EventReq) returns (idx: int)
      requires Valid() && event !in events
      modifies this, table, event`tableIdx
      ensures Valid()
      ensures event.tableIdx == idx
      ensures if old(nEvents) < MAX_EVENTS then idx == old(nEvents) && events == old(events) + [event]
              else idx == -1 && events == old(events)
    {
      if nEvents >= MAX_EVENTS {
        event.tableIdx := -1;
        return -1;
      }
      table[nEvents] := event;
      nEvents := nEvents + 1;
      idx := nEvents - 1;
      event.tableIdx := idx;
      events := events + [event];
    }

    /** Removes the request at a position, moving the later ones up and telling them so. */
    method RemoveIdx(idx: nat) returns (event: EventReq)
      requires Valid() && idx < nEvents
      modifies this, table, events`tableIdx
      ensures Valid()
      ensures event == old(events)[idx] && events == Cut(old(events), idx)
    {
      CutNoTwice(events, idx);
      hide NoTwice;
      event := table[idx];
      ghost var was := events;
      nEvents := nEvents - 1;
      var i := idx;
      while i < nEvents
        invariant idx <= i <= nEvents && nEvents == |was| - 1 && events == was
        invariant Shifted(was, idx, i)
      {
        MoveUp(i, idx, was);
        i := i + 1;
      }
      table[nEvents] := null;
      events := Cut(was, idx);
    }

    /** Half way through a removal: the requests between idx and i have moved up by one. */
    ghost predicate Shifted(was: seq<EventReq>, idx: nat, i: nat)
      reads this`nEvents, table, was`tableIdx
    {
      && table.Length == MAX_EVENTS && |was| <= MAX_EVENTS
      && NoTwice(was)
      && (forall j :: 0 <= j < |was| && j + 1 < |was| ==> table[j] == was[if idx <= j < i then j + 1 else j])
      && (|was| > 0 ==> table[|was| - 1] == was[|was| - 1])
      && (forall j :: 0 <= j < |was| && j != idx ==> was[j].tableIdx == if idx < j <= i then j - 1 else j)
      && (forall j :: |was| <= j < MAX_EVENTS ==> table[j] == null)
    }

    method MoveUp(i: nat, ghost idx: nat, ghost was: seq<EventReq>)
      requires Shifted(was, idx, i) && idx <= i && i + 1 < |was|
      modifies table, was`tableIdx
      ensures Shifted(was, idx, i + 1)
    {
      table[i] := table[i + 1];
      var moved := table[i];
      moved.tableIdx := i;
    }

    /** Removes a request by identity: its position, or -1 when it is not there. */
    method Remove(event: EventReq) returns (k: int)
      requires Valid()
      modifies this, table, events`tableIdx
      ensures Valid()
      ensures k == -1 <==> event !in old(events)
      ensures events == Without(old(events), {event})
      ensures k != -1 ==> 0 <= k < |old(events)| && old(events)[k] == event
    {
      var i := 0;
      while i < nEvents && table[i] != event
        invariant 0 <= i <= nEvents
        invariant forall j :: 0 <= j < i ==> events[j] != event
      {
        i := i + 1;
      }
      if i < nEvents {
        CutIsWithout(events, i);
        var gone := RemoveIdx(i);
        k := i;
      } else {
        WithoutNone(events, {event});
        k := -1;
      }
    }

    /** Adds all of a thread's requests, or, when the table fills up, backs out those already added. */
    method AddAll(reqs: seq<EventReq>) returns (ok: bool)
      requires Valid() && NoTwice(reqs) && forall i :: 0 <= i < |reqs| ==> reqs[i] !in events
      modifies this, table, reqs`tableIdx, events`tableIdx
      ensures Valid()
      ensures ok <==> |old(events)| + |reqs| <= MAX_EVENTS
      ensures events == if ok then old(events) + reqs else old(events)
    {
      ok := true;
      ghost var was := events;
      var i := 0;
      while i < |reqs|
        invariant 0 <= i <= |reqs|
        invariant Valid() && events == was + reqs[..i]
      {
        assert reqs[i] !in events;
        var idx := Add(reqs[i]);
        if idx == -1 {
          BackOut(reqs, i, was);
          return false;
        }
        i := i + 1;
      }
      assert reqs[..i] == reqs;
    }

    /** Removes the first n of a batch, last one first. */
    method BackOut(reqs: seq<EventReq>, n: nat, ghost was: seq<EventReq>)
      requires Valid() && n <= |reqs| && events == was + reqs[..n]
      modifies this, table, events`tableIdx
      ensures Valid() && events == was
    {
      var i := n;
      while i > 0
        invariant 0 <= i <= n
        invariant Valid() && events == was + reqs[..i]
        invariant forall j :: 0 <= j < |events| ==> events[j] in old(events)
      {
        i := i - 1;
        assert events[|was| + i] == reqs[i];
        var gone := RemoveIdx(reqs[i].tableIdx);
        assert events == was + reqs[..i];
      }
    }

    /** Removes all of a thread's requests, wherever others' removals have moved them. */
    method RemoveAll(reqs: seq<EventReq>)
      requires Valid() && NoTwice(reqs) && forall i :: 0 <= i < |reqs| ==> reqs[i] in events
      modifies this, table, events`tableIdx
      ensures Valid()
      ensures events == Without(old(events), Members(reqs))
    {
      ghost var was := events;
      var i := 0;
      WithoutNone(was, Members(reqs[..0]));
      while i < |reqs|
        invariant 0 <= i <= |reqs|
        invariant Valid() && events == Without(was, Members(reqs[..i]))
        invariant forall j :: 0 <= j < |events| ==> events[j] in was
      {
        StillThere(was, reqs, i);
        RemoveOne(reqs[i]);
        WithoutTwice(was, Members(reqs[..i]), {reqs[i]});
        assert reqs[..i + 1][..i] == reqs[..i];
        i := i + 1;
      }
      assert reqs[..i] == reqs;
    }

    /** Removes a request by the position it knows. */
    method RemoveOne(e: EventReq)
      requires Valid() && e in events
      modifies this, table, events`tableIdx
      ensures Valid() && events == Without(old(events), {e})
      ensures forall j :: 0 <= j < |events| ==> events[j] in old(events)
    {
      ghost var k :| 0 <= k < |events| && events[k] == e;
      CutIsWithout(events, k);
      var gone := RemoveIdx(e.tableIdx);
    }
  }

  lemma StillThere(was: seq<EventReq>, reqs: seq<EventReq>, i: nat)
    requires i < |reqs| && NoTwice(reqs) && reqs[i] in was
    ensures reqs[i] in Without(was, Members(reqs[..i]))
  {
    MembersHas(reqs[..i], reqs[i]);
    WithoutHas(was, Members(reqs[..i]), reqs[i]);
  }
}
