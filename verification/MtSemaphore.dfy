/**
 * Counting semaphores: a post hands its units to waiting requests in table
 * order, and what it hands out it takes off the count.
 */
module MtSemaphore {
  import opened MtEvents

  /** A waiting request for units of one semaphore. */
  datatype Waiter = Waiter(id: nat, need: int, status: Status)

  /**
   * A semaphore with its requests in table order. posted and granted are
   * running totals of units put in and of units given to distinct requests.
   */
  datatype Sem = Sem(count: int, waiters: seq<Waiter>, posted: int, granted: int)

  /** The posting loop from position i with total units in hand; it does not ask whether a request was served before. */
  function Serve(ws: seq<Waiter>, i: nat, total: int): (r: (seq<Waiter>, int))
    requires i <= |ws|
    ensures |r.0| == |ws|
    decreases |ws| - i
  {
    if i == |ws| || total <= 0 then (ws, total)
    else if ws[i].need <= total then Serve(ws[i := ws[i].(status := Complete)], i + 1, total - ws[i].need)
    else Serve(ws, i + 1, total)
  }

  lemma ServeEnds(ws: seq<Waiter>, i: nat, total: int)
    requires i <= |ws| && (i == |ws| || total <= 0)
    ensures Serve(ws, i, total) == (ws, total)
  {
  }

  /** Units given to requests that had none before. */
  function Fresh(ws: seq<Waiter>, us: seq<Waiter>): int
    requires |ws| == |us|
  {
    if ws == [] then 0
    else
      var n := |ws| - 1;
      Fresh(ws[..n], us[..n]) + if ws[n].status.InProcess? && us[n].status.Complete? then ws[n].need else 0
  }

  function Post(s: Sem, cnt: int): Sem {
    var (ws, total) := Serve(s.waiters, 0, cnt + s.count);
    Sem(total, ws, s.posted + cnt, s.granted + Fresh(s.waiters, ws))
  }

  /** A request: served at once, refused since it must not wait or cannot, or put at the end of the table. */
  function Get(s: Sem, id: nat, cnt: int, refused: bool): Sem {
    if s.count >= cnt then s.(count := s.count - cnt, granted := s.granted + cnt)
    else if refused then s
    else s.(waiters := s.waiters + [Waiter(id, cnt, InProcess)])
  }

  /** A request that has been served leaves the table when its thread runs. */
  function Leave(s: Sem, i: nat): Sem
    requires i < |s.waiters|
  {
    s.(waiters := s.waiters[..i] + s.waiters[i + 1..])
  }

  // ------------------------------------------------------------------ the invariant

  /** Every unit ever put in is on the count or was given to somebody. */
  predicate Conserved(s: Sem, initial: int) {
    initial + s.posted == s.count + s.granted
  }

  /** No lost wake-up: whoever still waits wants more than there is. */
  predicate NoneMissed(s: Sem) {
    && s.count >= 0
    && forall i :: 0 <= i < |s.waiters| && s.waiters[i].status.InProcess? ==> s.waiters[i].need > s.count
  }

  predicate Sound(s: Sem, initial: int) {
    Conserved(s, initial) && NoneMissed(s)
  }

  /** Everybody in the table is still waiting: those served have left. */
  predicate AllWaiting(ws: seq<Waiter>) {
    forall i :: 0 <= i < |ws| ==> ws[i].status.InProcess?
  }

  /** Requests that were never granted anything keep their place; others only turn complete. */
  predicate Later(ws: seq<Waiter>, us: seq<Waiter>) {
    && |ws| == |us|
    && forall i :: 0 <= i < |ws| ==> us[i] == ws[i] || us[i] == ws[i].(status := Complete)
  }

  /** Units the loop hands to requests that had been served before: it takes them off and gives them to nobody. */
  function Wasted(ws: seq<Waiter>, i: nat, total: int): int
    requires i <= |ws|
    decreases |ws| - i
  {
    if i == |ws| || total <= 0 then 0
    else if ws[i].need <= total then
      (if ws[i].status.Complete? then ws[i].need else 0) + Wasted(ws[i := ws[i].(status := Complete)], i + 1, total - ws[i].need)
    else Wasted(ws, i + 1, total)
  }

  lemma {:induction false} FreshUpdate(ws: seq<Waiter>, us: seq<Waiter>, i: nat)
    requires |ws| == |us| && i < |ws|
    ensures Fresh(ws, us) ==
            Fresh(ws[i := ws[i].(status := Complete)], us)
            + if ws[i].status.InProcess? && us[i].status.Complete? then ws[i].need else 0
  {
    var n := |ws| - 1;
    if i == n {
      assert ws[i := ws[i].(status := Complete)][..n] == ws[..n];
    } else {
      FreshUpdate(ws[..n], us[..n], i);
      assert ws[i := ws[i].(status := Complete)][..n] == ws[..n][i := ws[i].(status := Complete)];
    }
  }

  lemma {:induction false} FreshSame(ws: seq<Waiter>)
    ensures Fresh(ws, ws) == 0
  {
    if ws != [] {
      FreshSame(ws[..|ws| - 1]);
    }
  }

  /** The loop's books: what it starts with is what it keeps, what it newly grants, and what it wastes. */
  lemma {:induction false} ServeBooks(ws: seq<Waiter>, i: nat, total: int)
    requires i <= |ws|
    ensures var (us, left) := Serve(ws, i, total);
            && Later(ws, us)
            && (forall j :: 0 <= j < i ==> us[j] == ws[j])
            && total == left + Fresh(ws, us) + Wasted(ws, i, total)
    decreases |ws| - i
  {
    hide Fresh;
    if i == |ws| || total <= 0 {
      FreshSame(ws);
    } else if ws[i].need <= total {
      var vs := ws[i := ws[i].(status := Complete)];
      ServeBooks(vs, i + 1, total - ws[i].need);
      var us := Serve(vs, i + 1, total - ws[i].need).0;
      assert us[i] == vs[i];
      FreshUpdate(ws, us, i);
    } else {
      ServeBooks(ws, i + 1, total);
    }
  }

  /** Nobody who could be served is passed over, and no more is given than there is. */
  lemma {:induction false} ServeMissesNone(ws: seq<Waiter>, i: nat, total: int)
    requires i <= |ws| && total >= 0
    requires forall j :: 0 <= j < |ws| && ws[j].status.InProcess? ==> ws[j].need > 0
    requires forall j :: 0 <= j < i && ws[j].status.InProcess? ==> ws[j].need > total
    requires forall j :: 0 <= j < |ws| ==> ws[j].need >= 0
    ensures var (us, left) := Serve(ws, i, total);
            && 0 <= left <= total
            && forall j :: 0 <= j < |us| && us[j].status.InProcess? ==> us[j].need > left
    decreases |ws| - i
  {
    if i == |ws| || total <= 0 {
    } else if ws[i].need <= total {
      ServeMissesNone(ws[i := ws[i].(status := Complete)], i + 1, total - ws[i].need);
    } else {
      ServeMissesNone(ws, i + 1, total);
    }
  }

  /** The units of the requests that are complete, among the first n. */
  function Given(ws: seq<Waiter>, n: nat): int
    requires n <= |ws|
  {
    if n == 0 then 0 else Given(ws, n - 1) + if ws[n - 1].status.Complete? then ws[n - 1].need else 0
  }

  lemma {:induction false} GivenSame(ws: seq<Waiter>, us: seq<Waiter>, n: nat)
    requires n <= |ws| == |us| && forall i :: 0 <= i < n ==> ws[i] == us[i]
    ensures Given(ws, n) == Given(us, n)
  {
    if n > 0 {
      GivenSame(ws, us, n - 1);
    }
  }

  /**
   * First come, first served: of requests that all wait, each in turn is
   * served if and only if it asks for no more than those before it have left.
   */
  lemma {:induction false} ServesInOrder(ws: seq<Waiter>, i: nat, total: int)
    requires i <= |ws| && forall j :: i <= j < |ws| ==> ws[j].status.InProcess? && ws[j].need > 0
    ensures var (us, left) := Serve(ws, i, total);
            && Later(ws, us)
            && (forall j :: 0 <= j < i ==> us[j] == ws[j])
            && left == total + Given(ws, i) - Given(us, |us|)
            && forall j :: i <= j < |us| ==> (us[j].status.Complete? <==> us[j].need <= total + Given(ws, i) - Given(us, j))
    decreases |ws| - i
  {
    if i == |ws| || total <= 0 {
      NoneGiven(ws, i);
    } else {
      var take := ws[i].need <= total;
      var vs := if take then ws[i := ws[i].(status := Complete)] else ws;
      GivenSame(ws, vs, i);
      ServesInOrder(vs, i + 1, if take then total - ws[i].need else total);
      var us := Serve(ws, i, total).0;
      GivenSame(ws, us, i);
    }
  }

  lemma {:induction false} NoneGiven(ws: seq<Waiter>, i: nat)
    requires i <= |ws| && forall j :: i <= j < |ws| ==> ws[j].status.InProcess?
    ensures forall j :: i <= j <= |ws| ==> Given(ws, j) == Given(ws, i)
  {
    var j := i;
    while j < |ws|
      invariant i <= j <= |ws|
      invariant forall k :: i <= k <= j ==> Given(ws, k) == Given(ws, i)
    {
      j := j + 1;
    }
  }

  /** So a post serves its waiters in the order of the table, and keeps what is left. */
  lemma PostServes(s: Sem, cnt: nat)
    requires AllWaiting(s.waiters) && Asking(s)
    ensures var t := Post(s, cnt);
            && Later(s.waiters, t.waiters)
            && t.count == s.count + cnt - Given(t.waiters, |t.waiters|)
            && forall j :: 0 <= j < |t.waiters| ==>
                 (t.waiters[j].status.Complete? <==> t.waiters[j].need <= s.count + cnt - Given(t.waiters, j))
  {
    hide Serve;
    ServesInOrder(s.waiters, 0, cnt + s.count);
  }

  lemma {:induction false} NoneWasted(ws: seq<Waiter>, i: nat, total: int)
    requires i <= |ws| && forall j :: i <= j < |ws| ==> ws[j].status.InProcess?
    ensures Wasted(ws, i, total) == 0
    decreases |ws| - i
  {
    if i < |ws| {
      NoneWasted(ws[i := ws[i].(status := Complete)], i + 1, total - ws[i].need);
      NoneWasted(ws, i + 1, total);
    }
  }

  /** Requests ask for at least one unit. */
  predicate Asking(s: Sem) {
    forall i :: 0 <= i < |s.waiters| ==> s.waiters[i].need > 0
  }

  /** A post keeps the books exactly when it hands nothing to a request served before... */
  lemma PostConserves(s: Sem, cnt: int, initial: int)
    requires Conserved(s, initial)
    ensures Conserved(Post(s, cnt), initial) <==> Wasted(s.waiters, 0, cnt + s.count) == 0
  {
    hide Serve, Wasted, Fresh;
    ServeBooks(s.waiters, 0, cnt + s.count);
  }

  /** ...which it never does while those served have left the table, and then nobody's wake-up is lost either. */
  lemma PostKeeps(s: Sem, cnt: nat, initial: int)
    requires Sound(s, initial) && Asking(s) && AllWaiting(s.waiters)
    ensures Sound(Post(s, cnt), initial) && Asking(Post(s, cnt))
  {
    hide Serve, Wasted, Fresh;
    PostConserves(s, cnt, initial);
    NoneWasted(s.waiters, 0, cnt + s.count);
    ServeMissesNone(s.waiters, 0, cnt + s.count);
    ServeBooks(s.waiters, 0, cnt + s.count);
  }

  /** A post that finds a served request still in the table gives it its units again. */
  lemma LingererWastes() returns (s: Sem)
    ensures Sound(s, 0) && Asking(s)
    ensures Post(s, 2).count == 0 && Post(s, 2).granted == s.granted && !Conserved(Post(s, 2), 0)
  {
    var w := Waiter(0, 2, Complete);
    s := Sem(0, [w], 2, 2);
    var us := [w][0 := w.(status := Complete)];
    assert us == [w];
    assert Serve([w], 0, 2) == Serve(us, 1, 0);
    FreshSame([w]);
  }

  lemma GetKeeps(s: Sem, id: nat, cnt: int, refused: bool, initial: int)
    requires Sound(s, initial) && Asking(s) && cnt > 0
    ensures Sound(Get(s, id, cnt, refused), initial) && Asking(Get(s, id, cnt, refused))
  {
  }

  lemma LeaveKeeps(s: Sem, i: nat, initial: int)
    requires Sound(s, initial) && Asking(s) && i < |s.waiters|
    ensures Sound(Leave(s, i), initial) && Asking(Leave(s, i))
    ensures |Leave(s, i).waiters| == |s.waiters| - 1
    ensures forall j :: 0 <= j < |s.waiters| - 1 ==> Leave(s, i).waiters[j] == s.waiters[if j < i then j else j + 1]
  {
    var ws := Leave(s, i).waiters;
    forall j | 0 <= j < |ws|
      ensures ws[j] == s.waiters[if j < i then j else j + 1]
    {
    }
  }

  // ------------------------------------------------------------------ runs

  datatype Op = PostOp(cnt: nat) | GetOp(id: nat, need: int, refused: bool) | LeaveOp(index: nat)

  /** A thread leaves once served; whoever posts finds only threads that still wait. */
  predicate Allowed(s: Sem, op: Op) {
    match op
    case PostOp(_) => AllWaiting(s.waiters)
    case GetOp(_, n, _) => n > 0
    case LeaveOp(i) => i < |s.waiters| && s.waiters[i].status.Complete?
  }

  function Do(s: Sem, op: Op): Sem
    requires Allowed(s, op)
  {
    match op
    case PostOp(n) => Post(s, n)
    case GetOp(id, n, nb) => Get(s, id, n, nb)
    case LeaveOp(i) => Leave(s, i)
  }

  predicate Runs(s: Sem, ops: seq<Op>, t: Sem)
    decreases ops
  {
    if ops == [] then t == s else Allowed(s, ops[0]) && Runs(Do(s, ops[0]), ops[1..], t)
  }

  /** Over every such run units are conserved and no wake-up is lost. */
  lemma {:induction false} RunKeeps(s: Sem, ops: seq<Op>, t: Sem, initial: int)
    requires Sound(s, initial) && Asking(s) && Runs(s, ops, t)
    ensures Sound(t, initial) && Asking(t)
    decreases ops
  {
    hide Sound, Asking, Post, Get, Leave;
    if ops != [] {
      match ops[0] {
        case PostOp(n) => PostKeeps(s, n, initial);
        case GetOp(id, n, nb) => GetKeeps(s, id, n, nb, initial);
        case LeaveOp(i) => LeaveKeeps(s, i, initial);
      }
      RunKeeps(Do(s, ops[0]), ops[1..], t, initial);
    }
  }

  lemma NewIsSound(initial: nat)
    ensures Sound(Sem(initial, [], 0, 0), initial) && Asking(Sem(initial, [], 0, 0))
  {
  }

  // ------------------------------------------------------------------ the program

  class Semaphore {
    var count: int

    constructor (initCount: int)
      ensures count == initCount
    {
      count := initCount;
    }
  }

  ghost function ToWaiter(e: EventReq): Waiter
    reads e`status
  {
    Waiter(e.id, e.reqLen, e.status)
  }

  /** The requests for one semaphore, among those of all. */
  ghost function Waiters(events: seq<EventReq>, sem: Semaphore): seq<Waiter>
    reads events`status
  {
    if events == [] then []
    else
      var n := |events| - 1;
      Waiters(events[..n], sem) + if events[n].obj == sem then [ToWaiter(events[n])] else []
  }

  lemma NoneBefore(events: seq<EventReq>, sem: Semaphore)
    ensures Waiters(events[..0], sem) == []
  {
  }

  /** The request at position i of the table, within its semaphore's own sequence. */
  lemma {:induction false} WaitersAt(events: seq<EventReq>, sem: Semaphore, i: nat)
    requires i < |events|
    ensures |Waiters(events[..i + 1], sem)| <= |Waiters(events, sem)|
    ensures |Waiters(events[..i + 1], sem)| == |Waiters(events[..i], sem)| + if events[i].obj == sem then 1 else 0
    ensures events[i].obj == sem ==> Waiters(events, sem)[|Waiters(events[..i], sem)|] == ToWaiter(events[i])
  {
    assert events[..i + 1][..i] == events[..i];
    var n := |events| - 1;
    if i < n {
      WaitersAt(events[..n], sem, i);
      assert events[..n][..i] == events[..i] && events[..n][..i + 1] == events[..i + 1];
    } else {
      assert events[..i + 1] == events;
    }
  }

  /** Values of all requests as they were, the one at i apart. */
  ghost predicate ToWaiters(before: seq<Waiter>, events: seq<EventReq>, i: int)
    reads events`status
  {
    |before| == |events| && forall j :: 0 <= j < |events| && j != i ==> before[j] == ToWaiter(events[j])
  }

  ghost function Picked(before: seq<Waiter>, events: seq<EventReq>, sem: Semaphore): seq<Waiter>
    requires |before| == |events|
  {
    if events == [] then []
    else
      var n := |events| - 1;
      Picked(before[..n], events[..n], sem) + if events[n].obj == sem then [before[n]] else []
  }

  lemma {:induction false} PickedSame(events: seq<EventReq>, sem: Semaphore, before: seq<Waiter>)
    requires ToWaiters(before, events, -1)
    ensures Waiters(events, sem) == Picked(before, events, sem)
  {
    if events != [] {
      PickedSame(events[..|events| - 1], sem, before[..|events| - 1]);
    }
  }

  /** One request's status changed: so did one entry of its semaphore's sequence, and none of another's. */
  lemma {:induction false} WaitersUpdated(events: seq<EventReq>, sem: Semaphore, i: nat, before: seq<Waiter>)
    requires i < |events| && ToWaiters(before, events, i)
    ensures events[i].obj != sem ==> Waiters(events, sem) == Picked(before, events, sem)
    ensures events[i].obj == sem ==>
              && |Waiters(events, sem)| == |Picked(before, events, sem)|
              && |Waiters(events[..i], sem)| < |Picked(before, events, sem)|
              && Waiters(events, sem) == Picked(before, events, sem)[|Waiters(events[..i], sem)| := ToWaiter(events[i])]
  {
    var n := |events| - 1;
    if i < n {
      WaitersUpdated(events[..n], sem, i, before[..n]);
      assert events[..n][..i] == events[..i];
    } else {
      PickedSame(events[..n], sem, before[..n]);
    }
  }

  ghost function All(events: seq<EventReq>): (ws: seq<Waiter>)
    ensures ToWaiters(ws, events, -1)
    reads events`status
  {
    if events == [] then [] else All(events[..|events| - 1]) + [ToWaiter(events[|events| - 1])]
  }

  /** Taking a request out of the table takes it out of its semaphore's sequence, and nothing out of another's. */
  lemma {:induction false} WaitersCut(events: seq<EventReq>, sem: Semaphore, i: nat)
    requires i < |events|
    ensures var ws, k := Waiters(events, sem), |Waiters(events[..i], sem)|;
            if events[i].obj == sem then k < |ws| && Waiters(Cut(events, i), sem) == ws[..k] + ws[k + 1..]
            else Waiters(Cut(events, i), sem) == ws
  {
    var n := |events| - 1;
    if i == n {
      assert Cut(events, i) == events[..n] && events[..i] == events[..n];
      var ws, k := Waiters(events, sem), |Waiters(events[..i], sem)|;
      if events[i].obj == sem {
        assert ws[..k] == Waiters(events[..n], sem) && ws[k + 1..] == [];
      }
    } else {
      WaitersCut(events[..n], sem, i);
      assert Cut(events, i)[..n - 1] == Cut(events[..n], i) && Cut(events, i)[n - 1] == events[n];
      assert events[..n][..i] == events[..i];
    }
  }

  /** Completes one request. */
  method Finish(e: EventReq, ghost events: seq<EventReq>, ghost i: nat, ghost sem: Semaphore)
    requires NoTwice(events) && i < |events| && events[i] == e && e.obj == sem
    modifies e`status
    ensures |old(Waiters(events[..i], sem))| == |Waiters(events[..i], sem)| < |old(Waiters(events, sem))|
    ensures var ws, k := old(Waiters(events, sem)), |Waiters(events[..i], sem)|;
            Waiters(events, sem) == ws[k := ws[k].(status := Complete)]
  {
    ghost var before := All(events);
    PickedSame(events, sem, before);
    WaitersAt(events, sem, i);
    ghost var k := |Waiters(events[..i], sem)|;
    e.status := Complete;
    assert forall j :: 0 <= j < |events| && j != i ==> ToWaiter(events[j]) == before[j];
    WaitersUpdated(events, sem, i, before);
    WaitersAt(events, sem, i);
    PickedSame(events[..i], sem, before[..i]);
  }

  /** One turn of the posting loop. */
  method Offer(e: EventReq, sem: Semaphore, total: int, ghost events: seq<EventReq>, ghost i: nat) returns (left: int)
    requires NoTwice(events) && i < |events| && events[i] == e && total > 0
    requires |Waiters(events[..i], sem)| <= |Waiters(events, sem)|
    modifies e`status
    ensures |Waiters(events[..i + 1], sem)| <= |Waiters(events, sem)|
    ensures Serve(Waiters(events, sem), |Waiters(events[..i + 1], sem)|, left)
         == old(Serve(Waiters(events, sem), |Waiters(events[..i], sem)|, total))
    ensures e.obj != sem ==> e.status == old(e.status)
  {
    hide Waiters;
    WaitersAt(events, sem, i);
    left := total;
    if e.obj == sem && e.reqLen <= total {
      Finish(e, events, i, sem);
      WaitersAt(events, sem, i);
      left := total - e.reqLen;
    }
  }

  /** Posts units: the requests of this semaphore are served in table order while there are any; those of others are left alone. */
  method PostSem(table: EventTable, sem: Semaphore, cnt: int)
    requires table.Valid()
    modifies sem, table.events`status
    ensures table.Valid()
    ensures (Waiters(table.events, sem), sem.count) == Serve(old(Waiters(table.events, sem)), 0, cnt + old(sem.count))
    ensures forall e :: e in table.events && e.obj != sem ==> e.status == old(e.status)
  {
    hide Serve, Waiters, NoTwice;
    NoneBefore(table.events, sem);
    ghost var events := table.events;
    ghost var ws, all := Waiters(events, sem), cnt + sem.count;
    var total := cnt + sem.count;
    var i := 0;
    while i < table.nEvents && total > 0
      invariant table.Valid() && table.events == events
      invariant 0 <= i <= table.nEvents && |Waiters(events[..i], sem)| <= |Waiters(events, sem)|
      invariant Serve(Waiters(events, sem), |Waiters(events[..i], sem)|, total) == Serve(ws, 0, all)
      invariant forall e :: e in events && e.obj != sem ==> e.status == old(e.status)
    {
      total := Offer(table.table[i], sem, total, events, i);
      i := i + 1;
    }
    assert i == |events| ==> events[..i] == events;
    ServeEnds(Waiters(events, sem), |Waiters(events[..i], sem)|, total);
    sem.count := total;
  }

  /** Takes units when there are enough, gives up if told not to wait or if the table is full, and otherwise waits at its end. */
  method GetSem(table: EventTable, sem: Semaphore, cnt: int, noBlock: bool, id: nat) returns (event: EventReq?, code: int)
    requires table.Valid()
    modifies table, table.table, sem
    ensures table.Valid()
    ensures code == if event == null && old(sem.count) < cnt then -1 else 0
    ensures event != null <==> old(sem.count) < cnt && !noBlock && |old(table.events)| < MAX_EVENTS
    ensures event != null ==> fresh(event)
    ensures sem.count == if old(sem.count) >= cnt then old(sem.count) - cnt else old(sem.count)
    ensures table.events == if event == null then old(table.events) else old(table.events) + [event]
    ensures Waiters(table.events, sem) == old(Waiters(table.events, sem)) + if event == null then [] else [Waiter(id, cnt, InProcess)]
  {
    if sem.count >= cnt {
      sem.count := sem.count - cnt;
      return null, 0;
    }
    if noBlock {
      return null, -1;
    }
    var e := new EventReq(id, sem, cnt);
    ghost var was := table.events;
    var idx := table.Add(e);
    if idx == -1 {
      return null, -1;
    }
    assert table.events[..|table.events| - 1] == was;
    event := e;
    code := 0;
  }

  /** A thread whose request has been served takes it out of the table. */
  method LeaveTable(table: EventTable, event: EventReq, sem: Semaphore)
    requires table.Valid() && event in table.events && event.obj == sem
    modifies table, table.table, table.events`tableIdx
    ensures table.Valid()
    ensures var events := old(table.events);
            var i, ws := old(event.tableIdx), old(Waiters(table.events, sem));
            && 0 <= i < |events| && events[i] == event && table.events == Cut(events, i)
            && var k := |old(Waiters(table.events[..event.tableIdx], sem))|;
               k < |ws| && Waiters(table.events, sem) == ws[..k] + ws[k + 1..]
  {
    hide Waiters;
    ghost var events := table.events;
    ghost var i :| 0 <= i < |events| && events[i] == event;
    WaitersCut(events, sem, i);
    var gone := table.RemoveIdx(event.tableIdx);
  }
}
