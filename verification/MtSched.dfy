/**
 * The scheduler's count-downs: the thread that ran is charged for its ticks,
 * the first runnable thread with the lowest count-down runs next, and the
 * lowest count-down of all is then subtracted from every thread.
 */
module MtSched {

  /** One thread as a round sees it. */
  datatype Task = Task(cntDown: int, prio: nat, runnable: bool)

  /** The ticks a thread used weigh as much as its priority number. */
  function Charged(ts: seq<Task>, who: nat, ticks: nat): seq<Task>
    requires who < |ts|
  {
    ts[who := ts[who].(cntDown := ts[who].cntDown + ticks * ts[who].prio)]
  }

  /** The first runnable thread with the lowest count-down below position n, or n. */
  predicate IsPick(ts: seq<Task>, n: nat, k: nat)
    requires n <= |ts|
  {
    if k < n then
      && ts[k].runnable
      && (forall j :: 0 <= j < n && ts[j].runnable ==> ts[k].cntDown <= ts[j].cntDown)
      && (forall j :: 0 <= j < k && ts[j].runnable ==> ts[k].cntDown < ts[j].cntDown)
    else k == n && forall j :: 0 <= j < n ==> !ts[j].runnable
  }

  function Lowest(ts: seq<Task>): (m: int)
    requires ts != []
    ensures forall j :: 0 <= j < |ts| ==> m <= ts[j].cntDown
    ensures exists j :: 0 <= j < |ts| && m == ts[j].cntDown
  {
    var n := |ts| - 1;
    if n == 0 then
      assert ts[0].cntDown == ts[0].cntDown;
      ts[0].cntDown
    else
      var m := Lowest(ts[..n]);
      if ts[n].cntDown < m then
        assert ts[n].cntDown == ts[n].cntDown;
        ts[n].cntDown
      else
        assert exists j :: 0 <= j < |ts| && m == ts[j].cntDown by {
          var j :| 0 <= j < n && m == ts[..n][j].cntDown;
          assert ts[j].cntDown == m;
        }
        m
  }

  function Floored(x: int): int {
    if x < 0 then 0 else x
  }

  /** After a round that slept for some ticks: everyone comes down by the lowest count, and by the sleep, but not below zero. */
  function Normalised(ts: seq<Task>, slept: nat): (us: seq<Task>)
    requires ts != []
    ensures |us| == |ts|
    ensures forall i :: 0 <= i < |ts| ==>
              us[i] == if Lowest(ts) + slept > 0
                       then Lowered(ts[i], Lowest(ts), slept)
                       else ts[i]
  {
    var low := Lowest(ts);
    if low + slept > 0
    then seq(|ts|, i requires 0 <= i < |ts| => Lowered(ts[i], low, slept))
    else ts
  }

  function Lowered(t: Task, low: int, slept: nat): Task {
    t.(cntDown := Floored(t.cntDown - (low + slept * t.prio)))
  }

  // ------------------------------------------------------------------ runs

  /** One round: who ran and for how many ticks, how long the poll slept, and who is runnable when it is over. */
  datatype Round = Round(ticks: nat, slept: nat, ready: seq<bool>)

  function Ready(ts: seq<Task>, ready: seq<bool>): (us: seq<Task>)
    requires |ready| == |ts|
    ensures |us| == |ts|
    ensures forall i :: 0 <= i < |ts| ==> us[i] == ts[i].(runnable := ready[i])
  {
    seq(|ts|, i requires 0 <= i < |ts| => ts[i].(runnable := ready[i]))
  }

  /** From one selection to the next: normalise, let the chosen thread run, and learn who is runnable. */
  function Next(ts: seq<Task>, chosen: nat, r: Round): (us: seq<Task>)
    requires ts != [] && chosen < |ts| && |r.ready| == |ts|
    ensures |us| == |ts|
  {
    Ready(Charged(Normalised(ts, r.slept), chosen, r.ticks), r.ready)
  }

  /** A run of selections, ts being the table at the first one. */
  predicate Runs(ts: seq<Task>, chosen: seq<nat>, rounds: seq<Round>)
    requires |chosen| == |rounds|
    decreases chosen
  {
    chosen != [] ==>
      && ts != []
      && chosen[0] < |ts|
      && IsPick(ts, |ts|, chosen[0])
      && |rounds[0].ready| == |ts|
      && Runs(Next(ts, chosen[0], rounds[0]), chosen[1..], rounds[1..])
  }

  /** How far u is ahead of w: how many selections u can win before w overtakes it. */
  function Lead(ts: seq<Task>, w: nat, u: nat): nat
    requires w < |ts| && u < |ts|
  {
    if u == w then 0 else Floored(ts[w].cntDown - ts[u].cntDown + if u < w then 1 else 0)
  }

  /** All leads over w together. */
  function Leads(ts: seq<Task>, w: nat, n: nat): nat
    requires w < |ts| && n <= |ts|
  {
    if n == 0 then 0 else Leads(ts, w, n - 1) + Lead(ts, w, n - 1)
  }

  predicate Counting(ts: seq<Task>) {
    forall i :: 0 <= i < |ts| ==> ts[i].cntDown >= 0 && ts[i].prio >= 1
  }

  /** What the others weigh together: as much as a tick of sleep can give them over w. */
  function Rivals(ts: seq<Task>, w: nat, n: nat): nat
    requires w < |ts| && n <= |ts|
  {
    if n == 0 then 0 else Rivals(ts, w, n - 1) + if n - 1 == w then 0 else ts[n - 1].prio
  }

  /** Ticks slept in all. */
  function Slept(rounds: seq<Round>): nat {
    if rounds == [] then 0 else rounds[0].slept + Slept(rounds[1..])
  }

  lemma NormalisedIs(ts: seq<Task>, low: int, slept: nat, us: seq<Task>)
    requires ts != [] && low == Lowest(ts) && |us| == |ts|
    requires forall i :: 0 <= i < |ts| ==> us[i] == if low + slept > 0 then Lowered(ts[i], low, slept) else ts[i]
    ensures us == Normalised(ts, slept)
  {
    hide Lowered, Lowest;
  }

  lemma NormalisedAt(ts: seq<Task>, slept: nat, i: nat)
    requires ts != [] && Counting(ts) && i < |ts|
    ensures Lowest(ts) >= 0
    ensures Normalised(ts, slept)[i] == ts[i].(cntDown := Floored(ts[i].cntDown - Lowest(ts) - slept * ts[i].prio))
  {
    hide Lowest;
    if Lowest(ts) + slept == 0 {
      assert slept * ts[i].prio == 0;
    }
  }

  lemma NextAt(ts: seq<Task>, c: nat, r: Round, i: nat)
    requires ts != [] && Counting(ts) && c < |ts| && |r.ready| == |ts| && i < |ts|
    ensures Lowest(ts) >= 0
    ensures Next(ts, c, r)[i].cntDown ==
            Floored(ts[i].cntDown - Lowest(ts) - r.slept * ts[i].prio) + if i == c then r.ticks * ts[c].prio else 0
    ensures Next(ts, c, r)[i].runnable == r.ready[i] && Next(ts, c, r)[i].prio == ts[i].prio
  {
    NormalisedAt(ts, r.slept, i);
    NormalisedAt(ts, r.slept, c);
  }

  lemma NextCounts(ts: seq<Task>, c: nat, r: Round)
    requires ts != [] && Counting(ts) && c < |ts| && |r.ready| == |ts|
    ensures Counting(Next(ts, c, r))
  {
    forall i | 0 <= i < |ts|
      ensures Next(ts, c, r)[i].cntDown >= 0 && Next(ts, c, r)[i].prio >= 1
    {
      NextAt(ts, c, r, i);
      assert r.ticks * ts[c].prio >= 0;
    }
  }

  lemma {:induction false} SameRivals(ts: seq<Task>, us: seq<Task>, w: nat, n: nat)
    requires |us| == |ts| && w < |ts| && n <= |ts| && forall i :: 0 <= i < |ts| ==> us[i].prio == ts[i].prio
    ensures Rivals(us, w, n) == Rivals(ts, w, n)
  {
    if n > 0 {
      SameRivals(ts, us, w, n - 1);
    }
  }

  /**
   * A selection that passes w over uses up one of the winner's leads; nobody
   * gets a new one, except for what the ticks slept weigh.
   */
  lemma {:induction false} LeadsDrop(ts: seq<Task>, w: nat, c: nat, r: Round, n: nat)
    requires ts != [] && Counting(ts) && w < |ts| && ts[w].runnable
    requires c < |ts| && c != w && IsPick(ts, |ts|, c) && |r.ready| == |ts|
    requires r.ticks >= 1 && n <= |ts|
    ensures Leads(Next(ts, c, r), w, n) + (if c < n then 1 else 0) <= Leads(ts, w, n) + r.slept * Rivals(ts, w, n)
  {
    if n > 0 {
      hide IsPick, Next, Lowest;
      LeadsDrop(ts, w, c, r, n - 1);
      LeadDrops(ts, w, c, r, n - 1);
      var p := if n - 1 == w then 0 else ts[n - 1].prio;
      Distributes(r.slept, Rivals(ts, w, n - 1), p);
    }
  }

  lemma LeadDrops(ts: seq<Task>, w: nat, c: nat, r: Round, u: nat)
    requires ts != [] && Counting(ts) && w < |ts| && ts[w].runnable
    requires c < |ts| && c != w && IsPick(ts, |ts|, c) && |r.ready| == |ts|
    requires r.ticks >= 1 && u < |ts|
    ensures Lead(Next(ts, c, r), w, u) + (if u == c then 1 else 0) <= Lead(ts, w, u) + if u == w then 0 else r.slept * ts[u].prio
  {
    hide Lowest, Next;
    NextAt(ts, c, r, u);
    NextAt(ts, c, r, w);
    AtLeastOne(r.ticks, ts[c].prio);
    assert r.slept * ts[w].prio >= 0 && r.slept * ts[u].prio >= 0;
    assert Lowest(ts) <= ts[w].cntDown && Lowest(ts) <= ts[u].cntDown;
  }

  lemma Distributes(k: int, x: int, y: int)
    ensures k * (x + y) == k * x + k * y && (x + y) * k == x * k + y * k
  {
  }

  /** How often w may be passed over: its competitors' leads, and their weight for every tick slept. */
  function Patience(ts: seq<Task>, w: nat, rounds: seq<Round>): nat
    requires w < |ts|
  {
    Leads(ts, w, |ts|) + Slept(rounds) * Rivals(ts, w, |ts|)
  }

  lemma PatienceDrops(ts: seq<Task>, us: seq<Task>, w: nat, rounds: seq<Round>)
    requires rounds != [] && |us| == |ts| && w < |ts| && Rivals(us, w, |ts|) == Rivals(ts, w, |ts|)
    requires Leads(us, w, |ts|) + 1 <= Leads(ts, w, |ts|) + rounds[0].slept * Rivals(ts, w, |ts|)
    ensures Patience(us, w, rounds[1..]) + 1 <= Patience(ts, w, rounds)
  {
    hide Leads, Rivals;
    Distributes(Rivals(ts, w, |ts|), rounds[0].slept, Slept(rounds[1..]));
  }

  lemma AtLeastOne(a: nat, b: nat)
    requires a >= 1 && b >= 1
    ensures a * b >= 1
  {
  }

  /**
   * Bounded waiting: while whoever runs uses at least a tick, a thread that
   * stays runnable is passed over no more often than its competitors' leads at
   * the start allow, and their weight for every tick slept meanwhile. Without
   * sleep the leads are counted once and for all.
   */
  lemma {:induction false} BoundedWaiting(ts: seq<Task>, chosen: seq<nat>, rounds: seq<Round>, w: nat)
    requires |chosen| == |rounds| && Runs(ts, chosen, rounds)
    requires Counting(ts) && w < |ts| && ts[w].runnable
    requires forall i :: 0 <= i < |rounds| ==> rounds[i].ticks >= 1
    requires forall i :: 0 <= i < |rounds| ==> w < |rounds[i].ready| && rounds[i].ready[w]
    requires w !in chosen
    ensures |chosen| <= Patience(ts, w, rounds)
    decreases chosen
  {
    if chosen != [] {
      hide IsPick, Lowest, Leads, Rivals, Next, Patience;
      var us, r := Next(ts, chosen[0], rounds[0]), rounds[0];
      NextCounts(ts, chosen[0], r);
      forall i | 0 <= i < |ts|
        ensures us[i].prio == ts[i].prio && us[i].runnable == r.ready[i]
      {
        NextAt(ts, chosen[0], r, i);
      }
      SameRivals(ts, us, w, |ts|);
      LeadsDrop(ts, w, chosen[0], r, |ts|);
      BoundedWaiting(us, chosen[1..], rounds[1..], w);
      PatienceDrops(ts, us, w, rounds);
    }
  }

  // ------------------------------------------------------------------ shares

  /** The ticks a thread ran in all. */
  function Ran(chosen: seq<nat>, rounds: seq<Round>, i: nat): nat
    requires |chosen| == |rounds|
  {
    if chosen == [] then 0
    else (if chosen[0] == i then rounds[0].ticks else 0) + Ran(chosen[1..], rounds[1..], i)
  }

  /** The table at the end of a run. */
  function After(ts: seq<Task>, chosen: seq<nat>, rounds: seq<Round>): (us: seq<Task>)
    requires |chosen| == |rounds| && Runs(ts, chosen, rounds)
    ensures |us| == |ts|
    decreases chosen
  {
    if chosen == [] then ts else After(Next(ts, chosen[0], rounds[0]), chosen[1..], rounds[1..])
  }

  predicate NoSleep(rounds: seq<Round>) {
    forall i :: 0 <= i < |rounds| ==> rounds[i].slept == 0
  }

  /** Without sleep nothing is lost: what sets two threads apart is what each was charged. */
  lemma {:induction false} ChargesAddUp(ts: seq<Task>, chosen: seq<nat>, rounds: seq<Round>, i: nat, j: nat)
    requires |chosen| == |rounds| && Runs(ts, chosen, rounds) && NoSleep(rounds)
    requires Counting(ts) && i < |ts| && j < |ts|
    ensures var us := After(ts, chosen, rounds);
            us[i].cntDown - us[j].cntDown ==
            ts[i].cntDown - ts[j].cntDown + ts[i].prio * Ran(chosen, rounds, i) - ts[j].prio * Ran(chosen, rounds, j)
    decreases chosen
  {
    if chosen != [] {
      hide Next, Lowest, IsPick;
      var us, r, c := Next(ts, chosen[0], rounds[0]), rounds[0], chosen[0];
      NextCounts(ts, c, r);
      NextApart(ts, c, r, i);
      NextApart(ts, c, r, j);
      ChargesAddUp(us, chosen[1..], rounds[1..], i, j);
      RanMore(chosen, rounds, i, ts[i].prio);
      RanMore(chosen, rounds, j, ts[j].prio);
      hide *;
    }
  }

  lemma RanMore(chosen: seq<nat>, rounds: seq<Round>, i: nat, p: nat)
    requires |chosen| == |rounds| && chosen != []
    ensures p * Ran(chosen, rounds, i) ==
            (if chosen[0] == i then p * rounds[0].ticks else 0) + p * Ran(chosen[1..], rounds[1..], i)
  {
    Distributes(p, if chosen[0] == i then rounds[0].ticks else 0, Ran(chosen[1..], rounds[1..], i));
  }

  /** A round without sleep lowers all counts alike, but for the charge. */
  lemma NextApart(ts: seq<Task>, c: nat, r: Round, i: nat)
    requires ts != [] && Counting(ts) && c < |ts| && |r.ready| == |ts| && i < |ts| && r.slept == 0
    ensures Next(ts, c, r)[i].cntDown == ts[i].cntDown - Lowest(ts) + if c == i then ts[i].prio * r.ticks else 0
    ensures Next(ts, c, r)[i].prio == ts[i].prio && Next(ts, c, r)[i].runnable == r.ready[i]
  {
    NextAt(ts, c, r, i);
    hide *;
    assert Lowest(ts) <= ts[i].cntDown;
    Slight(r.slept, ts[i].prio);
    Swapped(r.ticks, ts[c].prio);
    FlooredIs(ts[i].cntDown - Lowest(ts));
  }

  lemma Slight(a: int, b: int)
    requires a == 0
    ensures a * b == 0
  {
  }

  lemma Swapped(a: int, b: int)
    ensures a * b == b * a
  {
  }

  lemma FlooredIs(x: int)
    requires x >= 0
    ensures Floored(x) == x
  {
  }

  /**
   * Fair shares: while j stays runnable, nobody sleeps and nobody runs for more
   * than m ticks at a time, any other thread's ticks weigh no more than j's,
   * but for what set them apart at the start and for one turn.
   */
  lemma FairShares(ts: seq<Task>, chosen: seq<nat>, rounds: seq<Round>, i: nat, j: nat, m: nat)
    requires |chosen| == |rounds| && Runs(ts, chosen, rounds) && NoSleep(rounds)
    requires Counting(ts) && i < |ts| && j < |ts| && ts[j].runnable
    requires forall k :: 0 <= k < |rounds| ==> rounds[k].ticks <= m && j < |rounds[k].ready| && rounds[k].ready[j]
    ensures var apart := ts[i].cntDown - ts[j].cntDown;
            ts[i].prio * Ran(chosen, rounds, i) <=
            ts[j].prio * Ran(chosen, rounds, j) + Floored(ts[i].prio * m - apart)
  {
    ChargesAddUp(ts, chosen, rounds, i, j);
    StaysClose(ts, chosen, rounds, i, j, m);
  }

  function Larger(a: int, b: int): int {
    if a < b then b else a
  }

  /** Whoever is picked was not behind, so one turn is all it can get ahead by. */
  lemma {:induction false} StaysClose(ts: seq<Task>, chosen: seq<nat>, rounds: seq<Round>, i: nat, j: nat, m: nat)
    requires |chosen| == |rounds| && Runs(ts, chosen, rounds) && NoSleep(rounds)
    requires Counting(ts) && i < |ts| && j < |ts| && ts[j].runnable
    requires forall k :: 0 <= k < |rounds| ==> rounds[k].ticks <= m && j < |rounds[k].ready| && rounds[k].ready[j]
    ensures var us := After(ts, chosen, rounds);
            us[i].cntDown - us[j].cntDown <= Larger(ts[i].cntDown - ts[j].cntDown, ts[i].prio * m)
    decreases chosen
  {
    if chosen != [] {
      hide Next, Lowest;
      var us, r, c := Next(ts, chosen[0], rounds[0]), rounds[0], chosen[0];
      assert c == i ==> ts[i].cntDown <= ts[j].cntDown;
      hide IsPick;
      NextCounts(ts, c, r);
      NextApart(ts, c, r, i);
      NextApart(ts, c, r, j);
      AtMost(ts[i].prio, r.ticks, m);
      AtMost(ts[j].prio, 0, r.ticks);
      StaysClose(us, chosen[1..], rounds[1..], i, j, m);
    }
  }

  lemma AtMost(p: nat, a: nat, b: nat)
    requires a <= b
    ensures p * a <= p * b && p * 0 == 0
  {
  }

  /** After a round the lowest count is zero. */
  lemma NormalisedLowest(ts: seq<Task>, slept: nat)
    requires ts != [] && Counting(ts)
    ensures Counting(Normalised(ts, slept)) && Lowest(Normalised(ts, slept)) == 0
  {
    hide Normalised, Lowest;
    var us := Normalised(ts, slept);
    var k :| 0 <= k < |ts| && Lowest(ts) == ts[k].cntDown;
    NormalisedAt(ts, slept, k);
    assert slept * ts[k].prio >= 0;
    forall i | 0 <= i < |ts|
      ensures us[i].cntDown >= 0 && us[i].prio >= 1
    {
      NormalisedAt(ts, slept, i);
    }
    LowestIs(us, k);
  }

  lemma LowestIs(us: seq<Task>, k: nat)
    requires k < |us| && us[k].cntDown == 0 && Counting(us)
    ensures Lowest(us) == 0
  {
    hide Lowest;
  }

  /** A tick of sleep takes back what a tick of running cost, if somebody else is due. */
  lemma SleepRepays(ts: seq<Task>, who: nat, other: nat, ticks: nat)
    requires Counting(ts) && who < |ts| && other < |ts| && who != other && ts[other].cntDown == 0
    ensures Normalised(Charged(ts, who, ticks), ticks)[who] == ts[who]
  {
    var us := Charged(ts, who, ticks);
    assert ticks * ts[who].prio >= 0;
    assert us[other] == ts[other];
    LowestIs(us, other);
    hide Lowest;
    NormalisedAt(us, ticks, who);
  }

  // ------------------------------------------------------------------ sleeping polls

  /** Three equal threads, all runnable, of which a has the given count. */
  function Three(a: nat): (ts: seq<Task>)
    requires a < 3
    ensures |ts| == 3
  {
    seq(3, i requires 0 <= i < 3 => Task(if i == a then 1 else 0, 1, true))
  }

  function Alternating(n: nat, first: nat): seq<nat> {
    if n == 0 then [] else [first] + Alternating(n - 1, 1 - (if first == 0 then 0 else 1))
  }

  lemma AlternatingSize(n: nat, first: nat)
    requires first < 2
    ensures |Alternating(n, first)| == n && 2 !in Alternating(n, first)
  {
  }

  const NAP: Round := Round(1, 1, [true, true, true])

  /** With a tick of sleep in every round the count-downs never separate the third thread from the others. */
  lemma NapStep(a: nat)
    requires a < 2
    ensures IsPick(Three(a), 3, 1 - a) && Next(Three(a), 1 - a, NAP) == Three(1 - a)
  {
    var ts := Three(a);
    assert ts[2].cntDown == 0 && ts[a].cntDown == 1 && ts[1 - a].cntDown == 0;
    var us := Normalised(ts, 1);
    assert Lowest(ts) == 0;
    assert us == [Task(0, 1, true), Task(0, 1, true), Task(0, 1, true)];
  }

  /** Naps(n): n rounds, each with a tick of sleep. */
  function Naps(n: nat): (r: seq<Round>)
    ensures |r| == n
  {
    if n == 0 then [] else [NAP] + Naps(n - 1)
  }

  /** So bounded waiting needs its hypothesis: one tick of sleep per round, and two threads starve the third forever. */
  lemma {:induction false} SleepStarves(n: nat, a: nat)
    requires a < 2
    ensures |Alternating(n, 1 - a)| == n && 2 !in Alternating(n, 1 - a)
    ensures Runs(Three(a), Alternating(n, 1 - a), Naps(n))
    decreases n
  {
    hide IsPick, Next, Three;
    AlternatingSize(n, 1 - a);
    if n > 0 {
      AlternatingSize(n - 1, a);
      NapStep(a);
      SleepStarves(n - 1, 1 - a);
      var cs, rs := Alternating(n, 1 - a), Naps(n);
      assert cs[1..] == Alternating(n - 1, a) && rs[1..] == Naps(n - 1);
    }
  }

  /** Four equal threads, all runnable, of which three come due one after the other and the fourth at once. */
  function Four(next: nat): (ts: seq<Task>)
    requires next < 3
    ensures |ts| == 4
  {
    seq(4, i requires 0 <= i < 4 => Task(if i == 3 then 0 else (i + 3 - next) % 3, 1, true))
  }

  const HALF: Round := Round(2, 1, [true, true, true, true])

  /** Who is due when. */
  lemma Apart(next: nat)
    requires next < 3
    ensures Counting(Four(next))
    ensures forall i :: 0 <= i < 3 ==> (Four(next)[i].cntDown == 0 <==> i == next)
    ensures forall i :: 0 <= i < 3 ==>
              Four((next + 1) % 3)[i].cntDown == if i == next then 2 else Floored(Four(next)[i].cntDown - 1)
  {
  }

  /** A winner that uses two ticks is back at zero after two rounds that sleep one each. */
  lemma HalfStep(next: nat)
    requires next < 3
    ensures IsPick(Four(next), 4, next) && Next(Four(next), next, HALF) == Four((next + 1) % 3)
  {
    var ts := Four(next);
    assert ts[3].cntDown == 0 && Lowest(ts) == 0;
    hide Lowest, Normalised;
    Apart(next);
    forall i | 0 <= i < 4
      ensures Next(ts, next, HALF)[i] == Four((next + 1) % 3)[i]
    {
      NextAt(ts, next, HALF, i);
    }
  }

  function Rotating(n: nat, first: nat): seq<nat> {
    if n == 0 then [] else [first] + Rotating(n - 1, (first + 1) % 3)
  }

  lemma {:induction false} RotatingSize(n: nat, first: nat)
    requires first < 3
    ensures |Rotating(n, first)| == n && 3 !in Rotating(n, first)
    decreases n
  {
    if n > 0 {
      RotatingSize(n - 1, (first + 1) % 3);
    }
  }

  function Halves(n: nat): (r: seq<Round>)
    ensures |r| == n
  {
    if n == 0 then [] else [HALF] + Halves(n - 1)
  }

  /** Nor is it enough that every round sleeps less than its winner uses: three threads starve the fourth forever. */
  lemma {:induction false} ShortSleepStarves(n: nat, next: nat)
    requires next < 3
    ensures |Rotating(n, next)| == n && 3 !in Rotating(n, next)
    ensures Runs(Four(next), Rotating(n, next), Halves(n))
    decreases n
  {
    hide IsPick, Next, Four;
    RotatingSize(n, next);
    if n > 0 {
      RotatingSize(n - 1, (next + 1) % 3);
      HalfStep(next);
      ShortSleepStarves(n - 1, (next + 1) % 3);
      var cs, rs := Rotating(n, next), Halves(n);
      assert cs[1..] == Rotating(n - 1, (next + 1) % 3) && rs[1..] == Halves(n - 1);
    }
  }

  // ------------------------------------------------------------------ the scheduler

  class Thread {
    const prio: nat
    var cntDown: int
    var runnable: bool

    constructor (prio: nat)
      ensures this.prio == prio && cntDown == 0 && runnable
    {
      this.prio := prio;
      cntDown := 0;
      runnable := true;
    }

    ghost function ToTask(): Task
      reads this
    {
      Task(cntDown, prio, runnable)
    }
  }

  ghost function Tasks(ths: seq<Thread>): (ts: seq<Task>)
    ensures |ts| == |ths|
    ensures forall i :: 0 <= i < |ths| ==> ts[i] == ths[i].ToTask()
    reads ths
  {
    if ths == [] then [] else [ths[0].ToTask()] + Tasks(ths[1..])
  }

  class Scheduler {
    const threads: seq<Thread>

    ghost predicate Valid() {
      forall i, j :: 0 <= i < j < |threads| ==> threads[i] != threads[j]
    }

    constructor (threads: seq<Thread>)
      requires forall i, j :: 0 <= i < j < |threads| ==> threads[i] != threads[j]
      ensures Valid() && this.threads == threads
    {
      this.threads := threads;
    }

    /** Charges the thread that ran. */
    method Charge(who: nat, ticks: nat)
      requires Valid() && who < |threads|
      modifies threads[who]
      ensures Tasks(threads) == Charged(old(Tasks(threads)), who, ticks)
    {
      hide Tasks;
      ghost var before := Tasks(threads);
      var cost := ticks * threads[who].prio;
      if ticks > 0 {
        threads[who].cntDown := threads[who].cntDown + cost;
      }
      assert threads[who].ToTask() == before[who].(cntDown := before[who].cntDown + cost);
      assert forall j :: 0 <= j < |threads| && j != who ==> threads[j].ToTask() == before[j];
      assert Tasks(threads) == before[who := before[who].(cntDown := before[who].cntDown + cost)];
    }

    /** Scans the table for the lowest count-down, and for the first runnable thread with the lowest. */
    method Scan() returns (lowest: int, k: nat)
      requires Valid() && threads != []
      ensures IsPick(Tasks(threads), |threads|, k)
      ensures lowest == Lowest(Tasks(threads))
    {
      hide Tasks;
      lowest := threads[0].cntDown;
      k := |threads|;
      var i := 0;
      while i < |threads|
        invariant 0 <= i <= |threads|
        invariant forall j :: 0 <= j < i ==> lowest <= threads[j].cntDown
        invariant exists j :: 0 <= j < |threads| && lowest == threads[j].cntDown
        invariant k < i || k == |threads|
        invariant k == |threads| ==> forall j :: 0 <= j < i ==> !threads[j].runnable
        invariant k < i ==> threads[k].runnable
        invariant k < i ==> forall j :: 0 <= j < i && threads[j].runnable ==> threads[k].cntDown <= threads[j].cntDown
        invariant k < i ==> forall j :: 0 <= j < k && threads[j].runnable ==> threads[k].cntDown < threads[j].cntDown
      {
        if threads[i].cntDown < lowest {
          lowest := threads[i].cntDown;
        }
        if threads[i].runnable && (k == |threads| || threads[i].cntDown < threads[k].cntDown) {
          k := i;
        }
        i := i + 1;
      }
    }

    /** Brings every count-down down after the poll. */
    method Normalise(lowest: int, slept: nat)
      requires Valid() && threads != [] && lowest == Lowest(Tasks(threads))
      modifies threads
      ensures Tasks(threads) == Normalised(old(Tasks(threads)), slept)
    {
      hide Lowered, Lowest;
      ghost var before := Tasks(threads);
      if lowest + slept > 0 {
        var i := 0;
        while i < |threads|
          invariant 0 <= i <= |threads|
          invariant forall j :: i <= j < |threads| ==> threads[j].ToTask() == before[j]
          invariant forall j :: 0 <= j < i ==> threads[j].ToTask() == Lowered(before[j], lowest, slept)
        {
          Lower(threads[i], lowest, slept);
          i := i + 1;
        }
      }
      NormalisedIs(before, lowest, slept, Tasks(threads));
    }

    static method Lower(th: Thread, lowest: int, slept: nat)
      modifies th
      ensures th.ToTask() == Lowered(old(th.ToTask()), lowest, slept)
    {
      th.cntDown := th.cntDown - (lowest + slept * th.prio);
      if th.cntDown < 0 {
        th.cntDown := 0;
      }
    }

    /** Records who became runnable, or stopped being so, by the end of the poll. */
    method Wake(ready: seq<bool>)
      requires Valid() && |ready| == |threads|
      modifies threads
      ensures Tasks(threads) == Ready(old(Tasks(threads)), ready)
    {
      ghost var before := Tasks(threads);
      var i := 0;
      while i < |threads|
        invariant 0 <= i <= |threads|
        invariant forall j :: 0 <= j < |threads| ==>
                    threads[j].ToTask() == if j < i then before[j].(runnable := ready[j]) else before[j]
      {
        var th := threads[i];
        th.runnable := ready[i];
        i := i + 1;
      }
      assert Tasks(threads) == Ready(before, ready);
    }

    /** A scheduling round: who runs next, or the table's length when nobody can, chosen before the count-downs come down. */
    method Schedule(who: nat, ticks: nat, slept: nat, ready: seq<bool>) returns (next: nat)
      requires Valid() && who < |threads| && |ready| == |threads|
      modifies threads
      ensures var ts := Ready(Charged(old(Tasks(threads)), who, ticks), ready);
              IsPick(ts, |threads|, next) && Tasks(threads) == Normalised(ts, slept)
    {
      hide Lowest, IsPick, Charged;
      Charge(who, ticks);
      Wake(ready);
      var lowest;
      lowest, next := Scan();
      Normalise(lowest, slept);
    }
  }
}
