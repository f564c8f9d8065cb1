/**
 * What the queue transitions guarantee over runs: strict priority, an exact
 * potential, conservation of timeslices under arrivals, and freedom from starvation.
 */
module MlfqRuns {
  import opened Common
  import opened Mlfq

  // ----- strict priority ----------------------------------------------------

  /** The running process stands in the lowest-numbered non-empty queue. */
  ghost predicate Prioritized(s: State) {
    Top(s.queues) < |s.queues| ==> s.current.Some? && s.current.value in s.queues[Top(s.queues)]
  }

  lemma StrictPriority(s: State)
    requires Valid(s)
    ensures Prioritized(Update(s))
  {
  }

  // ----- the potential ------------------------------------------------------

  /** Timeslices the processes of one queue can still be charged at that level, plus base for each. */
  ghost function Slices(q: seq<nat>, tickets: seq<nat>, base: nat): nat {
    if q == [] then 0 else Share(q[0], tickets, base) + Slices(q[1..], tickets, base)
  }

  ghost function Share(p: nat, tickets: seq<nat>, base: nat): nat {
    base + 1 + if p < |tickets| then tickets[p] / TIMESLICE else 0
  }

  /** STARTING_TICKETS / TIMESLICE + 1, the updates a process can be charged for at one level. */
  const FULL: nat := 201

  /** The number of charges still possible above the bottom level. */
  ghost function Phi(s: State): nat
    requires |s.queues| == LEVELS
  {
    Slices(s.queues[0], s.tickets, FULL) + Slices(s.queues[1], s.tickets, 0)
  }

  lemma QueuesInRange(s: State)
    requires Valid(s)
    ensures forall i, p :: 0 <= i < LEVELS && p in s.queues[i] ==> 0 < p < |s.tickets|
  {
    forall i, p | 0 <= i < LEVELS && p in s.queues[i] ensures 0 < p < |s.tickets| {
      assert Placed(s.queues, i, IndexOf(s.queues[i], p));
    }
  }

  lemma {:induction false} SlicesConcat(a: seq<nat>, b: seq<nat>, tickets: seq<nat>, base: nat)
    ensures Slices(a + b, tickets, base) == Slices(a, tickets, base) + Slices(b, tickets, base)
  {
    if a == [] {
      assert a + b == b;
    } else {
      assert (a + b)[1..] == a[1..] + b;
      SlicesConcat(a[1..], b, tickets, base);
    }
  }

  lemma {:induction false} SlicesFrame(q: seq<nat>, t: seq<nat>, u: seq<nat>, base: nat)
    requires |t| == |u| && forall j :: 0 <= j < |q| ==> Share(q[j], t, base) == Share(q[j], u, base)
    ensures Slices(q, t, base) == Slices(q, u, base)
  {
    if q != [] { SlicesFrame(q[1..], t, u, base); }
  }

  /** The share of one member, split off from the rest of its queue. */
  lemma SlicesSplit(q: seq<nat>, p: nat, tickets: seq<nat>, base: nat)
    requires p in q
    ensures Slices(q, tickets, base) == Slices(Without(q, p), tickets, base) + Share(p, tickets, base)
  {
    var k := IndexOf(q, p);
    assert q == q[..k] + ([p] + q[k + 1..]);
    SlicesConcat(q[..k], [p] + q[k + 1..], tickets, base);
    SlicesConcat([p], q[k + 1..], tickets, base);
    SlicesConcat(q[..k], q[k + 1..], tickets, base);
  }

  lemma {:induction false} SlicesBound(q: seq<nat>, tickets: seq<nat>, base: nat)
    requires forall p :: 0 <= p < |tickets| ==> tickets[p] <= STARTING_TICKETS
    ensures Slices(q, tickets, base) <= (base + 201) * |q|
  {
    if q != [] {
      SlicesBound(q[1..], tickets, base);
      assert (base + 201) * |q| == (base + 201) * |q[1..]| + (base + 201);
    }
  }

  lemma PhiBound(s: State)
    requires Valid(s)
    ensures Phi(s) <= 402 * Size(s)
  {
    SlicesBound(s.queues[0], s.tickets, FULL);
    SlicesBound(s.queues[1], s.tickets, 0);
  }

  lemma OtherQueue(s: State, p: nat, i: nat, j: nat)
    requires Valid(s) && i < LEVELS && j < LEVELS && p in s.queues[i] && i != j
    ensures p !in s.queues[j]
  {
    if p in s.queues[j] {
      assert Placed(s.queues, i, IndexOf(s.queues[i], p)) && Placed(s.queues, j, IndexOf(s.queues[j], p));
    }
  }

  lemma WithoutMember(s: State, p: nat, i: nat)
    requires Valid(s) && i < LEVELS && p in s.queues[i]
    ensures p !in Without(s.queues[i], p)
  {
    var q := s.queues[i];
    var k := IndexOf(q, p);
    forall j | 0 <= j < |q| && j != k ensures q[j] != p {
      assert Placed(s.queues, i, j) && Placed(s.queues, i, k);
    }
  }

  /** A charge above the bottom level lowers Phi by one, demotion or not; a charge at the bottom leaves it. */
  lemma ChargeLowersPhi(s: State)
    requires Valid(s) && s.current.Some?
    ensures Valid(Charge(s))
    ensures Phi(Charge(s)) == Phi(s) - if LevelOf(s, s.current.value) < LEVELS - 1 then 1 else 0
  {
    hide Top, Disjoint;
    ChargeValid(s);
    QueuesInRange(s);
    var p, c := s.current.value, Charge(s);
    var i := LevelOf(s, p);
    QueuesInRange(c);
    var q0, q1 := s.queues[0], s.queues[1];
    if i != 0 { OtherQueue(s, p, i, 0); SlicesFrame(q0, s.tickets, c.tickets, FULL); }
    if i != 1 { OtherQueue(s, p, i, 1); SlicesFrame(q1, s.tickets, c.tickets, 0); }
    if i < LEVELS - 1 {
      var base := if i == 0 then FULL else 0;
      var rest := Without(s.queues[i], p);
      WithoutMember(s, p, i);
      SlicesSplit(s.queues[i], p, s.tickets, base);
      SlicesFrame(rest, s.tickets, c.tickets, base);
      if s.tickets[p] >= TIMESLICE {
        SlicesSplit(s.queues[i], p, c.tickets, base);
      } else if i == 0 {
        SlicesConcat([p], q1, c.tickets, 0);
      }
    }
  }

  lemma UpdatePhi(s: State)
    requires Valid(s)
    ensures Valid(Update(s))
    ensures Phi(Update(s)) == Phi(s) - if Charged(s) then 1 else 0
  {
    UpdateValid(s);
    if s.current.Some? { ChargeLowersPhi(s); }
  }

  /** The next update takes a timeslice from a process above the bottom level. */
  ghost predicate Charged(s: State) {
    s.current.Some? && Scheduled(s, s.current.value) && LevelOf(s, s.current.value) < LEVELS - 1
  }

  lemma PhiZero(s: State)
    requires Valid(s)
    ensures Phi(s) == 0 <==> s.queues[0] == [] && s.queues[1] == []
  {
  }

  // ----- runs without arrivals ------------------------------------------------

  ghost function Updates(s: State, k: nat): (r: State)
    requires Valid(s)
    ensures Valid(r) && Size(r) == Size(s)
    decreases k
  {
    if k == 0 then s else
      UpdateValid(s);
      Updates(Update(s), k - 1)
  }

  lemma {:induction false} UpdatesKeep(s: State, k: nat, q: nat)
    requires Valid(s)
    ensures Scheduled(Updates(s, k), q) <==> Scheduled(s, q)
    decreases k
  {
    hide Valid, Update;
    if k > 0 {
      UpdateValid(s);
      UpdateKeeps(s, q);
      UpdatesKeep(Update(s), k - 1, q);
    }
  }

  lemma UpdatesNext(s: State, k: nat)
    requires Valid(s)
    ensures Updates(s, k + 1) == Update(Updates(s, k))
  {
    var r := Updates(s, k);
    UpdatesAdd(s, k, 1);
    UpdateValid(r);
    assert Updates(r, 1) == Updates(Update(r), 0) == Update(r);
  }

  lemma {:induction false} UpdatesAdd(s: State, j: nat, k: nat)
    requires Valid(s)
    ensures Updates(Updates(s, j), k) == Updates(s, j + k)
    decreases j
  {
    hide Valid, Update;
    if j > 0 {
      UpdateValid(s);
      UpdatesAdd(Update(s), j - 1, k);
    }
  }

  lemma DrainStep(s: State)
    requires Valid(s) && Prioritized(s)
    ensures Valid(Update(s)) && Prioritized(Update(s))
    ensures Phi(Update(s)) == if Phi(s) > 0 then Phi(s) - 1 else 0
  {
    StrictPriority(s);
    UpdatePhi(s);
    PhiZero(s);
    if Top(s.queues) < LEVELS { LevelUnique(s, s.current.value, Top(s.queues)); }
  }

  /** Exact drain: from a prioritized state every update lowers Phi by one until it is zero. */
  lemma {:induction false} ExactDrain(s: State, k: nat)
    requires Valid(s) && Prioritized(s)
    ensures Phi(Updates(s, k)) == if k <= Phi(s) then Phi(s) - k else 0
    ensures Prioritized(Updates(s, k))
    decreases k
  {
    hide Valid, Update;
    if k > 0 {
      ExactDrain(s, k - 1);
      UpdatesNext(s, k - 1);
      DrainStep(Updates(s, k - 1));
    }
  }

  /** Without arrivals everyone has reached the bottom level after Phi + 1 updates. */
  lemma AllSink(s: State, k: nat)
    requires Valid(s) && k > Phi(s)
    ensures var r := Updates(s, k); Phi(r) == 0 && Prioritized(r)
    ensures k > 402 * Size(s) ==> Updates(s, k).queues[0] == [] && Updates(s, k).queues[1] == []
  {
    hide Update, Top;
    UpdateValid(s);
    StrictPriority(s);
    UpdatePhi(s);
    ExactDrain(Update(s), k - 1);
    PhiZero(Updates(s, k));
  }

  // ----- round robin at the bottom --------------------------------------------

  ghost predicate AllAtBottom(s: State) {
    Valid(s) && s.queues[0] == [] && s.queues[1] == [] && s.current.Some?
  }

  ghost function Turn(s: State): (i: nat)
    requires AllAtBottom(s)
    ensures i < |s.queues[2]| && s.queues[2][i] == s.current.value
  {
    LevelUnique(s, s.current.value, LevelOf(s, s.current.value));
    IndexOf(s.queues[2], s.current.value)
  }

  lemma IndexUnique(s: State, i: nat, j: nat)
    requires Valid(s) && i < LEVELS && j < |s.queues[i]|
    ensures IndexOf(s.queues[i], s.queues[i][j]) == j
  {
    assert Placed(s.queues, i, j) && Placed(s.queues, i, IndexOf(s.queues[i], s.queues[i][j]));
  }

  lemma BottomStep(s: State)
    requires AllAtBottom(s)
    ensures AllAtBottom(Update(s)) && Update(s).queues == s.queues
    ensures Turn(Update(s)) == Later(Turn(s), 1, Size(s))
  {
    UpdateValid(s);
    var p := s.current.value;
    assert LevelOf(s, p) == 2;
    var c := Charge(s);
    ChargeValid(s);
    assert c.queues == s.queues;
    LevelUnique(c, p, 2);
    var i := Turn(s);
    IndexUnique(s, 2, i);
    IndexUnique(s, 2, Later(i, 1, Size(s)));
  }

  /** The position k turns later, for at most one full round. */
  ghost function Later(i: nat, k: nat, n: nat): nat {
    if i + k < n then i + k else if i + k < 2 * n then i + k - n else 0
  }

  lemma {:induction false} RoundRobin(s: State, k: nat)
    requires AllAtBottom(s) && k <= Size(s)
    ensures AllAtBottom(Updates(s, k)) && Updates(s, k).queues == s.queues
    ensures Turn(Updates(s, k)) == Later(Turn(s), k, Size(s))
    decreases k
  {
    hide Valid, Update;
    if k > 0 {
      var r := Updates(s, k - 1);
      RoundRobin(s, k - 1);
      BottomStep(r);
      UpdatesNext(s, k - 1);
    }
  }

  /** Any Size(s) consecutive updates at the bottom select each process exactly once. */
  lemma EachOnce(s: State, p: nat) returns (k: nat)
    requires AllAtBottom(s) && Scheduled(s, p)
    ensures 1 <= k <= Size(s) && Updates(s, k).current == Some(p)
    ensures forall j :: 1 <= j <= Size(s) && Updates(s, j).current == Some(p) ==> j == k
  {
    var n := |s.queues[2]|;
    assert LevelOf(s, p) == 2;
    var t, i := IndexOf(s.queues[2], p), Turn(s);
    k := if t > i then t - i else t + n - i;
    RoundRobin(s, k);
    assert Later(i, k, n) == t;
    forall j | 1 <= j <= n && Updates(s, j).current == Some(p) ensures j == k {
      RoundRobin(s, j);
      IndexUnique(s, 2, Turn(Updates(s, j)));
    }
  }

  /** No starvation: every scheduled process runs within Phi + 1 + Size updates. */
  lemma NoStarvation(s: State, p: nat) returns (k: nat)
    requires Valid(s) && Scheduled(s, p)
    ensures 1 <= k <= Phi(s) + 1 + Size(s)
    ensures Updates(s, k).current == Some(p)
  {
    hide Update;
    var m := Phi(s) + 1;
    var r := Updates(s, m);
    AllSink(s, m);
    PhiZero(r);
    UpdatesKeep(s, m, p);
    assert r.queues[2] != [];
    var j := EachOnce(r, p);
    UpdatesAdd(s, m, j);
    k := m + j;
  }

  // ----- runs with arrivals ---------------------------------------------------

  datatype Event = Arrival(pid: nat) | Tick

  ghost predicate Enabled(s: State, e: Event) {
    e.Arrival? ==> 0 < e.pid < MAX_PROCESSES && !Scheduled(s, e.pid)
  }

  ghost function Step(s: State, e: Event): State
    requires Valid(s) && Enabled(s, e)
  {
    match e
    case Arrival(p) => Arrive(s, p)
    case Tick => Update(s)
  }

  /** An arrival brings 402 timeslices. */
  lemma ArrivePhi(s: State, p: nat)
    requires Valid(s) && 0 < p < MAX_PROCESSES && !Scheduled(s, p)
    ensures Valid(Arrive(s, p)) && Size(Arrive(s, p)) == Size(s) + 1
    ensures Phi(Arrive(s, p)) == Phi(s) + 402
  {
    ArriveValid(s, p);
    var a := Arrive(s, p);
    QueuesInRange(s);
    SlicesFrame(s.queues[0], s.tickets, a.tickets, FULL);
    SlicesFrame(s.queues[1], s.tickets, a.tickets, 0);
    assert a.queues[0][1..] == s.queues[0];
  }

  lemma StepValid(s: State, e: Event)
    requires Valid(s) && Enabled(s, e)
    ensures Valid(Step(s, e))
  {
    if e.Arrival? { ArriveValid(s, e.pid); } else { UpdateValid(s); }
  }

  /** Every arrival of the run is of a pid that is on no queue at that point. */
  ghost predicate Run(s: State, es: seq<Event>)
    requires Valid(s)
    decreases es
  {
    es == [] || (Enabled(s, es[0]) && (StepValid(s, es[0]); Run(Step(s, es[0]), es[1..])))
  }

  ghost function Final(s: State, es: seq<Event>): (r: State)
    requires Valid(s) && Run(s, es)
    ensures Valid(r)
    decreases es
  {
    if es == [] then s else
      StepValid(s, es[0]);
      Final(Step(s, es[0]), es[1..])
  }

  ghost function Arrivals(es: seq<Event>): nat {
    if es == [] then 0 else (if es[0].Arrival? then 1 else 0) + Arrivals(es[1..])
  }

  /** The updates of the run that took a timeslice above the bottom level. */
  ghost function Charges(s: State, es: seq<Event>): nat
    requires Valid(s) && Run(s, es)
    decreases es
  {
    if es == [] then 0 else
      StepValid(s, es[0]);
      (if es[0].Tick? && Charged(s) then 1 else 0) + Charges(Step(s, es[0]), es[1..])
  }

  /** Conservation: each arrival brings 402 timeslices, each charge above the bottom spends one. */
  lemma {:induction false} SlicesConserved(s: State, es: seq<Event>)
    requires Valid(s) && Run(s, es)
    ensures Phi(Final(s, es)) + Charges(s, es) == Phi(s) + 402 * Arrivals(es)
    ensures Size(Final(s, es)) == Size(s) + Arrivals(es)
    decreases es
  {
    if es != [] {
      StepValid(s, es[0]);
      if es[0].Arrival? { ArrivePhi(s, es[0].pid); } else { UpdatePhi(s); UpdateValid(s); }
      SlicesConserved(Step(s, es[0]), es[1..]);
    }
  }

  /** After every update of a run the process chosen stands in the highest non-empty queue. */
  lemma {:induction false} StrictPriorityAlways(s: State, es: seq<Event>)
    requires Valid(s) && Run(s, es) && es != [] && es[|es| - 1] == Tick
    ensures Prioritized(Final(s, es))
    decreases es
  {
    hide Valid, Update;
    StepValid(s, es[0]);
    if |es| == 1 {
      StrictPriority(s);
      assert Final(s, es) == Final(Step(s, es[0]), es[1..]) == Update(s);
    } else {
      StrictPriorityAlways(Step(s, es[0]), es[1..]);
    }
  }

  // ----- no starvation, whatever arrives ----------------------------------------

  ghost function Members(q: seq<nat>): (r: set<nat>)
    ensures forall p :: p in r <==> p in q
    ensures (forall i, j :: 0 <= i < j < |q| ==> q[i] != q[j]) ==> |r| == |q|
  {
    if q == [] then {} else
      assert q == [q[0]] + q[1..];
      {q[0]} + Members(q[1..])
  }

  ghost function UpTo(n: nat): (r: set<nat>)
    ensures |r| == n
    ensures forall p :: p in r <==> 0 < p <= n
  {
    if n == 0 then {} else {n} + UpTo(n - 1)
  }

  lemma Subset(a: set<nat>, b: set<nat>)
    requires a <= b
    ensures |a| <= |b|
  {
    assert b == a + (b - a);
  }

  lemma SizeBound(s: State)
    requires Valid(s)
    ensures Size(s) < MAX_PROCESSES
  {
    var q := s.queues[0] + s.queues[1] + s.queues[2];
    forall i | 0 <= i < |q| ensures var (a, b) := Column(s, i); Placed(s.queues, a, b) && q[i] == s.queues[a][b] {}
    forall i, j | 0 <= i < j < |q| ensures q[i] != q[j] {
      var (a, b) := Column(s, i);
      var (c, d) := Column(s, j);
      assert Placed(s.queues, a, b) && Placed(s.queues, c, d);
    }
    assert forall i :: 0 <= i < |q| ==> 0 < q[i] < MAX_PROCESSES;
    Subset(Members(q), UpTo(MAX_PROCESSES - 1));
  }

  ghost function Column(s: State, i: int): (int, int)
    requires |s.queues| == LEVELS
  {
    var m, n := |s.queues[0]|, |s.queues[1]|;
    if i < m then (0, i) else if i < m + n then (1, i - m) else (2, i - m - n)
  }

  /** Updates until p runs, not counting charges above the bottom level. */
  ghost function Delay(s: State, p: nat): (d: nat)
    requires Valid(s) && Scheduled(s, p)
    ensures d <= Size(s) + 1
  {
    if AllAtBottom(s) then
      var t, i := IndexOf(s.queues[2], p), Turn(s);
      if t > i then t - i else t + Size(s) - i
    else if s.current.Some? && Prioritized(s) then Size(s)
    else Size(s) + 1
  }

  ghost function Rank(s: State, p: nat): (r: nat)
    requires Valid(s) && Scheduled(s, p)
    ensures r <= Phi(s) + 1 + Size(s)
  {
    Phi(s) + Delay(s, p)
  }

  /** An update either runs p or lowers its rank. */
  lemma RankDecreases(s: State, p: nat)
    requires Valid(s) && Scheduled(s, p)
    ensures Valid(Update(s)) && Scheduled(Update(s), p)
    ensures Update(s).current == Some(p) || Rank(Update(s), p) < Rank(s, p)
  {
    UpdateValid(s);
    UpdateKeeps(s, p);
    UpdatePhi(s);
    StrictPriority(s);
    PhiZero(s);
    PhiZero(Update(s));
    if AllAtBottom(s) {
      BottomStep(s);
    } else if s.current.Some? && Prioritized(s) {
      DrainStep(s);
    }
  }

  lemma ArrivalRank(s: State, a: nat, p: nat)
    requires Valid(s) && 0 < a < MAX_PROCESSES && !Scheduled(s, a) && Scheduled(s, p)
    ensures Valid(Arrive(s, a)) && Scheduled(Arrive(s, a), p)
    ensures Rank(Arrive(s, a), p) <= Rank(s, p) + 402 + MAX_PROCESSES
  {
    ArrivePhi(s, a);
    SizeBound(Arrive(s, a));
  }

  /** p is chosen by some update of the run. */
  ghost predicate Runs(s: State, es: seq<Event>, p: nat)
    requires Valid(s) && Run(s, es)
    decreases es
  {
    && es != []
    && (StepValid(s, es[0]);
        (es[0].Tick? && Update(s).current == Some(p)) || Runs(Step(s, es[0]), es[1..], p))
  }

  ghost function Ticks(es: seq<Event>): nat {
    if es == [] then 0 else (if es[0].Tick? then 1 else 0) + Ticks(es[1..])
  }

  lemma {:induction false} RankBoundsWait(s: State, es: seq<Event>, p: nat)
    requires Valid(s) && Run(s, es) && Scheduled(s, p)
    requires !Runs(s, es, p)
    ensures Ticks(es) <= Rank(s, p) + (402 + MAX_PROCESSES) * Arrivals(es)
    decreases es
  {
    if es != [] {
      StepValid(s, es[0]);
      if es[0].Arrival? { ArrivalRank(s, es[0].pid, p); } else { RankDecreases(s, p); }
      RankBoundsWait(Step(s, es[0]), es[1..], p);
    }
  }

  lemma WaitBound(s: State, es: seq<Event>, p: nat)
    requires Valid(s) && Run(s, es) && Scheduled(s, p)
    requires !Runs(s, es, p)
    ensures Ticks(es) <= 466 * 63
  {
    RankBoundsWait(s, es, p);
    SlicesConserved(s, es);
    SizeBound(Final(s, es));
    PhiBound(s);
    assert Size(s) > 0;
  }

  /**
   * No starvation under arrivals: however arrivals and updates interleave, a scheduled
   * process runs before 466 * 63 + 1 updates have passed.
   */
  lemma NoStarvationUnderArrivals(s: State, es: seq<Event>, p: nat)
    requires Valid(s) && Run(s, es) && Scheduled(s, p)
    requires Ticks(es) > 466 * 63
    ensures Runs(s, es, p)
  {
    if !Runs(s, es, p) { WaitBound(s, es, p); }
  }
}
