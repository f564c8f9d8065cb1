/**
 * The multi-level feedback queue as a value: three queues of process ids, the
 * tickets each entry has left, and the entry that is running.  The scheduler
 * class in Sched.dfy is proved to compute exactly these transitions; this file
 * proves what they guarantee over whole runs.
 */
module Mlfq {
  import opened Common

  const MAX_PROCESSES: nat := 64
  const LEVELS: nat := 3
  const STARTING_TICKETS: nat := 2000
  const TIMESLICE: nat := 10

  datatype State = State(queues: seq<seq<nat>>, tickets: seq<nat>, current: Option<nat>)

  // ----- well-formed states -------------------------------------------------

  ghost predicate Placed(queues: seq<seq<nat>>, i: int, j: int) {
    0 <= i < |queues| && 0 <= j < |queues[i]|
  }

  /** No pid occurs twice, neither in one queue nor in two. */
  ghost predicate Disjoint(queues: seq<seq<nat>>) {
    forall i, j, k, l {:trigger Placed(queues, i, j), Placed(queues, k, l)} ::
      (Placed(queues, i, j) && Placed(queues, k, l) && queues[i][j] == queues[k][l]) ==> (i == k && j == l)
  }

  ghost predicate InRange(queues: seq<seq<nat>>) {
    forall i, j {:trigger Placed(queues, i, j)} :: Placed(queues, i, j) ==> 0 < queues[i][j] < MAX_PROCESSES
  }

  ghost predicate Scheduled(s: State, p: nat) {
    |s.queues| == LEVELS && (p in s.queues[0] || p in s.queues[1] || p in s.queues[2])
  }

  ghost predicate Valid(s: State) {
    && |s.queues| == LEVELS
    && |s.tickets| == MAX_PROCESSES
    && Disjoint(s.queues)
    && InRange(s.queues)
    && (forall p :: 0 <= p < MAX_PROCESSES ==> s.tickets[p] <= STARTING_TICKETS)
    && (s.current.Some? ==> Scheduled(s, s.current.value))
  }

  const Empty: State := State([[], [], []], seq(MAX_PROCESSES, _ => 0), None)

  ghost function Size(s: State): nat
    requires |s.queues| == LEVELS
  {
    |s.queues[0]| + |s.queues[1]| + |s.queues[2]|
  }

  // ----- the two transitions ------------------------------------------------

  function IndexOf(q: seq<nat>, p: nat): (k: nat)
    requires p in q
    ensures k < |q| && q[k] == p
    ensures p !in q[..k]
  {
    if q[0] == p then 0 else
      var k := 1 + IndexOf(q[1..], p);
      assert q[..k] == [q[0]] + q[1..][..k - 1];
      k
  }

  function Without(q: seq<nat>, p: nat): seq<nat>
    requires p in q
  {
    q[..IndexOf(q, p)] + q[IndexOf(q, p) + 1..]
  }

  ghost function LevelOf(s: State, p: nat): (i: nat)
    requires Scheduled(s, p)
    ensures i < LEVELS && p in s.queues[i]
  {
    if p in s.queues[0] then 0 else if p in s.queues[1] then 1 else 2
  }

  /** The lowest-numbered non-empty queue, or LEVELS when there is none. */
  function Top(queues: seq<seq<nat>>): (i: nat)
    ensures i <= |queues|
    ensures i < |queues| ==> queues[i] != []
    ensures forall k :: 0 <= k < i ==> queues[k] == []
  {
    if queues == [] || queues[0] != [] then 0 else 1 + Top(queues[1..])
  }

  function Next(q: seq<nat>, p: nat): nat
    requires p in q
  {
    var k := IndexOf(q, p) + 1;
    if k < |q| then q[k] else q[0]
  }

  function Arrive(s: State, p: nat): State
    requires |s.queues| == LEVELS && p < |s.tickets|
  {
    s.(queues := s.queues[0 := [p] + s.queues[0]], tickets := s.tickets[p := STARTING_TICKETS])
  }

  /** Unlink p from queue i and push it in front of queue i + 1. */
  ghost function Demote(queues: seq<seq<nat>>, i: nat, p: nat): seq<seq<nat>>
    requires i + 1 < |queues| && p in queues[i]
  {
    queues[i := Without(queues[i], p)][i + 1 := [p] + queues[i + 1]]
  }

  /** Take one timeslice from the running process, demoting it when its tickets do not cover it. */
  ghost function Charge(s: State): State
    requires Valid(s) && s.current.Some?
  {
    var p := s.current.value;
    var i := LevelOf(s, p);
    assert Placed(s.queues, i, IndexOf(s.queues[i], p));
    if s.tickets[p] >= TIMESLICE then
      s.(tickets := s.tickets[p := s.tickets[p] - TIMESLICE])
    else if i == LEVELS - 1 then
      s.(tickets := s.tickets[p := 0])
    else
      s.(queues := Demote(s.queues, i, p),
         tickets := s.tickets[p := STARTING_TICKETS])
  }

  /** Pick the process to run next. */
  ghost function Pick(s: State): State
    requires s.current.Some? && Scheduled(s, s.current.value)
  {
    var p := s.current.value;
    var i := LevelOf(s, p);
    if Top(s.queues) < i
    then s.(current := Some(s.queues[Top(s.queues)][0]))
    else s.(current := Some(Next(s.queues[i], p)))
  }

  ghost function Update(s: State): State
    requires Valid(s)
  {
    if s.current.None? then
      if Top(s.queues) < LEVELS then s.(current := Some(s.queues[Top(s.queues)][0])) else s
    else
      ChargeValid(s);
      Pick(Charge(s))
  }

  lemma LevelUnique(s: State, p: nat, i: nat)
    requires |s.queues| == LEVELS && Disjoint(s.queues) && i < LEVELS && p in s.queues[i]
    ensures Scheduled(s, p) && LevelOf(s, p) == i
  {
    var k := LevelOf(s, p);
    var a, b := IndexOf(s.queues[i], p), IndexOf(s.queues[k], p);
    assert Placed(s.queues, i, a) && Placed(s.queues, k, b);
  }

  /** Charging keeps every queue entry in place except for a single demotion. */
  lemma ChargeValid(s: State)
    requires Valid(s) && s.current.Some?
    ensures Valid(Charge(s)) && Charge(s).current == s.current
    ensures Size(Charge(s)) == Size(s)
  {
    var p := s.current.value;
    var i := LevelOf(s, p);
    var c := Charge(s);
    assert Placed(s.queues, i, IndexOf(s.queues[i], p));
    if s.tickets[p] < TIMESLICE && i < LEVELS - 1 {
      DemoteKeepsDisjoint(s.queues, i, p);
    }
  }

  /** Demotion keeps every process, including the running one, on a queue. */
  lemma DemoteKeeps(s: State, i: nat, p: nat)
    requires Valid(s) && i + 1 < LEVELS && p in s.queues[i] && p < MAX_PROCESSES
    ensures Valid(s.(queues := Demote(s.queues, i, p), tickets := s.tickets[p := STARTING_TICKETS]))
  {
    DemoteKeepsDisjoint(s.queues, i, p);
    var k := IndexOf(s.queues[i], p);
    assert s.queues[i] == s.queues[i][..k] + [p] + s.queues[i][k + 1..];
  }

  lemma ChargeKeeps(s: State, q: nat)
    requires Valid(s) && s.current.Some?
    ensures Scheduled(Charge(s), q) <==> Scheduled(s, q)
  {
  }

  lemma WithoutDisjoint(queues: seq<seq<nat>>, i: nat, p: nat)
    requires |queues| == LEVELS && i < LEVELS && p in queues[i]
    requires Disjoint(queues) && InRange(queues)
    ensures var w := queues[i := Without(queues[i], p)]; Disjoint(w) && InRange(w)
  {
    var w, k := queues[i := Without(queues[i], p)], IndexOf(queues[i], p);
    forall x, y | Placed(w, x, y)
      ensures var b := if x == i && y >= k then y + 1 else y; Placed(queues, x, b) && w[x][y] == queues[x][b]
    {
    }
    forall x, y, z, u | Placed(w, x, y) && Placed(w, z, u) && w[x][y] == w[z][u]
      ensures x == z && y == u
    {
      var b, d := if x == i && y >= k then y + 1 else y, if z == i && u >= k then u + 1 else u;
      assert Placed(queues, x, b) && Placed(queues, z, d);
    }
  }

  lemma DemoteKeepsDisjoint(queues: seq<seq<nat>>, i: nat, p: nat)
    requires |queues| == LEVELS && i + 1 < LEVELS && p in queues[i]
    requires Disjoint(queues) && InRange(queues)
    ensures Disjoint(Demote(queues, i, p)) && InRange(Demote(queues, i, p))
    ensures |Demote(queues, i, p)[i]| == |queues[i]| - 1
  {
    var d := Demote(queues, i, p);
    var k := IndexOf(queues[i], p);
    forall x, y | Placed(d, x, y)
      ensures var (a, b) := Before(i, k, x, y); Placed(queues, a, b) && d[x][y] == queues[a][b]
    {
    }
    forall x, y, z, w | Placed(d, x, y) && Placed(d, z, w) && d[x][y] == d[z][w]
      ensures x == z && y == w
    {
      var (a, b) := Before(i, k, x, y);
      var (e, f) := Before(i, k, z, w);
      assert Placed(queues, a, b) && Placed(queues, e, f);
    }
  }

  /** Where the entry at place y of queue x of the demoted queues stood before. */
  ghost function Before(i: int, k: int, x: int, y: int): (int, int) {
    if x == i then (if y < k then (i, y) else (i, y + 1))
    else if x == i + 1 then (if y == 0 then (i, k) else (x, y - 1))
    else (x, y)
  }

  /** Picking moves the running mark only, to a process that is on a queue. */
  lemma PickValid(s: State)
    requires Valid(s) && s.current.Some?
    ensures Valid(Pick(s)) && Pick(s).queues == s.queues && Pick(s).tickets == s.tickets
  {
  }

  /** An update neither loses nor adds a process and keeps the state well formed. */
  lemma UpdateValid(s: State)
    requires Valid(s)
    ensures Valid(Update(s)) && Size(Update(s)) == Size(s)
  {
    hide Disjoint, InRange, Charge, Pick;
    if s.current.Some? {
      ChargeValid(s);
      PickValid(Charge(s));
    }
  }

  lemma UpdateKeeps(s: State, q: nat)
    requires Valid(s)
    ensures Scheduled(Update(s), q) <==> Scheduled(s, q)
  {
    if s.current.Some? {
      ChargeValid(s);
      ChargeKeeps(s, q);
    }
  }

  /** An arrival puts a fresh pid at the front of the top queue. */
  lemma ArriveValid(s: State, p: nat)
    requires Valid(s) && 0 < p < MAX_PROCESSES && !Scheduled(s, p)
    ensures Valid(Arrive(s, p)) && Size(Arrive(s, p)) == Size(s) + 1
  {
    var a := Arrive(s, p);
    assert forall i :: 0 < i < LEVELS ==> a.queues[i] == s.queues[i];
    forall i, j, k, l | Placed(a.queues, i, j) && Placed(a.queues, k, l) && a.queues[i][j] == a.queues[k][l]
      ensures i == k && j == l
    {
      var j', l' := if i == 0 then j - 1 else j, if k == 0 then l - 1 else l;
      if j' >= 0 { assert Placed(s.queues, i, j') && s.queues[i][j'] == a.queues[i][j]; }
      if l' >= 0 { assert Placed(s.queues, k, l') && s.queues[k][l'] == a.queues[k][l]; }
    }
    forall i, j | Placed(a.queues, i, j) ensures 0 < a.queues[i][j] < MAX_PROCESSES {
      if i != 0 { assert Placed(s.queues, i, j); } else if j > 0 { assert Placed(s.queues, i, j - 1); }
    }
  }

  lemma ArriveKeeps(s: State, p: nat, q: nat)
    requires |s.queues| == LEVELS && p < |s.tickets|
    ensures Scheduled(Arrive(s, p), q) <==> q == p || Scheduled(s, q)
  {
  }

  /** The least pid >= from that is on no list, or MAX_PROCESSES. */
  ghost function FreePidFrom(s: State, from: nat): (p: nat)
    requires from <= MAX_PROCESSES
    ensures from <= p <= MAX_PROCESSES
    ensures forall i :: from <= i < p ==> Scheduled(s, i)
    ensures p < MAX_PROCESSES ==> !Scheduled(s, p)
    decreases MAX_PROCESSES - from
  {
    if from == MAX_PROCESSES || !Scheduled(s, from) then from else FreePidFrom(s, from + 1)
  }

  /** The pid a new process gets: the least one above 0 on no list. */
  ghost function FreePid(s: State): (p: Option<nat>)
    ensures p.Some? ==> 0 < p.value < MAX_PROCESSES && !Scheduled(s, p.value)
  {
    if FreePidFrom(s, 1) < MAX_PROCESSES then Some(FreePidFrom(s, 1)) else None
  }

  lemma FreePidIs(s: State, p: nat)
    requires 0 < p <= MAX_PROCESSES && (p < MAX_PROCESSES ==> !Scheduled(s, p))
    requires forall i :: 0 < i < p ==> Scheduled(s, i)
    ensures FreePid(s) == if p < MAX_PROCESSES then Some(p) else None
  {
  }
}
