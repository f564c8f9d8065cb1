/**
 * Whose turn is next, in terms of places in the queues: what one update does in each of its
 * cases, and a full round at any level.
 */
module MlfqTurns {
  import opened Common
  import opened Mlfq
  import opened MlfqRuns

  /** The process at place k of queue i is running. */
  ghost predicate RunningAt(s: State, i: nat, k: nat) {
    Valid(s) && i < LEVELS && k < |s.queues[i]| && s.current == Some(s.queues[i][k]) && s.queues[i][k] < MAX_PROCESSES
  }

  /** The queues above level i are empty. */
  ghost predicate NothingAbove(s: State, i: nat) {
    |s.queues| == LEVELS && i < LEVELS && forall j :: 0 <= j < i ==> s.queues[j] == []
  }

  lemma RunningLevel(s: State, i: nat, k: nat)
    requires RunningAt(s, i, k)
    ensures var p := s.queues[i][k];
      Scheduled(s, p) && LevelOf(s, p) == i && IndexOf(s.queues[i], p) == k && 0 < p < MAX_PROCESSES
  {
    LevelUnique(s, s.queues[i][k], i);
    IndexUnique(s, i, k);
    assert Placed(s.queues, i, k);
  }

  lemma TopAt(queues: seq<seq<nat>>, i: nat)
    requires i < |queues| && queues[i] != [] && forall j :: 0 <= j < i ==> queues[j] == []
    ensures Top(queues) == i
  {
  }

  /** With a timeslice to spare, or at the bottom, the turn passes to the next place of the queue, around its end. */
  lemma NextInLine(s: State, i: nat, k: nat)
    requires RunningAt(s, i, k) && NothingAbove(s, i)
    requires s.tickets[s.queues[i][k]] >= 10 || i == 2
    ensures var p, q := s.queues[i][k], s.queues[i];
      && Update(s).queues == s.queues
      && Update(s).tickets == s.tickets[p := if s.tickets[p] >= 10 then s.tickets[p] - 10 else 0]
      && Update(s).current == Some(if k + 1 < |q| then q[k + 1] else q[0])
  {
    hide Disjoint, InRange;
    RunningLevel(s, i, k);
    TopAt(s.queues, i);
    ChargeValid(s);
    var c := Charge(s);
    LevelUnique(c, s.queues[i][k], i);
  }

  /**
   * Without one, above the bottom, the process leaves its place, goes in front of the next lower
   * queue with a new allotment, and the first of those left behind runs; if none is left, the
   * turn passes on in the lower queue.
   */
  lemma DemotedTurn(s: State, i: nat, k: nat)
    requires RunningAt(s, i, k) && NothingAbove(s, i) && i < 2
    requires s.tickets[s.queues[i][k]] < 10
    ensures var p, q, u := s.queues[i][k], s.queues[i], Update(s);
      && u.queues == s.queues[i := q[..k] + q[k + 1..]][i + 1 := [p] + s.queues[i + 1]]
      && u.tickets == s.tickets[p := 2000]
      && u.current == Some(
           if |q| > 1 then (if k == 0 then q[1] else q[0])
           else if s.queues[i + 1] == [] then p else s.queues[i + 1][0])
  {
    hide Disjoint, InRange;
    RunningLevel(s, i, k);
    var p, q, c := s.queues[i][k], s.queues[i], Charge(s);
    ChargeValid(s);
    assert c.queues[i] == q[..k] + q[k + 1..] && c.queues[i + 1] == [p] + s.queues[i + 1];
    assert c.queues[i + 1][0] == p;
    LevelUnique(c, p, i + 1);
    if |q| > 1 { TopAt(c.queues, i); } else { TopAt(c.queues, i + 1); }
  }

  /** With a process in a higher queue, the first one there runs next, whatever becomes of the one charged. */
  lemma PreemptedTurn(s: State, i: nat, k: nat, h: nat)
    requires RunningAt(s, i, k) && NothingAbove(s, h) && h < i && s.queues[h] != []
    ensures Update(s).current == Some(s.queues[h][0])
    ensures var p, t := s.queues[i][k], s.tickets[s.queues[i][k]];
      && (t >= 10 || i == 2 ==> Update(s).queues == s.queues)
      && (t >= 10 || i == 2 ==> Update(s).tickets == s.tickets[p := if t >= 10 then t - 10 else 0])
      && (t < 10 && i < 2 ==> Update(s).tickets == s.tickets[p := 2000])
      && (t < 10 && i < 2 ==>
            Update(s).queues == s.queues[i := s.queues[i][..k] + s.queues[i][k + 1..]][i + 1 := [p] + s.queues[i + 1]])
  {
    hide Disjoint, InRange;
    RunningLevel(s, i, k);
    var c := Charge(s);
    ChargeValid(s);
    TopAt(c.queues, h);
    if s.tickets[s.queues[i][k]] < 10 && i < 2 { assert c.queues[i + 1][0] == s.queues[i][k]; LevelUnique(c, s.queues[i][k], i + 1); }
  }

  /** With nothing running the first process of the highest queue starts, and nothing else changes. */
  lemma FirstTurn(s: State, h: nat)
    requires Valid(s) && s.current == None && NothingAbove(s, h) && s.queues[h] != []
    ensures Update(s) == s.(current := Some(s.queues[h][0]))
  {
    TopAt(s.queues, h);
  }

  lemma NobodyToRun(s: State)
    requires Valid(s) && s.queues == [[], [], []]
    ensures s.current == None && Update(s) == s
  {
  }

  /** An arrival goes in front of the first queue with a full allotment; everyone else keeps place, tickets and turn. */
  lemma ArrivalOrder(s: State, p: nat)
    requires Valid(s) && p < MAX_PROCESSES
    ensures Arrive(s, p) == State([[p] + s.queues[0], s.queues[1], s.queues[2]], s.tickets[p := 2000], s.current)
  {
  }

  // ----- a round at any level ------------------------------------------------------------

  /** Everyone in queue i, the highest with anyone in it, can pay for a timeslice. */
  ghost predicate AllCanPay(s: State, i: nat) {
    Valid(s) && NothingAbove(s, i) && (i == 2 || forall p :: p in s.queues[i] ==> p < |s.tickets| && s.tickets[p] >= 10)
  }

  /** After m turns, at most one round, the turn is m places on, and who has not had it yet has the tickets it had. */
  lemma {:induction false} RoundAt(s: State, i: nat, k: nat, m: nat)
    requires RunningAt(s, i, k) && AllCanPay(s, i) && m <= |s.queues[i]|
    ensures var q, u := s.queues[i], Updates(s, m);
      && RunningAt(u, i, Later(k, m, |q|)) && u.queues == s.queues
      && (forall j :: m <= j < |q| ==> q[Later(k, j, |q|)] < |s.tickets| && u.tickets[q[Later(k, j, |q|)]] == s.tickets[q[Later(k, j, |q|)]])
    decreases m
  {
    hide Disjoint, InRange, Update, Updates;
    var q := s.queues[i];
    InQueueRange(s, i);
    if m == 0 {
      UpdatesNone(s);
    } else {
      RoundAt(s, i, k, m - 1);
      var r := Updates(s, m - 1);
      UpdatesNext(s, m - 1);
      NextInLine(r, i, Later(k, m - 1, |q|));
      UpdateValid(r);
      OthersLater(s, i, k, m);
    }
  }

  lemma UpdatesNone(s: State)
    requires Valid(s)
    ensures Updates(s, 0) == s
  {
  }

  lemma OthersLater(s: State, i: nat, k: nat, m: nat)
    requires Valid(s) && i < LEVELS && k < |s.queues[i]| && 0 < m <= |s.queues[i]|
    ensures forall j :: m <= j < |s.queues[i]| ==>
      s.queues[i][Later(k, j, |s.queues[i]|)] != s.queues[i][Later(k, m - 1, |s.queues[i]|)]
  {
    var q := s.queues[i];
    forall j | m <= j < |q| ensures q[Later(k, j, |q|)] != q[Later(k, m - 1, |q|)] {
      IndexUnique(s, i, Later(k, j, |q|));
      IndexUnique(s, i, Later(k, m - 1, |q|));
    }
  }

  lemma InQueueRange(s: State, i: nat)
    requires Valid(s) && i < LEVELS
    ensures |s.tickets| == MAX_PROCESSES && forall j :: 0 <= j < |s.queues[i]| ==> 0 < s.queues[i][j] < MAX_PROCESSES
  {
    forall j | 0 <= j < |s.queues[i]| ensures 0 < s.queues[i][j] < MAX_PROCESSES { assert Placed(s.queues, i, j); }
  }

  /** Round robin at every level: as long as all can pay, each member of the queue is selected exactly once in as many updates as it has members. */
  lemma EachOnceAt(s: State, i: nat, k: nat, t: nat) returns (m: nat)
    requires RunningAt(s, i, k) && AllCanPay(s, i) && t < |s.queues[i]|
    ensures 1 <= m <= |s.queues[i]| && Updates(s, m).current == Some(s.queues[i][t])
    ensures forall j :: 1 <= j <= |s.queues[i]| && Updates(s, j).current == Some(s.queues[i][t]) ==> j == m
  {
    hide Disjoint, InRange, Update, Updates;
    var n := |s.queues[i]|;
    m := if t > k then t - k else t + n - k;
    RoundAt(s, i, k, m);
    assert Later(k, m, n) == t;
    IndexUnique(s, i, t);
    forall j | 1 <= j <= n && Updates(s, j).current == Some(s.queues[i][t]) ensures j == m {
      RoundAt(s, i, k, j);
      IndexUnique(s, i, Later(k, j, n));
    }
  }

  /** Two processes just added take turns from the first timeslice on. */
  lemma TwoTakeTurns(a: nat, b: nat)
    requires 0 < a < MAX_PROCESSES && 0 < b < MAX_PROCESSES && a != b
    ensures var s := Arrive(Arrive(Empty, a), b);
      Valid(s) && s.queues == [[b, a], [], []]
      && Updates(s, 1).current == Some(b) && Updates(s, 2).current == Some(a) && Updates(s, 3).current == Some(b)
  {
    var one := Arrive(Empty, a);
    ArriveValid(Empty, a);
    ArriveValid(one, b);
    var s := Arrive(one, b);
    assert s.queues[0] == [b, a] && s.queues == [[b, a], [], []];
    hide Disjoint, InRange, Update, Arrive;
    FirstTurn(s, 0);
    UpdateValid(s);
    var u := Update(s);
    NextInLine(u, 0, 0);
    UpdateValid(u);
    NextInLine(Update(u), 0, 1);
    UpdateValid(Update(u));
    UpdatesNext(s, 0);
    UpdatesNext(s, 1);
    UpdatesNext(s, 2);
  }
}
