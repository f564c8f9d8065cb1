/**
 * The scheduler as the kernel stores it: a fixed array of entries threaded by
 * next-links into three lists.  Pointers into the array are indices, None is the
 * null pointer.  Every method is proved to compute the transition of Mlfq.dfy,
 * and a branch that would panic holds `assert false`.
 */
module Sched {
  import opened Common
  import opened Mlfq

  /** struct mlfq_entry */
  datatype Entry = Entry(ptr: Option<nat>, priority: nat, ticketsRemaining: int, nextProcess: Option<nat>)

  function HeadOf(q: seq<nat>): Option<nat> {
    if q == [] then None else Some(q[0])
  }

  function LinkAfter(q: seq<nat>, j: nat): Option<nat> {
    if j + 1 < |q| then Some(q[j + 1]) else None
  }

  lemma TopIs(queues: seq<seq<nat>>, i: nat)
    requires i <= |queues| && forall k :: 0 <= k < i ==> queues[k] == []
    requires i < |queues| ==> queues[i] != []
    ensures Top(queues) == i
  {
  }

  /** Removing p moves the later members up and changes only the link of its predecessor. */
  lemma WithoutLinks(q: seq<nat>, p: nat)
    requires p in q
    ensures var w, k := Without(q, p), IndexOf(q, p);
      forall j :: 0 <= j < |w| ==>
        w[j] == q[if j < k then j else j + 1]
        && LinkAfter(w, j) == LinkAfter(q, if j + 1 == k then k else if j < k then j else j + 1)
  {
  }

  class Scheduler {
    const procList: array<Entry>
    const heads: array<Option<nat>>
    var current: Option<nat>
    ghost var state: State

    /** The links of the array spell out the given queues. */
    ghost predicate Shape(queues: seq<seq<nat>>)
      reads procList, heads
    {
      && procList.Length == MAX_PROCESSES && heads.Length == LEVELS == |queues|
      && InRange(queues) && Disjoint(queues)
      && (forall i :: 0 <= i < LEVELS ==> heads[i] == HeadOf(queues[i]))
      && (forall i, j {:trigger Placed(queues, i, j)} :: Placed(queues, i, j) ==>
        var e := procList[queues[i][j]];
        e.ptr == Some(queues[i][j]) && e.priority == i && e.nextProcess == LinkAfter(queues[i], j))
    }

    ghost predicate Valid()
      reads this, procList, heads
    {
      && Shape(state.queues)
      && Mlfq.Valid(state)
      && (forall p :: 0 <= p < MAX_PROCESSES ==> procList[p].ticketsRemaining == state.tickets[p])
      && state.current == current
    }

    /** The zeroed static data. */
    constructor ()
      ensures Valid() && state == Empty
      ensures fresh(procList) && fresh(heads)
    {
      procList := new Entry[MAX_PROCESSES](_ => Entry(None, 0, 0, None));
      heads := new Option<nat>[LEVELS](_ => None);
      current := None;
      state := Empty;
      new;
      assert forall i, j :: !Placed(state.queues, i, j);
    }

    /**
     * sched_init: empties the lists and leaves the running process alone, so the scheduler is
     * well formed afterwards exactly when none was running.
     */
    method Init()
      requires Valid()
      modifies heads, `state
      ensures state == old(state).(queues := Empty.queues) && Shape(state.queues)
      ensures Valid() <==> current == None
    {
      for i := 0 to LEVELS
        invariant forall k :: 0 <= k < i ==> heads[k] == None
        modifies heads
      {
        heads[i] := None;
      }
      state := state.(queues := Empty.queues);
      assert forall i, j :: !Placed(state.queues, i, j);
    }

    /** sched_addpid, past the check that the process exists. */
    method AddPid(pid: nat)
      requires Valid() && 0 < pid < MAX_PROCESSES && !Scheduled(state, pid)
      modifies this, procList, heads
      ensures Valid() && state == Arrive(old(state), pid)
    {
      procList[pid] := procList[pid].(ptr := Some(pid), priority := 0);
      procList[pid] := procList[pid].(ticketsRemaining := STARTING_TICKETS);
      procList[pid] := procList[pid].(nextProcess := heads[0]);
      heads[0] := Some(pid);
      ArriveValid(state, pid);
      ghost var was := state.queues;
      state := Arrive(state, pid);
      forall i, j | Placed(state.queues, i, j) && !(i == 0 && j == 0)
        ensures var b := if i == 0 then j - 1 else j;
          Placed(was, i, b) && state.queues[i][j] == was[i][b] && LinkAfter(state.queues[i], j) == LinkAfter(was[i], b)
      {}
    }

    /** The scan of proc_priority_list for the first list that is not empty. */
    method FirstHead() returns (found: Option<nat>)
      requires Valid()
      ensures var t := Top(state.queues); found == if t < LEVELS then Some(state.queues[t][0]) else None
    {
      found := None;
      var i := 0;
      while i < LEVELS
        invariant 0 <= i <= LEVELS && found == None
        invariant forall k :: 0 <= k < i ==> state.queues[k] == []
      {
        if heads[i] != None {
          found := heads[i];
          break;
        }
        i := i + 1;
      }
      TopIs(state.queues, i);
    }

    /** The search for the entry whose link is the running process. */
    method FindPredecessor(p: nat, level: nat) returns (curr: Option<nat>)
      requires Valid() && level < LEVELS && p in state.queues[level] && heads[level] != Some(p)
      ensures var q, k := state.queues[level], IndexOf(state.queues[level], p);
        0 < k && curr == Some(q[k - 1])
    {
      ghost var q, k, j := state.queues[level], IndexOf(state.queues[level], p), 0;
      assert Placed(state.queues, level, k);
      curr := heads[level];
      while curr != None
        invariant 0 <= j < k && curr == Some(q[j])
        decreases k - j
      {
        assert Placed(state.queues, level, j);
        if procList[curr.value].nextProcess == Some(p) {
          assert Placed(state.queues, level, j + 1);
          break;
        }
        curr := procList[curr.value].nextProcess;
        j := j + 1;
      }
    }

    /** Remove the running process from the list of its level. */
    method Unlink(p: nat, level: nat)
      requires Valid() && level < LEVELS && p in state.queues[level]
      modifies procList, heads
      ensures Shape(state.queues[level := Without(state.queues[level], p)])
      ensures heads[..] == old(heads[..])[level := HeadOf(Without(state.queues[level], p))]
      ensures forall k :: 0 <= k < MAX_PROCESSES ==>
        procList[k].(nextProcess := None) == old(procList[k].(nextProcess := None))
    {
      hide Top, Mlfq.Valid;
      ghost var q := state.queues[level];
      ghost var k := IndexOf(q, p);
      ghost var after := state.queues[level := Without(q, p)];
      assert Placed(state.queues, level, k);
      WithoutLinks(q, p);
      WithoutDisjoint(state.queues, level, p);
      if heads[level] == None { assert false; }
      if heads[level] == Some(p) {
        assert Placed(state.queues, level, 0);
        heads[level] := procList[p].nextProcess;
      } else {
        var next := procList[p].nextProcess;
        var curr := FindPredecessor(p, level);
        if curr == None { assert false; }
        assert Placed(state.queues, level, k - 1);
        procList[curr.value] := procList[curr.value].(nextProcess := next);
      }
      forall i, j | Placed(after, i, j)
        ensures var e := procList[after[i][j]];
          e.ptr == Some(after[i][j]) && e.priority == i && e.nextProcess == LinkAfter(after[i], j)
      {
        ghost var b := if i == level && j >= k then j + 1 else j;
        assert Placed(state.queues, i, b) && state.queues[i][b] == after[i][j];
        if k > 0 { assert Placed(state.queues, level, k - 1); }
      }
    }

    /** Push the running process, just unlinked, in front of the next lower list. */
    method PushBelow(p: nat, level: nat)
      requires level + 1 < LEVELS == |state.queues| && p in state.queues[level] && 0 < p < MAX_PROCESSES
      requires Shape(state.queues[level := Without(state.queues[level], p)])
      requires procList[p].ptr == Some(p) && procList[p].priority == level
      requires InRange(Demote(state.queues, level, p)) && Disjoint(Demote(state.queues, level, p))
      modifies procList, heads
      ensures Shape(Demote(state.queues, level, p))
      ensures procList[p].ticketsRemaining == STARTING_TICKETS
      ensures forall k :: 0 <= k < MAX_PROCESSES && k != p ==> procList[k] == old(procList[k])
    {
      ghost var was := state.queues[level := Without(state.queues[level], p)];
      ghost var after := Demote(state.queues, level, p);
      var newprior := procList[p].priority + 1;
      if newprior >= LEVELS { assert false; }
      procList[p] := procList[p].(priority := newprior);
      procList[p] := procList[p].(ticketsRemaining := STARTING_TICKETS);
      procList[p] := procList[p].(nextProcess := heads[newprior]);
      heads[newprior] := Some(p);
      assert Placed(after, newprior, 0);
      forall i, j | Placed(after, i, j) && !(i == newprior && j == 0)
        ensures var b := if i == newprior then j - 1 else j;
          Placed(was, i, b) && after[i][j] == was[i][b] && LinkAfter(after[i], j) == LinkAfter(was[i], b)
          && after[i][j] != p
      {}
    }

    /** Move the running process to the front of the next lower list, with a new allotment. */
    method MoveDown(p: nat, cprior: nat)
      requires Valid() && cprior + 1 < LEVELS && p in state.queues[cprior] && p < MAX_PROCESSES
      modifies `state, procList, heads
      ensures Valid()
      ensures state == old(state).(queues := Demote(old(state).queues, cprior, p),
        tickets := old(state).tickets[p := STARTING_TICKETS])
    {
      hide Without;
      assert Placed(state.queues, cprior, IndexOf(state.queues[cprior], p));
      ghost var s := state.(queues := Demote(state.queues, cprior, p), tickets := state.tickets[p := STARTING_TICKETS]);
      DemoteKeepsDisjoint(state.queues, cprior, p);
      DemoteKeeps(state, cprior, p);
      Unlink(p, cprior);
      PushBelow(p, cprior);
      state := s;
    }

    /** Charge the running process for the timeslice it has had. */
    method ChargeCurrent(p: nat)
      requires Valid() && current == Some(p)
      modifies `state, procList, heads
      ensures Valid() && state == Charge(old(state))
    {
      hide Demote, Without;
      ghost var level := LevelOf(state, p);
      assert Placed(state.queues, level, IndexOf(state.queues[level], p));
      if procList[p].ptr == None { assert false; }
      procList[p] := procList[p].(ticketsRemaining := procList[p].ticketsRemaining - TIMESLICE);
      if procList[p].ticketsRemaining < 0 {
        procList[p] := procList[p].(ticketsRemaining := 0);
        state := state.(tickets := state.tickets[p := 0]);
        var cprior := procList[p].priority;
        if cprior < LEVELS - 1 {
          MoveDown(p, cprior);
        }
      } else {
        state := state.(tickets := state.tickets[p := procList[p].ticketsRemaining]);
      }
    }

    /** sched_update */
    method Update()
      requires Valid()
      modifies this, procList, heads
      ensures Valid() && state == Mlfq.Update(old(state))
    {
      UpdateValid(state);
      if current == None {
        current := FirstHead();
        state := state.(current := current);
        return;
      }
      var p := current.value;
      ChargeValid(state);
      ChargeCurrent(p);
      ghost var level := LevelOf(state, p);
      ghost var k := IndexOf(state.queues[level], p);
      assert Placed(state.queues, level, k);
      ghost var picked := Pick(state);
      if procList[p].priority != 0 {
        var first := FirstHead();
        var newProcess := if first == None then p else first.value;
        assert Placed(state.queues, Top(state.queues), 0);
        if procList[newProcess].priority < procList[p].priority {
          current := Some(newProcess);
          state := picked;
          return;
        }
      }
      var cpr := procList[p].priority;
      if procList[p].nextProcess != None {
        current := procList[p].nextProcess;
      } else if heads[cpr] != None {
        current := heads[cpr];
      }
      state := picked;
    }

    /** The list walks of sched_printinfo, collecting what they visit. */
    method PrintInfo() returns (lists: seq<seq<nat>>)
      requires Valid()
      ensures lists == state.queues
    {
      if current != None {
        assert Placed(state.queues, LevelOf(state, current.value), IndexOf(state.queues[LevelOf(state, current.value)], current.value));
        if procList[current.value].ptr == None { assert false; }
      }
      lists := [];
      for i := 0 to LEVELS
        invariant lists == state.queues[..i]
      {
        var walked := [];
        var cptr := heads[i];
        while cptr != None
          invariant |walked| <= |state.queues[i]| && walked == state.queues[i][..|walked|]
          invariant cptr == if |walked| < |state.queues[i]| then Some(state.queues[i][|walked|]) else None
          decreases |state.queues[i]| - |walked|
        {
          assert Placed(state.queues, i, |walked|);
          if procList[cptr.value].ptr == None { assert false; }
          walked := walked + [procList[cptr.value].ptr.value];
          cptr := procList[cptr.value].nextProcess;
        }
        assert walked == state.queues[i];
        lists := lists + [walked];
      }
    }
  }
}
