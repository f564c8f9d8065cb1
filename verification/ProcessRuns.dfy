/** Whole runs of the kernel loop: programs started by process_execve between scheduler updates. */
module ProcessRuns {
  import opened Mlfq
  import opened MlfqRuns

  datatype Op = Exec(fileExists: bool) | Timer

  /** What the scheduler sees of one operation: process_execve schedules the least free pid, if any. */
  ghost function Seen(s: State, op: Op): seq<Event> {
    match op
    case Timer => [Event.Tick]
    case Exec(found) =>
      if found && FreePid(s).Some? then [Arrival(FreePid(s).value)] else []
  }

  lemma SeenRuns(s: State, op: Op)
    requires Valid(s)
    ensures Run(s, Seen(s, op))
  {
  }

  ghost function Trace(s: State, ops: seq<Op>): seq<Event>
    requires Valid(s)
    decreases |ops|
  {
    if ops == [] then [] else
      SeenRuns(s, ops[0]);
      Seen(s, ops[0]) + Trace(Final(s, Seen(s, ops[0])), ops[1..])
  }

  lemma {:induction false} RunConcat(s: State, a: seq<Event>, b: seq<Event>)
    requires Valid(s) && Run(s, a) && Run(Final(s, a), b)
    ensures Run(s, a + b)
    decreases a
  {
    hide Valid, Step, Enabled;
    if a == [] {
      assert a + b == b;
    } else {
      StepValid(s, a[0]);
      assert (a + b)[1..] == a[1..] + b;
      RunConcat(Step(s, a[0]), a[1..], b);
    }
  }

  /** process_execve only ever schedules a pid that is on no list. */
  lemma {:induction false} TraceRuns(s: State, ops: seq<Op>)
    requires Valid(s)
    ensures Run(s, Trace(s, ops))
    decreases |ops|
  {
    hide Valid, Seen;
    if ops != [] {
      SeenRuns(s, ops[0]);
      var e := Seen(s, ops[0]);
      TraceRuns(Final(s, e), ops[1..]);
      RunConcat(s, e, Trace(Final(s, e), ops[1..]));
    }
  }

  ghost function Steps(ops: seq<Op>): nat {
    if ops == [] then 0 else (if ops[0].Timer? then 1 else 0) + Steps(ops[1..])
  }

  lemma {:induction false} TicksConcat(a: seq<Event>, b: seq<Event>)
    ensures Ticks(a + b) == Ticks(a) + Ticks(b)
  {
    if a == [] {
      assert a + b == b;
    } else {
      assert (a + b)[1..] == a[1..] + b;
      TicksConcat(a[1..], b);
    }
  }

  lemma {:induction false} TraceTicks(s: State, ops: seq<Op>)
    requires Valid(s)
    ensures Ticks(Trace(s, ops)) == Steps(ops)
    decreases |ops|
  {
    hide Valid, Run, Final, FreePid;
    if ops != [] {
      SeenRuns(s, ops[0]);
      var e := Seen(s, ops[0]);
      assert Ticks(e) == if ops[0].Timer? then 1 else 0;
      TraceTicks(Final(s, e), ops[1..]);
      TicksConcat(e, Trace(Final(s, e), ops[1..]));
    }
  }

  /** Whatever is started along the way, at most 63 processes ever arrive, and each scheduled one keeps running. */
  lemma KernelRun(s: State, ops: seq<Op>, p: nat)
    requires Valid(s)
    ensures Run(s, Trace(s, ops)) && Arrivals(Trace(s, ops)) + Size(s) < MAX_PROCESSES
    ensures Scheduled(s, p) && Steps(ops) > 466 * 63 ==> Runs(s, Trace(s, ops), p)
  {
    hide Valid, Trace, Runs, Run, Steps, Phi;
    TraceRuns(s, ops);
    TraceTicks(s, ops);
    SlicesConserved(s, Trace(s, ops));
    SizeBound(Final(s, Trace(s, ops)));
    if Scheduled(s, p) && Steps(ops) > 466 * 63 { NoStarvationUnderArrivals(s, Trace(s, ops), p); }
  }
}
