/** Runs of pmem_alloc and pmem_free, on the record table and the cursor as values. */
module PmemRuns {
  import opened Common
  import opened Pmem

  datatype Table = Table(recs: seq<byte>, cursor: nat)

  ghost predicate Ok(t: Table) {
    t.cursor < |t.recs|
  }

  /** One call of pmem_alloc: the record handed out and the new table, or None for its panic. */
  function Take(t: Table): Option<(nat, Table)>
    requires Ok(t)
  {
    var found := Search(t.recs, t.cursor, 1);
    if found.None? then None
    else
      NextFit(t.recs, t.cursor);
      Some((found.value, Table(t.recs[found.value := 1], found.value)))
  }

  /** The records handed out by k calls, fewer when one of them panics. */
  function TakeMany(t: Table, k: nat): (out: (seq<nat>, Table))
    requires Ok(t)
    ensures Ok(out.1) && |out.1.recs| == |t.recs|
  {
    if k == 0 then ([], t) else
      var (taken, u) := TakeMany(t, k - 1);
      NextFit(u.recs, u.cursor);
      if Take(u).None? then (taken, u) else (taken + [Take(u).value.0], Take(u).value.1)
  }

  /** The order in which a fresh table is handed out: 1, 2, ..., n - 1, 0. */
  function Order(j: nat, n: nat): nat {
    if j + 1 == n then 0 else j + 1
  }

  lemma {:induction false} FreshStep(n: nat, k: nat)
    requires n >= 2 && k <= n
    ensures var (taken, u) := TakeMany(Table(seq(n, _ => 0), 0), k);
      && |taken| == k
      && (forall j :: 0 <= j < k ==> taken[j] == Order(j, n))
      && (forall i :: 0 <= i < n ==> u.recs[i] == if 1 <= i <= k || k == n then 1 else 0)
      && u.cursor == if k == n then 0 else k
  {
    if k > 0 {
      FreshStep(n, k - 1);
      var (taken, u) := TakeMany(Table(seq(n, _ => 0), 0), k - 1);
      assert u.cursor == k - 1;
      assert Hop(k - 1, 1, n) == Order(k - 1, n);
      assert u.recs[Order(k - 1, n)] == 0;
      assert Search(u.recs, k - 1, 1) == Some(Order(k - 1, n));
    }
  }

  /** A fresh allocator with n >= 2 pages hands out all n, each once, and only then panics. */
  lemma FreshYieldsAll(n: nat)
    requires n >= 2
    ensures var (taken, u) := TakeMany(Table(seq(n, _ => 0), 0), n);
      && |taken| == n
      && (forall i, j :: 0 <= i < j < n ==> taken[i] != taken[j])
      && Take(u).None?
  {
    FreshStep(n, n);
    var (taken, u) := TakeMany(Table(seq(n, _ => 0), 0), n);
    forall i, j | 0 <= i < j < n ensures taken[i] != taken[j] {
      assert taken[i] == Order(i, n) && taken[j] == Order(j, n);
    }
    NextFit(u.recs, u.cursor);
  }

  /** With one page the start record is the only one, and it is never tried. */
  lemma SinglePageNeverTaken(b: byte)
    ensures Take(Table([b], 0)).None?
  {
  }

  // ----- interleaved frees ----------------------------------------------------

  datatype Call = TakeCall | FreeCall(record: nat)

  /** Frees are of live records and no call panics. */
  ghost predicate Run(t: Table, live: set<nat>, calls: seq<Call>)
    requires Ok(t)
    decreases |calls|
  {
    calls == [] ||
    match calls[0]
    case TakeCall =>
      Take(t).Some? && (NextFit(t.recs, t.cursor); Run(Take(t).value.1, live + {Take(t).value.0}, calls[1..]))
    case FreeCall(i) =>
      i in live && i < |t.recs| && Run(t.(recs := t.recs[i := 0]), live - {i}, calls[1..])
  }

  ghost predicate LiveIsUsed(t: Table, live: set<nat>) {
    forall i :: i in live <==> 0 <= i < |t.recs| && t.recs[i] != 0
  }

  /** Every record handed out along the run was not live when it was handed out. */
  ghost predicate NeverTwice(t: Table, live: set<nat>, calls: seq<Call>)
    requires Ok(t) && Run(t, live, calls)
    decreases |calls|
  {
    calls == [] ||
    match calls[0]
    case TakeCall =>
      NextFit(t.recs, t.cursor);
      Take(t).value.0 !in live && NeverTwice(Take(t).value.1, live + {Take(t).value.0}, calls[1..])
    case FreeCall(i) => NeverTwice(t.(recs := t.recs[i := 0]), live - {i}, calls[1..])
  }

  lemma {:induction false} LivePagesNeverHandedOut(t: Table, live: set<nat>, calls: seq<Call>)
    requires Ok(t) && LiveIsUsed(t, live) && Run(t, live, calls)
    ensures NeverTwice(t, live, calls)
    decreases |calls|
  {
    if calls != [] {
      match calls[0]
      case TakeCall =>
        NextFit(t.recs, t.cursor);
        LivePagesNeverHandedOut(Take(t).value.1, live + {Take(t).value.0}, calls[1..]);
      case FreeCall(i) =>
        LivePagesNeverHandedOut(t.(recs := t.recs[i := 0]), live - {i}, calls[1..]);
    }
  }
}
