/**
 * The slab allocator as a value: per size class the free flags of the entries, the
 * scan start and the pages taken so far.  Addresses follow from the pages.
 */
module Slab {
  import opened Common

  const SLAB_ENTRY_COUNT: nat := 1000
  const SLAB_MAX_PAGE_COUNT: nat := 100
  const SLAB_COUNT: nat := 7

  /** Block sizes, each half of the preceding one. */
  const SIZES: seq<nat> := [4096, 2048, 1024, 512, 256, 128, 64]

  datatype Slab = Slab(free: seq<bool>, current: nat, pages: seq<nat>)

  /** Entries a page of blocks of the given size holds. */
  function PerPage(k: nat): (n: nat)
    requires k < SLAB_COUNT
    ensures n > 0 && n * SIZES[k] == PAGE
  {
    [1, 2, 4, 8, 16, 32, 64][k]
  }

  /** max_entries as a function of the number of pages. */
  function Capacity(k: nat, pages: nat): nat
    requires k < SLAB_COUNT
  {
    Min(SLAB_ENTRY_COUNT, pages * PerPage(k))
  }

  function CountFree(free: seq<bool>): nat {
    if free == [] then 0 else (if free[|free| - 1] then 1 else 0) + CountFree(free[..|free| - 1])
  }

  ghost predicate WellFormed(k: nat, s: Slab) {
    && k < SLAB_COUNT
    && |s.pages| <= SLAB_MAX_PAGE_COUNT
    && |s.free| == Capacity(k, |s.pages|)
    && (s.current < |s.free| || (s.current == 0 && s.free == []))
  }

  /** The address of entry j: the block after it, since the address is advanced before it is stored. */
  function Addr(k: nat, pages: seq<nat>, j: nat): nat
    requires k < SLAB_COUNT && j < Capacity(k, |pages|)
  {
    EntryPage(k, |pages|, j);
    pages[j / PerPage(k)] + (j % PerPage(k) + 1) * SIZES[k]
  }

  lemma EntryPage(k: nat, pages: nat, j: nat)
    requires k < SLAB_COUNT && j < Capacity(k, pages)
    ensures j / PerPage(k) < pages && 0 < (j % PerPage(k) + 1) * SIZES[k] <= PAGE
  {
  }

  // ----- operations on one slab -------------------------------------------------------

  /** No free entry, and no page or no entry left to grow by. */
  predicate Exhausted(s: Slab) {
    CountFree(s.free) == 0 && (|s.free| >= SLAB_ENTRY_COUNT || |s.pages| >= SLAB_MAX_PAGE_COUNT)
  }

  /** The page at hand, if there is one, leaves a further page of room below 4 GiB above the entries cut from it. */
  ghost predicate CanGrow(k: nat, pages: nat, next: Option<nat>)
    requires k < SLAB_COUNT
  {
    next.Some? && next.value + (Capacity(k, pages + 1) - Capacity(k, pages)) * SIZES[k] + PAGE < U32
  }

  /** The slab has nothing free but may grow. */
  ghost predicate NeedsPage(s: Slab) {
    CountFree(s.free) == 0 && !Exhausted(s)
  }

  /** An allocation from the slab succeeds when `next` is the page the page allocator would hand out. */
  ghost predicate Serves(k: nat, s: Slab, next: Option<nat>)
    requires k < SLAB_COUNT
  {
    CountFree(s.free) > 0 || (NeedsPage(s) && CanGrow(k, |s.pages|, next))
  }

  /** The slab with one more page, all its new entries free. */
  function Grow(k: nat, s: Slab, page: nat): (r: Slab)
    requires k < SLAB_COUNT && |s.free| == Capacity(k, |s.pages|)
    ensures |r.free| == Capacity(k, |r.pages|)
  {
    Slab(s.free + seq(Capacity(k, |s.pages| + 1) - Capacity(k, |s.pages|), _ => true), s.current, s.pages + [page])
  }

  /** Stepping with `%` moves one place on, and a full round ends where it began. */
  lemma HopNext(c: nat, d: nat, n: nat)
    requires c < n && d < n
    ensures (Hop(c, d, n) + 1) % n == Hop(c, d + 1, n)
    ensures Hop(c, d + 1, n) == c <==> d + 1 == n
  {
    OneRound(Hop(c, d, n) + 1, n);
  }

  lemma OneRound(x: nat, n: nat)
    requires 0 < x <= n
    ensures x % n == if x == n then 0 else x
  {
  }

  /** i is free and no other free entry lies cyclically between the scan start c and i. */
  ghost predicate FirstFreeFrom(free: seq<bool>, c: nat, i: nat) {
    && c < |free| && i < |free| && free[i]
    && forall j :: 0 <= j < |free| && free[j] ==> Distance(c, i, |free|) <= Distance(c, j, |free|)
  }

  /** The first free entry among those at least d places after c. */
  function Scan(free: seq<bool>, c: nat, d: nat): Option<nat>
    requires c < |free| && d <= |free|
    decreases |free| - d
  {
    if d == |free| then None
    else if free[Hop(c, d, |free|)] then Some(Hop(c, d, |free|))
    else Scan(free, c, d + 1)
  }

  lemma {:induction false} ScanFinds(free: seq<bool>, c: nat, d: nat)
    requires c < |free| && d <= |free|
    requires forall j :: 0 <= j < |free| && free[j] ==> d <= Distance(c, j, |free|)
    ensures var r := Scan(free, c, d);
      if r.Some? then FirstFreeFrom(free, c, r.value)
      else forall j :: 0 <= j < |free| ==> !free[j]
    decreases |free| - d
  {
    if d < |free| && !free[Hop(c, d, |free|)] { ScanFinds(free, c, d + 1); }
  }

  lemma {:induction false} CountFreeSome(free: seq<bool>, i: nat)
    requires i < |free| && free[i]
    ensures CountFree(free) > 0
  {
    if i < |free| - 1 { CountFreeSome(free[..|free| - 1], i); }
  }

  lemma {:induction false} CountFreeNone(free: seq<bool>)
    requires forall i :: 0 <= i < |free| ==> !free[i]
    ensures CountFree(free) == 0
  {
    if free != [] { CountFreeNone(free[..|free| - 1]); }
  }

  lemma {:induction false} CountFreeBound(free: seq<bool>)
    ensures CountFree(free) <= |free|
  {
    if free != [] { CountFreeBound(free[..|free| - 1]); }
  }

  /** As long as an entry is free, the circular scan finds the first one from its start on. */
  lemma ScanSucceeds(free: seq<bool>, c: nat)
    requires c < |free| && CountFree(free) > 0
    ensures Scan(free, c, 0).Some? && FirstFreeFrom(free, c, Scan(free, c, 0).value)
  {
    ScanFinds(free, c, 0);
    if Scan(free, c, 0).None? { CountFreeNone(free); }
  }

  lemma {:induction false} CountFreeSet(free: seq<bool>, i: nat, b: bool)
    requires i < |free| && free[i] != b
    ensures CountFree(free[i := b]) == if b then CountFree(free) + 1 else CountFree(free) - 1
  {
    var n := |free| - 1;
    if i < n {
      CountFreeSet(free[..n], i, b);
      assert free[i := b][..n] == free[..n][i := b];
    } else {
      assert free[i := b][..n] == free[..n];
    }
  }

  lemma {:induction false} CountFreeMore(free: seq<bool>, n: nat)
    ensures CountFree(free + seq(n, _ => true)) == CountFree(free) + n
  {
    var more := free + seq(n, _ => true);
    if n > 0 {
      CountFreeMore(free, n - 1);
      assert more[..|more| - 1] == free + seq(n - 1, _ => true);
    } else {
      assert more == free;
    }
  }

  /** Hand out the first free entry from the scan start on. */
  function Take(s: Slab): (r: (nat, Slab))
    requires s.current < |s.free| && CountFree(s.free) > 0
    ensures FirstFreeFrom(s.free, s.current, r.0) && r.1 == s.(free := s.free[r.0 := false], current := r.0)
  {
    ScanSucceeds(s.free, s.current);
    var i := Scan(s.free, s.current, 0).value;
    (i, s.(free := s.free[i := false], current := i))
  }

  function Release(s: Slab, i: nat): Slab
    requires i < |s.free|
  {
    s.(free := s.free[i := true], current := i)
  }

  /** The next allocation from the slab returns the entry just released, and undoes the release. */
  lemma ReleaseThenTake(s: Slab, i: nat)
    requires i < |s.free| && !s.free[i]
    ensures var r := Release(s, i);
      CountFree(r.free) > 0 && Take(r) == (i, s.(current := i))
  {
    var r := Release(s, i);
    CountFreeSome(r.free, i);
    assert Hop(i, 0, |r.free|) == i;
    assert r.free[i := false] == s.free;
  }
}
