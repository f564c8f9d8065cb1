/**
 * All seven slabs together: addresses identify entries over whole runs, and exactly when
 * two blocks share bytes, which the advanced addresses make possible.
 */
module SlabHeap {
  import opened Common
  import opened Memory
  import opened Slab

  type Heap = seq<Slab>

  ghost predicate PageAt(h: Heap, k: int, a: int) {
    0 <= k < |h| && 0 <= a < |h[k].pages|
  }

  /** The pages of all slabs are aligned, end below 4 GiB and are pairwise different. */
  ghost predicate DistinctPages(h: Heap) {
    && (forall k, a {:trigger PageAt(h, k, a)} :: PageAt(h, k, a) ==> Aligned(h[k].pages[a]) && 0 < h[k].pages[a] < U32 - PAGE)
    && (forall k, a, l, b {:trigger PageAt(h, k, a), PageAt(h, l, b)} ::
      (PageAt(h, k, a) && PageAt(h, l, b) && h[k].pages[a] == h[l].pages[b]) ==> (k == l && a == b))
  }

  ghost predicate Valid(h: Heap) {
    |h| == SLAB_COUNT && (forall k :: 0 <= k < SLAB_COUNT ==> WellFormed(k, h[k])) && DistinctPages(h)
  }

  ghost predicate EntryOf(h: Heap, k: nat, j: nat) {
    k < |h| == SLAB_COUNT && j < |h[k].free| == Capacity(k, |h[k].pages|)
  }

  /** The page entry j was cut from. */
  function PageFor(k: nat, pages: seq<nat>, j: nat): nat
    requires k < SLAB_COUNT && j < Capacity(k, |pages|)
  {
    EntryPage(k, |pages|, j);
    pages[j / PerPage(k)]
  }

  /** The entry is the last of its page, so its block starts where the page ends. */
  predicate LastOfPage(k: nat, j: nat)
    requires k < SLAB_COUNT
  {
    j % PerPage(k) + 1 == PerPage(k)
  }

  lemma SameOffset(k: nat, i: nat, j: nat)
    requires k < SLAB_COUNT && i / PerPage(k) == j / PerPage(k)
    requires (i % PerPage(k) + 1) * SIZES[k] == (j % PerPage(k) + 1) * SIZES[k]
    ensures i == j
  {
  }

  lemma SameOrigin(p: nat, x: nat, q: nat, y: nat)
    requires Aligned(p) && Aligned(q) && 0 < x <= PAGE && 0 < y <= PAGE && p + x == q + y
    ensures p == q && x == y
  {
  }

  /** No two entries of the seven slabs share an address. */
  lemma AddrUnique(h: Heap, k: nat, i: nat, l: nat, j: nat)
    requires Valid(h) && EntryOf(h, k, i) && EntryOf(h, l, j)
    requires Addr(k, h[k].pages, i) == Addr(l, h[l].pages, j)
    ensures k == l && i == j
  {
    hide Capacity, Aligned;
    EntryPage(k, |h[k].pages|, i);
    EntryPage(l, |h[l].pages|, j);
    var a, b := i / PerPage(k), j / PerPage(l);
    assert PageAt(h, k, a) && PageAt(h, l, b);
    var x, y := (i % PerPage(k) + 1) * SIZES[k], (j % PerPage(l) + 1) * SIZES[l];
    SameOrigin(h[k].pages[a], x, h[l].pages[b], y);
    SameOffset(k, i, j);
  }

  // ----- the bytes of a block ------------------------------------------------------------

  /** The address of an entry lies in (P, P + 4096]; its block lies in the page unless it is the last. */
  lemma InOwnPage(h: Heap, k: nat, j: nat)
    requires Valid(h) && EntryOf(h, k, j)
    ensures var a, p := Addr(k, h[k].pages, j), PageFor(k, h[k].pages, j);
      && p < a <= p + PAGE && a < U32
      && (a + SIZES[k] <= p + PAGE <==> !LastOfPage(k, j))
      && (LastOfPage(k, j) ==> a == p + PAGE)
  {
    EntryPage(k, |h[k].pages|, j);
    assert PageAt(h, k, j / PerPage(k));
  }

  /** The blocks (k, i) and (l, j) have a byte in common. */
  ghost predicate Share(h: Heap, k: nat, i: nat, l: nat, j: nat)
    requires EntryOf(h, k, i) && EntryOf(h, l, j)
  {
    && Addr(k, h[k].pages, i) < Addr(l, h[l].pages, j) + SIZES[l]
    && Addr(l, h[l].pages, j) < Addr(k, h[k].pages, i) + SIZES[k]
  }

  /** (k, i) is the last block of a page, and (l, j) starts before its end in the page that follows. */
  ghost predicate Spills(h: Heap, k: nat, i: nat, l: nat, j: nat)
    requires EntryOf(h, k, i) && EntryOf(h, l, j)
  {
    && LastOfPage(k, i)
    && PageFor(l, h[l].pages, j) == PageFor(k, h[k].pages, i) + PAGE
    && (j % PerPage(l) + 1) * SIZES[l] < SIZES[k]
  }

  /** Two different blocks share bytes exactly when one of them spills over into the other. */
  lemma ShareExact(h: Heap, k: nat, i: nat, l: nat, j: nat)
    requires Valid(h) && EntryOf(h, k, i) && EntryOf(h, l, j) && (k != l || i != j)
    ensures Share(h, k, i, l, j) <==> Spills(h, k, i, l, j) || Spills(h, l, j, k, i)
  {
    hide Capacity, Aligned, Valid, PerPage;
    var p, q := PageFor(k, h[k].pages, i), PageFor(l, h[l].pages, j);
    var x, y := i % PerPage(k) + 1, j % PerPage(l) + 1;
    PageOfEntry(h, k, i, l, j);
    assert Addr(k, h[k].pages, i) == p + x * SIZES[k] && Addr(l, h[l].pages, j) == q + y * SIZES[l];
    if p == q {
      SlotsApart(k, i, j);
    } else {
      NeighbourPages(k, p, x, l, q, y);
    }
  }

  /** Pages are aligned, and two entries on one page are of one class and of one turn of growing. */
  lemma PageOfEntry(h: Heap, k: nat, i: nat, l: nat, j: nat)
    requires Valid(h) && EntryOf(h, k, i) && EntryOf(h, l, j)
    ensures var p, q := PageFor(k, h[k].pages, i), PageFor(l, h[l].pages, j);
      Aligned(p) && Aligned(q) && (p == q ==> k == l && i / PerPage(k) == j / PerPage(l))
  {
    hide Capacity, Aligned;
    EntryPage(k, |h[k].pages|, i);
    EntryPage(l, |h[l].pages|, j);
    assert PageAt(h, k, i / PerPage(k)) && PageAt(h, l, j / PerPage(l));
  }

  /** Two blocks of one page have different slots. */
  lemma SlotsApart(k: nat, i: nat, j: nat)
    requires k < SLAB_COUNT && i != j && i / PerPage(k) == j / PerPage(k)
    ensures var x, y := (i % PerPage(k) + 1) * SIZES[k], (j % PerPage(k) + 1) * SIZES[k];
      x + SIZES[k] <= y || y + SIZES[k] <= x
  {
  }

  /** Slot x of page p and slot y of another page q meet only across a page boundary. */
  lemma NeighbourPages(k: nat, p: nat, x: nat, l: nat, q: nat, y: nat)
    requires k < SLAB_COUNT && l < SLAB_COUNT && Aligned(p) && Aligned(q) && p != q
    requires 0 < x <= PerPage(k) && 0 < y <= PerPage(l)
    ensures p + x * SIZES[k] < q + y * SIZES[l] + SIZES[l] && q + y * SIZES[l] < p + x * SIZES[k] + SIZES[k] <==>
      || (x == PerPage(k) && q == p + PAGE && y * SIZES[l] < SIZES[k])
      || (y == PerPage(l) && p == q + PAGE && x * SIZES[k] < SIZES[l])
  {
  }

  /** Byte a lies in some page of the heap. */
  ghost predicate InHeap(h: Heap, a: nat) {
    exists l, b :: PageAt(h, l, b) && h[l].pages[b] <= a < h[l].pages[b] + PAGE
  }

  ghost predicate OwnsPage(h: Heap, p: nat) {
    exists l, b :: PageAt(h, l, b) && h[l].pages[b] == p
  }

  lemma OwnedBytes(h: Heap, p: nat, x: nat)
    requires OwnsPage(h, p) && p <= x < p + PAGE
    ensures InHeap(h, x)
  {
  }

  /** The first byte of a page is the heap's only with the whole page. */
  lemma OwnerOf(h: Heap, p: nat)
    requires DistinctPages(h) && Aligned(p) && InHeap(h, p)
    ensures OwnsPage(h, p)
  {
    var l, b :| PageAt(h, l, b) && h[l].pages[b] <= p < h[l].pages[b] + PAGE;
    assert h[l].pages[b] == p;
  }

  lemma OwnPage(h: Heap, k: nat, j: nat)
    requires Valid(h) && EntryOf(h, k, j)
    ensures var p := PageFor(k, h[k].pages, j); OwnsPage(h, p) && Aligned(p + PAGE) && DistinctPages(h) && p + 2 * PAGE <= U32
    ensures 0 < SIZES[k] <= PAGE
  {
    hide Capacity;
    EntryPage(k, |h[k].pages|, j);
    assert PageAt(h, k, j / PerPage(k));
  }

  /** A block lies in the heap's pages, byte by byte, exactly when it is not the last of its page or the next page is the heap's too. */
  lemma InHeapExact(h: Heap, k: nat, j: nat)
    requires Valid(h) && EntryOf(h, k, j)
    ensures var a := Addr(k, h[k].pages, j);
      && a + SIZES[k] <= U32
      && ((forall x: nat :: a <= x < a + SIZES[k] ==> InHeap(h, x)) <==>
            !LastOfPage(k, j) || OwnsPage(h, PageFor(k, h[k].pages, j) + PAGE))
  {
    hide Capacity, PageFor, Addr, LastOfPage, Valid, DistinctPages, InHeap, OwnsPage, Aligned;
    var a, p, size := Addr(k, h[k].pages, j), PageFor(k, h[k].pages, j), SIZES[k];
    InOwnPage(h, k, j);
    OwnPage(h, k, j);
    if !LastOfPage(k, j) {
      forall x: nat | a <= x < a + size ensures InHeap(h, x) { OwnedBytes(h, p, x); }
    } else if OwnsPage(h, p + PAGE) {
      forall x: nat | a <= x < a + size ensures InHeap(h, x) { OwnedBytes(h, p + PAGE, x); }
    } else if InHeap(h, a) {
      OwnerOf(h, a);
    }
  }

  /** Blocks of one size class never share bytes. */
  lemma OneClassApart(h: Heap, k: nat, i: nat, j: nat)
    requires Valid(h) && EntryOf(h, k, i) && EntryOf(h, k, j) && i != j
    ensures !Share(h, k, i, k, j)
  {
    ShareExact(h, k, i, k, j);
  }

  // ----- malloc and free on the heap ----------------------------------------------------

  /** The last slab, hence the smallest block, that fits the size; SLAB_COUNT when none does. */
  function ClassOf(size: nat): (k: nat)
    ensures k < SLAB_COUNT <==> size <= 4096
    ensures k < SLAB_COUNT ==> size <= SIZES[k] && (k + 1 < SLAB_COUNT ==> SIZES[k + 1] < size)
  {
    if size <= 64 then 6 else if size <= 128 then 5 else if size <= 256 then 4 else if size <= 512 then 3
    else if size <= 1024 then 2 else if size <= 2048 then 1 else if size <= 4096 then 0 else SLAB_COUNT
  }

  /** The slab an allocation is made from: grown by `page` when nothing is free. */
  function Ready(k: nat, s: Slab, page: nat): Slab
    requires k < SLAB_COUNT && |s.free| == Capacity(k, |s.pages|)
  {
    if CountFree(s.free) == 0 then Grow(k, s, page) else s
  }

  /** The page is not in use by the heap, as the page allocator guarantees. */
  ghost predicate Fresh(h: Heap, page: nat) {
    Aligned(page) && 0 < page < U32 - PAGE && forall k, a {:trigger PageAt(h, k, a)} :: PageAt(h, k, a) ==> h[k].pages[a] != page
  }

  /** A page is at hand if the slab needs one. */
  ghost predicate Offers(h: Heap, k: nat, page: nat)
    requires k < |h|
  {
    CountFree(h[k].free) == 0 ==> Fresh(h, page)
  }

  lemma ReadySlab(k: nat, s: Slab, page: nat)
    requires WellFormed(k, s) && !Exhausted(s)
    ensures var r := Ready(k, s, page); WellFormed(k, r) && CountFree(r.free) > 0 && r.current < |r.free|
  {
    hide Capacity, CountFree;
    if CountFree(s.free) == 0 {
      GrowthIs(k, |s.pages|);
      CountFreeMore(s.free, Capacity(k, |s.pages| + 1) - Capacity(k, |s.pages|));
    } else {
      CountFreeBound(s.free);
    }
  }

  /** A successful malloc: entry, and heap afterwards. */
  function Malloc(h: Heap, k: nat, page: nat): (r: (nat, Heap))
    requires k < |h| == SLAB_COUNT && WellFormed(k, h[k]) && !Exhausted(h[k])
  {
    ReadySlab(k, h[k], page);
    var (i, s) := Take(Ready(k, h[k], page));
    (i, h[k := s])
  }

  function Free(h: Heap, k: nat, i: nat): Heap
    requires k < |h| && i < |h[k].free|
  {
    h[k := Release(h[k], i)]
  }

  /** (k, i) is a block handed out and not yet freed. */
  ghost predicate Live(h: Heap, k: nat, i: nat) {
    EntryOf(h, k, i) && !h[k].free[i]
  }

  lemma GrowKeepsPages(h: Heap, k: nat, page: nat)
    requires Valid(h) && k < SLAB_COUNT && Fresh(h, page)
    ensures DistinctPages(h[k := Grow(k, h[k], page)])
  {
    hide Capacity, Aligned;
    var g, n := h[k := Grow(k, h[k], page)], |h[k].pages|;
    forall l, a | PageAt(g, l, a)
      ensures (l == k && a == n && g[l].pages[a] == page)
        || (PageAt(h, l, a) && g[l].pages[a] == h[l].pages[a] && h[l].pages[a] != page)
    {
      if !(l == k && a == n) { assert PageAt(h, l, a); }
    }
    forall l, a, m, b | PageAt(g, l, a) && PageAt(g, m, b) && g[l].pages[a] == g[m].pages[b] ensures l == m && a == b {
    }
  }

  /** Growing leaves the addresses of the entries there already alone. */
  lemma AddrKept(k: nat, pages: seq<nat>, page: nat, j: nat)
    requires k < SLAB_COUNT && j < Capacity(k, |pages|)
    ensures j < Capacity(k, |pages| + 1) && Addr(k, pages + [page], j) == Addr(k, pages, j)
  {
  }

  /** All pages of the heap are among the given ones. */
  ghost predicate PagesIn(h: Heap, used: set<nat>) {
    forall k, a {:trigger PageAt(h, k, a)} :: PageAt(h, k, a) ==> h[k].pages[a] in used
  }

  /** Growing slab k by a page from outside `used` keeps the heap well formed. */
  lemma GrowValid(h: Heap, k: nat, page: nat, used: set<nat>)
    requires Valid(h) && k < SLAB_COUNT && CountFree(h[k].free) == 0 && !Exhausted(h[k])
    requires PagesIn(h, used) && page !in used && Aligned(page) && 0 < page < U32 - PAGE
    ensures Fresh(h, page)
    ensures Valid(h[k := Grow(k, h[k], page)]) && PagesIn(h[k := Grow(k, h[k], page)], used + {page})
  {
    hide Capacity, Aligned;
    assert Fresh(h, page);
    GrowKeepsPages(h, k, page);
    ReadySlab(k, h[k], page);
    var g := h[k := Grow(k, h[k], page)];
    forall l, a | PageAt(g, l, a) ensures g[l].pages[a] in used + {page} {
      if l != k || a < |h[k].pages| { assert PageAt(h, l, a); }
    }
  }

  /** Taking an entry keeps the heap well formed and its pages. */
  lemma TakeValid(h: Heap, k: nat, used: set<nat>)
    requires Valid(h) && k < SLAB_COUNT && CountFree(h[k].free) > 0 && h[k].current < |h[k].free| && PagesIn(h, used)
    ensures Valid(h[k := Take(h[k]).1]) && PagesIn(h[k := Take(h[k]).1], used)
  {
    hide Capacity, CountFree, Scan, DistinctPages;
    var g := h[k := Take(h[k]).1];
    SamePages(h, g);
    forall l, a ensures PageAt(g, l, a) <==> PageAt(h, l, a) {}
  }

  lemma MallocValid(h: Heap, k: nat, page: nat)
    requires Valid(h) && k < SLAB_COUNT && !Exhausted(h[k]) && Offers(h, k, page)
    ensures Valid(Malloc(h, k, page).1)
  {
    hide Capacity, Aligned, CountFree, Scan;
    ReadySlab(k, h[k], page);
    if CountFree(h[k].free) == 0 { GrowKeepsPages(h, k, page); }
    var s, g := Ready(k, h[k], page), Malloc(h, k, page).1;
    assert h[k := h[k]] == h;
    assert DistinctPages(h[k := s]);
    SamePages(h[k := s], g);
  }

  /** The pages after a malloc are those before and the one taken, if any. */
  lemma MallocPages(h: Heap, k: nat, page: nat, before: set<nat>, after: set<nat>)
    requires Valid(h) && k < SLAB_COUNT && !Exhausted(h[k]) && PagesIn(h, before) && before <= after
    requires CountFree(h[k].free) == 0 ==> page in after
    ensures PagesIn(Malloc(h, k, page).1, after)
  {
    hide Capacity, CountFree, Scan, DistinctPages;
    ReadySlab(k, h[k], page);
    var g := Malloc(h, k, page).1;
    forall l, a | PageAt(g, l, a) ensures g[l].pages[a] in after {
      if l != k || a < |h[k].pages| { assert PageAt(h, l, a); }
    }
  }

  lemma SamePages(h: Heap, g: Heap)
    requires DistinctPages(h) && |g| == |h| && forall k :: 0 <= k < |h| ==> g[k].pages == h[k].pages
    ensures DistinctPages(g)
  {
    forall l, a ensures PageAt(g, l, a) <==> PageAt(h, l, a) {}
  }

  /** What a malloc means for the block (l, j): the one handed out was not live, every other keeps its state and address. */
  lemma MallocEntry(h: Heap, k: nat, page: nat, l: nat, j: nat)
    requires Valid(h) && k < SLAB_COUNT && !Exhausted(h[k]) && Offers(h, k, page)
    ensures var (i, g) := Malloc(h, k, page);
      && (Live(g, l, j) <==> Live(h, l, j) || (l == k && j == i))
      && !Live(h, k, i)
      && (Live(h, l, j) ==> Addr(l, g[l].pages, j) == Addr(l, h[l].pages, j))
  {
    hide CountFree, Scan, Capacity, Aligned, DistinctPages;
    ReadySlab(k, h[k], page);
    if EntryOf(h, l, j) && l == k { AddrKept(k, h[k].pages, page, j); }
  }

  /**
   * malloc hands out a block that was not live, and leaves every live block live at its address;
   * the new block has bytes in common with a live one exactly when one spills over into the other.
   */
  lemma MallocApart(h: Heap, k: nat, page: nat)
    requires Valid(h) && k < SLAB_COUNT && !Exhausted(h[k]) && Offers(h, k, page)
    ensures var (i, g) := Malloc(h, k, page);
      && Valid(g) && Live(g, k, i) && !Live(h, k, i)
      && (forall l: nat, j: nat :: Live(g, l, j) <==> Live(h, l, j) || (l == k && j == i))
      && (forall l: nat, j: nat :: Live(h, l, j) ==> Addr(l, g[l].pages, j) == Addr(l, h[l].pages, j))
      && (forall l: nat, j: nat :: Live(h, l, j) ==> Live(g, l, j) && (Share(g, k, i, l, j) <==> Spills(g, k, i, l, j) || Spills(g, l, j, k, i)))
  {
    hide Addr, Exhausted, Offers, DistinctPages, Share, Spills;
    MallocValid(h, k, page);
    var (i, g) := Malloc(h, k, page);
    MallocEntry(h, k, page, k, i);
    forall l: nat, j: nat ensures
        (Live(g, l, j) <==> Live(h, l, j) || (l == k && j == i))
        && (Live(h, l, j) ==> Addr(l, g[l].pages, j) == Addr(l, h[l].pages, j))
    {
      MallocEntry(h, k, page, l, j);
    }
    forall l: nat, j: nat | Live(h, l, j) ensures Share(g, k, i, l, j) <==> Spills(g, k, i, l, j) || Spills(g, l, j, k, i) {
      ShareExact(g, k, i, l, j);
    }
  }

  /** A block taken when nothing is free is cut from the new page; of the largest class it lies right behind that page. */
  lemma NewPageBlock(h: Heap, page: nat)
    requires |h| == SLAB_COUNT && WellFormed(0, h[0]) && NeedsPage(h[0])
    ensures var (i, g) := Malloc(h, 0, page);
      i < Capacity(0, |g[0].pages|) && PageFor(0, g[0].pages, i) == page && Addr(0, g[0].pages, i) == page + PAGE && LastOfPage(0, i)
  {
    hide Malloc, CountFree, FirstFreeFrom;
    CountFreeAny(h[0].free);
    MallocServes(h, 0, page);
  }

  /** free ends the life of its block and of no other. */
  lemma FreeApart(h: Heap, k: nat, i: nat)
    requires Valid(h) && Live(h, k, i)
    ensures var g := Free(h, k, i);
      && Valid(g)
      && (forall l: nat, j: nat :: Live(g, l, j) <==> Live(h, l, j) && !(l == k && j == i))
      && (forall l: nat :: l < SLAB_COUNT ==> g[l].pages == h[l].pages)
  {
    hide DistinctPages, Capacity;
    SamePages(h, Free(h, k, i));
  }

  lemma FreeValid(h: Heap, k: nat, i: nat, used: set<nat>)
    requires Valid(h) && Live(h, k, i) && PagesIn(h, used)
    ensures Valid(Free(h, k, i)) && PagesIn(Free(h, k, i), used)
  {
    hide DistinctPages, Capacity;
    SamePages(h, Free(h, k, i));
    forall l, a ensures PageAt(Free(h, k, i), l, a) <==> PageAt(h, l, a) {}
  }

  /**
   * s became t by serving entry i, on `page` if nothing was free: the first free entry from the scan
   * start on, or the first of those cut from the page.
   */
  ghost predicate Served(k: nat, s: Slab, t: Slab, i: nat, page: nat)
    requires k < SLAB_COUNT
  {
    && i < |t.free| && t.current == i
    && if exists j :: 0 <= j < |s.free| && s.free[j] then
         FirstFreeFrom(s.free, s.current, i) && t.free == s.free[i := false] && t.pages == s.pages
       else
         && i == |s.free| && t.pages == s.pages + [page]
         && |t.free| == Min(1000, |s.free| + 4096 / SIZES[k])
         && forall j :: 0 <= j < |t.free| ==> (t.free[j] <==> j > i)
  }

  lemma CountFreeAny(free: seq<bool>)
    ensures CountFree(free) == 0 <==> forall j :: 0 <= j < |free| ==> !free[j]
  {
    if CountFree(free) == 0 {
      forall j | 0 <= j < |free| ensures !free[j] { if free[j] { CountFreeSome(free, j); } }
    } else if forall j :: 0 <= j < |free| ==> !free[j] {
      CountFreeNone(free);
    }
  }

  lemma GrowthIs(k: nat, pages: nat)
    requires k < SLAB_COUNT && Capacity(k, pages) < SLAB_ENTRY_COUNT
    ensures Capacity(k, pages + 1) == Min(1000, Capacity(k, pages) + 4096 / SIZES[k])
  {
    assert (pages + 1) * PerPage(k) == pages * PerPage(k) + PerPage(k);
    PerPageIs(k);
  }

  lemma PerPageIs(k: nat)
    requires k < SLAB_COUNT
    ensures 4096 / SIZES[k] == PerPage(k)
  {
  }

  /** Which entry malloc hands out, in terms of the free flags. */
  lemma MallocServes(h: Heap, k: nat, page: nat)
    requires k < |h| == SLAB_COUNT && WellFormed(k, h[k]) && !Exhausted(h[k])
    ensures var (i, g) := Malloc(h, k, page); g == h[k := g[k]] && Served(k, h[k], g[k], i, page)
  {
    hide Scan, Capacity;
    ReadySlab(k, h[k], page);
    CountFreeAny(h[k].free);
    if CountFree(h[k].free) == 0 {
      GrowthIs(k, |h[k].pages|);
      var r := Ready(k, h[k], page);
      var (i, t) := Take(r);
      assert r.free[|h[k].free|];
      assert forall j :: 0 <= j < |h[k].free| ==> r.free[j] == h[k].free[j];
      assert i == |h[k].free|;
    }
  }

  /** When an allocation from the slab succeeds, and the address of an entry, in numbers. */
  lemma ServesWhen(k: nat, s: Slab, next: Option<nat>)
    requires WellFormed(k, s)
    ensures Serves(k, s, next) <==>
      || (exists j :: 0 <= j < |s.free| && s.free[j])
      || (|s.free| < 1000 && |s.pages| < 100 && next.Some?
          && next.value + Min(4096 / SIZES[k], 1000 - |s.free|) * SIZES[k] + 4096 < 0x1_0000_0000)
    ensures forall j: nat :: j < |s.free| ==>
      var n := 4096 / SIZES[k];
      j / n < |s.pages| && Addr(k, s.pages, j) == s.pages[j / n] + (j % n + 1) * SIZES[k]
  {
    CountFreeAny(s.free);
    PerPageIs(k);
    if |s.free| < 1000 { GrowthIs(k, |s.pages|); }
    forall j: nat | j < |s.free| ensures j / PerPage(k) < |s.pages| { EntryPage(k, |s.pages|, j); }
  }

  // ----- the order of a fresh class ---------------------------------------------------------

  /** Exactly the first m entries are taken, the last of them most recently. */
  ghost predicate InOrder(s: Slab, m: nat) {
    m <= |s.free| && s.current == (if m == 0 then 0 else m - 1) && forall j :: 0 <= j < |s.free| ==> (s.free[j] <==> j >= m)
  }

  lemma NextInOrder(h: Heap, k: nat, page: nat, m: nat)
    requires k < |h| == SLAB_COUNT && WellFormed(k, h[k]) && !Exhausted(h[k]) && InOrder(h[k], m)
    ensures var (i, g) := Malloc(h, k, page); i == m && InOrder(g[k], m + 1)
  {
    hide Capacity, Exhausted, Malloc;
    MallocServes(h, k, page);
    var (i, g) := Malloc(h, k, page);
    if m < |h[k].free| {
      assert h[k].free[m];
      assert Distance(h[k].current, i, |h[k].free|) <= Distance(h[k].current, m, |h[k].free|);
    }
  }

  lemma {:induction false} OrderRun(h: Heap, calls: seq<Call>, k: nat, m: nat)
    requires Valid(h) && k < SLAB_COUNT && Run(h, calls) && InOrder(h[k], m)
    requires forall c :: c in calls ==> c.MallocCall? && ClassOf(c.size) == k
    ensures Valid(Final(h, calls)) && InOrder(Final(h, calls)[k], m + |calls|)
    decreases |calls|
  {
    hide DistinctPages, Malloc, Exhausted, Offers, WellFormed, InOrder;
    if calls != [] {
      var c := calls[0];
      assert c in calls;
      MallocApart(h, k, c.page);
      SlabOf(h, k);
      NextInOrder(h, k, c.page, m);
      OrderRun(After(h, c), calls[1..], k, m + 1);
    }
  }

  lemma SlabOf(h: Heap, k: nat)
    requires Valid(h) && k < SLAB_COUNT
    ensures |h| == SLAB_COUNT && WellFormed(k, h[k])
  {
  }

  lemma ExhaustedWhen(k: nat, s: Slab, m: nat)
    requires WellFormed(k, s) && InOrder(s, m)
    ensures Exhausted(s) <==> m == [100, 200, 400, 800, 1000, 1000, 1000][k]
  {
    CountFreeAny(s.free);
    assert |s.pages| * PerPage(k) <= 100 * PerPage(k) by { MulLe(|s.pages|, 100, PerPage(k)); }
    if |s.pages| < 100 { MulLe(|s.pages| + 1, 100, PerPage(k)); }
  }

  lemma MulLe(a: nat, b: nat, c: nat)
    requires a <= b
    ensures a * c <= b * c
  {
  }

  /**
   * On a fresh class, without frees, the n-th malloc returns entry n - 1, and the class is exhausted
   * after exactly as many as 100 pages hold, or 1000.
   */
  lemma FreshOrder(calls: seq<Call>, h: Heap, k: nat, page: nat)
    requires k < SLAB_COUNT && Run(Initial, calls) && forall c :: c in calls ==> c.MallocCall? && ClassOf(c.size) == k
    requires h == Final(Initial, calls)
    ensures Valid(h) && k < |h| == SLAB_COUNT && WellFormed(k, h[k])
    ensures Exhausted(h[k]) <==> |calls| == [100, 200, 400, 800, 1000, 1000, 1000][k]
    ensures !Exhausted(h[k]) ==> Malloc(h, k, page).0 == |calls|
  {
    InitialValid();
    assert InOrder(Initial[k], 0);
    OrderRun(Initial, calls, k, 0);
    hide Final, Run, Malloc, InOrder, Exhausted, DistinctPages;
    SlabOf(h, k);
    ExhaustedWhen(k, h[k], |calls|);
    if !Exhausted(h[k]) { NextInOrder(h, k, page, |calls|); }
  }

  /** free keeps the pages. */
  lemma FreePages(h: Heap, k: nat, i: nat, used: set<nat>)
    requires EntryOf(h, k, i) && PagesIn(h, used)
    ensures PagesIn(Free(h, k, i), used)
  {
    forall l, a ensures PageAt(Free(h, k, i), l, a) <==> PageAt(h, l, a) {}
  }

  /** A block just freed is the one the next malloc of its class returns, whatever page is on offer. */
  lemma FreeThenMalloc(h: Heap, k: nat, i: nat, page: nat)
    requires Valid(h) && Live(h, k, i)
    ensures var g := Free(h, k, i);
      && !Exhausted(g[k]) && WellFormed(k, g[k])
      && Malloc(g, k, page) == (i, h[k := h[k].(current := i)])
  {
    ReleaseThenTake(h[k], i);
    CountFreeBound(h[k].free);
    var g := Free(h, k, i);
    assert g[k := Take(g[k]).1] == h[k := h[k].(current := i)];
  }

  // ----- runs ------------------------------------------------------------------------------

  /** A call with the choice the machine makes: the page offered, or the block freed. */
  datatype Call = MallocCall(size: nat, page: nat) | FreeCall(slab: nat, entry: nat)

  ghost predicate Allowed(h: Heap, c: Call) {
    match c
    case MallocCall(size, page) =>
      ClassOf(size) < |h| == SLAB_COUNT && WellFormed(ClassOf(size), h[ClassOf(size)]) && !Exhausted(h[ClassOf(size)])
      && Offers(h, ClassOf(size), page)
    case FreeCall(k, i) => Live(h, k, i)
  }

  ghost function After(h: Heap, c: Call): Heap
    requires Allowed(h, c)
  {
    match c
    case MallocCall(size, page) => Malloc(h, ClassOf(size), page).1
    case FreeCall(k, i) => Free(h, k, i)
  }

  const Initial: Heap := seq(SLAB_COUNT, _ => Slab([], 0, []))

  lemma InitialValid()
    ensures Valid(Initial)
  {
  }

  ghost predicate Run(h: Heap, calls: seq<Call>)
    decreases |calls|
  {
    calls == [] || (Allowed(h, calls[0]) && Run(After(h, calls[0]), calls[1..]))
  }

  ghost function Final(h: Heap, calls: seq<Call>): Heap
    requires Run(h, calls)
    decreases |calls|
  {
    if calls == [] then h else Final(After(h, calls[0]), calls[1..])
  }

  /** Every state reached by malloc and by free of live blocks is well formed. */
  lemma {:induction false} RunValid(h: Heap, calls: seq<Call>)
    requires Valid(h) && Run(h, calls)
    ensures Valid(Final(h, calls))
    decreases |calls|
  {
    hide DistinctPages, Malloc, Free, Exhausted, Offers, WellFormed;
    if calls != [] {
      match calls[0] {
        case MallocCall(size, page) => MallocApart(h, ClassOf(size), page);
        case FreeCall(k, i) => FreeApart(h, k, i);
      }
      RunValid(After(h, calls[0]), calls[1..]);
    }
  }

  ghost function LiveCount(free: seq<bool>): nat {
    CountFreeBound(free);
    |free| - CountFree(free)
  }

  lemma CapacityBound(k: nat, pages: nat)
    requires k < SLAB_COUNT && pages <= SLAB_MAX_PAGE_COUNT
    ensures Capacity(k, pages) <= Min(SLAB_ENTRY_COUNT, SLAB_MAX_PAGE_COUNT * PerPage(k))
  {
  }

  lemma SlabPages(h: Heap, k: nat)
    requires Valid(h) && k < SLAB_COUNT
    ensures |h| == SLAB_COUNT && |h[k].pages| <= SLAB_MAX_PAGE_COUNT && |h[k].free| == Capacity(k, |h[k].pages|)
  {
  }

  /** In every reachable state a size class has at most min(1000, 100 * 4096 / size) live blocks. */
  lemma LiveBound(calls: seq<Call>, k: nat)
    requires Run(Initial, calls) && k < SLAB_COUNT
    ensures var h := Final(Initial, calls);
      Valid(h) && LiveCount(h[k].free) <= Min(SLAB_ENTRY_COUNT, SLAB_MAX_PAGE_COUNT * PerPage(k))
  {
    InitialValid();
    hide DistinctPages, Capacity, Final, Run, Valid;
    RunValid(Initial, calls);
    SlabPages(Final(Initial, calls), k);
    CapacityBound(k, |Final(Initial, calls)[k].pages|);
  }

  /** No two live blocks have a byte in common. */
  ghost predicate BytesApart(h: Heap) {
    forall k: nat, i: nat, l: nat, j: nat :: Live(h, k, i) && Live(h, l, j) && (k != l || i != j) ==> !Share(h, k, i, l, j)
  }

  /** No live block spills over into another. */
  ghost predicate NoSpill(h: Heap) {
    forall k: nat, i: nat, l: nat, j: nat :: Live(h, k, i) && Live(h, l, j) && (k != l || i != j) ==> !Spills(h, k, i, l, j)
  }

  /**
   * In every reachable state the live blocks are apart exactly when no last block of a page is live
   * together with an early enough block in the page that follows.
   */
  lemma BytesApartExact(calls: seq<Call>)
    requires Run(Initial, calls)
    ensures BytesApart(Final(Initial, calls)) <==> NoSpill(Final(Initial, calls))
  {
    InitialValid();
    var h := Final(Initial, calls);
    hide Final, Run, Valid, Share, Spills, EntryOf;
    RunValid(Initial, calls);
    forall k: nat, i: nat, l: nat, j: nat | Live(h, k, i) && Live(h, l, j) && (k != l || i != j)
      ensures Share(h, k, i, l, j) <==> Spills(h, k, i, l, j) || Spills(h, l, j, k, i)
    {
      ShareExact(h, k, i, l, j);
    }
  }

  /** The first malloc of a size class takes a page and hands out its first block. */
  lemma FirstMalloc(h: Heap, k: nat, page: nat)
    requires k < |h| == SLAB_COUNT && h[k] == Slab([], 0, [])
    ensures WellFormed(k, h[k]) && !Exhausted(h[k]) && CountFree(h[k].free) == 0
    ensures Capacity(k, 1) == PerPage(k)
    ensures Malloc(h, k, page) == (0, h[k := Slab(seq(PerPage(k), _ => true)[0 := false], 0, [page])])
  {
    var r := Ready(k, h[k], page);
    var left := seq(PerPage(k), _ => true)[0 := false];
    ReadySlab(k, h[k], page);
    assert Hop(0, 0, |r.free|) == 0 && r.free[0];
    assert Take(r).0 == 0 && Take(r).1.free == left && Take(r).1.pages == [page];
    assert Take(r).1 == Slab(left, 0, [page]);
  }

  /** Two calls are enough: a page-sized block, and a small one from the page that follows. */
  lemma LiveBlocksOverlap(p: nat)
    requires Aligned(p) && 0 < p && p + 2 * PAGE < U32
    ensures var calls := [MallocCall(4096, p), MallocCall(64, p + PAGE)];
      && Run(Initial, calls)
      && Live(Final(Initial, calls), 0, 0) && Live(Final(Initial, calls), 6, 0)
      && Share(Final(Initial, calls), 0, 0, 6, 0)
  {
    hide Malloc, Grow, Exhausted, CountFree, WellFormed, PerPage;
    var calls := [MallocCall(4096, p), MallocCall(64, p + PAGE)];
    FirstMalloc(Initial, 0, p);
    assert Fresh(Initial, p);
    var h := Malloc(Initial, 0, p).1;
    FirstMalloc(h, 6, p + PAGE);
    assert Fresh(h, p + PAGE);
    var g := Malloc(h, 6, p + PAGE).1;
    assert calls[1..] == [calls[1]];
    assert Run(g, []);
    assert Run(h, calls[1..]) && Final(h, calls[1..]) == g;
    assert Addr(0, g[0].pages, 0) == p + PAGE && Addr(6, g[6].pages, 0) == p + PAGE + 64;
  }
}
