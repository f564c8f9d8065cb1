/** malloc and free on the static slab structures, taking pages from the page allocator. */
module Malloc {
  import opened Common
  import Pmem
  import opened Slab
  import SlabHeap

  datatype Entry = Entry(memAddr: u32, memFree: bool)

  /** The i-th entry cut from a page: the address is advanced before it is stored. */
  function NewEntry(cPage: nat, i: nat, size: nat): Entry
    requires cPage + (i + 1) * size < U32
  {
    Entry(cPage + (i + 1) * size, true)
  }

  lemma BlockInPage(k: nat, i: nat)
    requires k < SLAB_COUNT && i < PerPage(k)
    ensures (i + 1) * SIZES[k] <= PAGE
  {
  }

  /** How many entries one more page brings. */
  lemma GrowthSize(k: nat, pages: nat)
    requires k < SLAB_COUNT
    ensures PAGE / SIZES[k] == PerPage(k)
    ensures var n := Capacity(k, pages + 1) - Capacity(k, pages);
      && n == Min(PerPage(k), SLAB_ENTRY_COUNT - Capacity(k, pages)) && n * SIZES[k] <= PAGE
      && Capacity(k, pages) <= SLAB_ENTRY_COUNT && (Capacity(k, pages) < SLAB_ENTRY_COUNT ==> Capacity(k, pages) == pages * PerPage(k))
  {
  }

  /** The address of the i-th entry of a new page. */
  lemma AddrNew(k: nat, pages: seq<nat>, page: nat, i: nat)
    requires k < SLAB_COUNT && i < PerPage(k) && Capacity(k, |pages|) + i < Capacity(k, |pages| + 1)
    ensures Addr(k, pages + [page], Capacity(k, |pages|) + i) == page + (i + 1) * SIZES[k]
  {
  }

  /** struct kmemslab */
  class Store {
    const entries: array<Entry>
    const pages: array<u32>
    var freeEntries: nat
    var currentEntry: nat
    var maxEntries: nat
    var currentPage: nat
    ghost const k: nat
    ghost var state: Slab

    ghost predicate StoredAt(j: int)
      reads this, entries
    {
      && 0 <= j < |state.free| && j < entries.Length && k < SLAB_COUNT && j < Capacity(k, |state.pages|)
      && entries[j].memAddr == Addr(k, state.pages, j) && entries[j].memFree == state.free[j]
    }

    /** The structure spells out the slab, except for its count of free entries. */
    ghost predicate Linked()
      reads this, entries, pages
    {
      && entries.Length == SLAB_ENTRY_COUNT && pages.Length == SLAB_MAX_PAGE_COUNT
      && WellFormed(k, state)
      && maxEntries == |state.free|
      && currentEntry == state.current
      && currentPage == |state.pages|
      && (forall a :: 0 <= a < currentPage ==> pages[a] == state.pages[a])
      && (forall j :: 0 <= j < maxEntries ==> StoredAt(j))
    }

    ghost predicate Valid()
      reads this, entries, pages
    {
      Linked() && freeEntries == CountFree(state.free)
    }

    constructor (k: nat)
      requires k < SLAB_COUNT
      ensures Valid() && this.k == k && state == Slab([], 0, [])
      ensures fresh(entries) && fresh(pages)
    {
      this.k := k;
      entries := new Entry[SLAB_ENTRY_COUNT](_ => Entry(0, false));
      pages := new u32[SLAB_MAX_PAGE_COUNT](_ => 0);
      freeEntries, currentEntry, maxEntries, currentPage := 0, 0, 0, 0;
      state := Slab([], 0, []);
    }

    /** The circular scan of malloc. */
    method TakeEntry() returns (addr: u32, ghost i: nat)
      requires Valid() && CountFree(state.free) > 0 && state.current < |state.free|
      modifies this, entries
      ensures Valid() && (i, state) == Take(old(state)) && FirstFreeFrom(old(state).free, old(state).current, i)
      ensures i < |state.free| && addr == Addr(k, state.pages, i)
    {
      hide Addr, Capacity, CountFree;
      ghost var s := state;
      ghost var n, d := |s.free|, 0;
      ScanSucceeds(s.free, s.current);
      var cPtr := currentEntry;
      var again := true;
      while again
        invariant Valid() && state == s && unchanged(this) && unchanged(entries)
        invariant 0 <= d <= n && cPtr == Hop(s.current, d, n) && (again <==> d < n)
        invariant Scan(s.free, s.current, 0) == Scan(s.free, s.current, d)
        decreases n - d
      {
        assert StoredAt(cPtr);
        if entries[cPtr].memFree {
          addr, i := UseEntry(cPtr);
          return;
        }
        HopNext(s.current, d, n);
        cPtr := (cPtr + 1) % maxEntries;
        d := d + 1;
        again := cPtr != currentEntry;
      }
      assert false;
    }

    /** Mark an entry as used and make it the scan start. */
    method UseEntry(cPtr: nat) returns (addr: u32, ghost i: nat)
      requires Valid() && cPtr < |state.free| && state.free[cPtr]
      modifies this, entries
      ensures Valid() && i == cPtr && state == old(state).(free := old(state).free[i := false], current := i)
      ensures k < SLAB_COUNT && i < Capacity(k, |state.pages|) && addr == Addr(k, state.pages, i)
    {
      hide Addr, Capacity;
      i := cPtr;
      assert StoredAt(i);
      CountFreeSet(state.free, i, false);
      entries[cPtr] := entries[cPtr].(memFree := false);
      currentEntry := cPtr;
      freeEntries := freeEntries - 1;
      addr := entries[cPtr].memAddr;
      state := state.(free := state.free[i := false], current := i);
      forall j | 0 <= j < maxEntries ensures StoredAt(j) { assert old(StoredAt(j)); }
    }

    /** Mark an entry as free, which throws the count out when it already was. */
    method ReleaseEntry(j: nat)
      requires Valid() && j < |state.free|
      modifies this, entries
      ensures Linked() && state == Release(old(state), j) && freeEntries == old(freeEntries) + 1
      ensures Valid() <==> !old(state).free[j]
    {
      hide Addr, Capacity;
      assert StoredAt(j);
      if state.free[j] {
        assert state.free[j := true] == state.free;
      } else {
        CountFreeSet(state.free, j, true);
      }
      entries[j] := entries[j].(memFree := true);
      currentEntry := j;
      freeEntries := freeEntries + 1;
      state := Release(state, j);
      forall l | 0 <= l < maxEntries ensures StoredAt(l) { assert old(StoredAt(l)); }
    }

    /** free_ptr_slab: scan from the last entry down; nothing checks that the entry found is in use. */
    method FreePtrSlab(ptr: u32) returns (freed: bool, ghost i: nat)
      requires Valid()
      modifies this, entries
      ensures freed <==> exists j :: 0 <= j < |old(state).free| && Addr(k, old(state).pages, j) == ptr
      ensures freed ==> i < |old(state).free| && Addr(k, old(state).pages, i) == ptr && state == Release(old(state), i)
      ensures freed ==> Linked() && freeEntries == old(freeEntries) + 1 && (Valid() <==> !old(state).free[i])
      ensures !freed ==> Valid() && state == old(state) && entries[..] == old(entries[..])
    {
      i := 0;
      var j := maxEntries - 1;
      while j >= 0
        invariant -1 <= j < maxEntries
        invariant forall l :: j < l < maxEntries ==> Addr(k, state.pages, l) != ptr
      {
        assert StoredAt(j);
        if entries[j].memAddr == ptr {
          ReleaseEntry(j);
          return true, j;
        }
        j := j - 1;
      }
      freed := false;
    }

    /** The loop of alloc_new_page_if_needed: cut the page into entries. */
    method AddEntries(cPage: u32, additional: nat, size: nat) returns (cAddr: u32)
      requires entries.Length == SLAB_ENTRY_COUNT && k < SLAB_COUNT && size == SIZES[k] && additional <= PerPage(k)
      requires maxEntries + additional <= SLAB_ENTRY_COUNT && cPage + PAGE < U32
      modifies `maxEntries, `freeEntries, entries
      ensures maxEntries == old(maxEntries) + additional && freeEntries == old(freeEntries) + additional
      ensures forall j :: 0 <= j < old(maxEntries) ==> entries[j] == old(entries[j])
      ensures forall i :: 0 <= i < additional ==> entries[old(maxEntries) + i] == NewEntry(cPage, i, size)
      ensures cAddr == (cPage + additional * size) % U32
    {
      cAddr := cPage;
      for i := 0 to additional
        invariant maxEntries == old(maxEntries) + i && freeEntries == old(freeEntries) + i
        invariant forall j :: 0 <= j < old(maxEntries) ==> entries[j] == old(entries[j])
        invariant forall l :: 0 <= l < i ==> entries[old(maxEntries) + l] == NewEntry(cPage, l, size)
        invariant cAddr == cPage + i * size
      {
        BlockInPage(k, i);
        cAddr := (cAddr + size) % U32;
        entries[maxEntries] := entries[maxEntries].(memFree := true);
        entries[maxEntries] := entries[maxEntries].(memAddr := cAddr);
        maxEntries := maxEntries + 1;
        freeEntries := freeEntries + 1;
      }
    }

    /** The entries written and the page noted are those of the grown slab. */
    ghost method TakeIn(s: Slab, page: nat, size: nat)
      requires WellFormed(k, s) && CountFree(s.free) == 0 && |s.free| < SLAB_ENTRY_COUNT && |s.pages| < SLAB_MAX_PAGE_COUNT
      requires state == s && size == SIZES[k] && page + PAGE < U32
      requires entries.Length == SLAB_ENTRY_COUNT && pages.Length == SLAB_MAX_PAGE_COUNT
      requires currentPage == |s.pages| + 1 && currentEntry == s.current
      requires maxEntries == freeEntries + |s.free| == Capacity(k, |s.pages| + 1)
      requires forall a :: 0 <= a < currentPage ==> pages[a] == (s.pages + [page])[a]
      requires forall j :: 0 <= j < |s.free| ==> StoredAt(j)
      requires forall i :: 0 <= i < freeEntries && page + (i + 1) * size < U32 ==> entries[|s.free| + i] == NewEntry(page, i, size)
      modifies `state
      ensures Valid() && state == Grow(k, s, page)
    {
      hide Capacity, Addr, CountFree, PerPage;
      GrowthSize(k, |s.pages|);
      CountFreeMore(s.free, freeEntries);
      state := Grow(k, s, page);
      forall j | 0 <= j < maxEntries ensures StoredAt(j) {
        if j < |s.free| {
          assert old(StoredAt(j));
          SlabHeap.AddrKept(k, s.pages, page, j);
        } else {
          BlockInPage(k, j - |s.free|);
          AddrNew(k, s.pages, page, j - |s.free|);
          assert entries[|s.free| + (j - |s.free|)] == NewEntry(page, j - |s.free|, size);
        }
      }
    }

    /** A page has been taken and noted, but not yet cut into entries. */
    ghost predicate Noted(page: nat)
      reads this, entries, pages
    {
      && entries.Length == SLAB_ENTRY_COUNT && pages.Length == SLAB_MAX_PAGE_COUNT
      && WellFormed(k, state) && CountFree(state.free) == 0 && !Exhausted(state)
      && maxEntries == |state.free| && freeEntries == 0 && currentEntry == state.current
      && currentPage == |state.pages| + 1 <= SLAB_MAX_PAGE_COUNT
      && (forall a :: 0 <= a < currentPage ==> pages[a] == (state.pages + [page])[a])
      && (forall j :: 0 <= j < maxEntries ==> StoredAt(j))
    }

    /** Cut the page just taken into entries. */
    method CutPage(size: nat, page: u32, additional: nat) returns (r: Result<()>)
      requires Noted(page) && size == SIZES[k] && page + PAGE < U32
      requires additional == Capacity(k, |state.pages| + 1) - Capacity(k, |state.pages|)
      modifies this, entries
      ensures r.Ok? ==> Valid() && state == Grow(k, old(state), page)
      ensures r.Ok? <==> page + additional * size + PAGE < U32
    {
      hide Capacity, CountFree, Grow, Addr, PerPage;
      ghost var s := state;
      GrowthSize(k, |state.pages|);
      var cAddr := AddEntries(page, additional, size);
      forall j | 0 <= j < |state.free| ensures StoredAt(j) { assert old(StoredAt(j)); }
      TakeIn(s, page, size);
      r := CheckGrowth(cAddr);
    }

    /** The last two tests of alloc_new_page_if_needed. */
    method CheckGrowth(cAddr: u32) returns (r: Result<()>)
      requires maxEntries <= SLAB_ENTRY_COUNT
      ensures r.Ok? <==> cAddr + PAGE < U32
    {
      if maxEntries > SLAB_ENTRY_COUNT { assert false; }
      if cAddr > (cAddr + PAGE) % U32 { return Panic; }
      r := Ok(());
    }

    lemma AllocFails(pmem: Pmem.PageAllocator)
      requires pmem.Valid()
      ensures pmem.Available() > 0 <==> pmem.NextPage().Some?
    {
      Pmem.TakeOne(pmem.Records(), pmem.currAllocRecord);
    }

    /** The part of alloc_new_page_if_needed that takes a page and cuts it up. */
    method TakePage(size: nat, pmem: Pmem.PageAllocator, additional: nat) returns (r: Result<()>, ghost page: nat)
      requires Valid() && k < SLAB_COUNT && size == SIZES[k] && CountFree(state.free) == 0 && !Exhausted(state)
      requires additional == Capacity(k, |state.pages| + 1) - Capacity(k, |state.pages|)
      requires pmem.Valid() && pages as object != pmem.ram
      modifies this, entries, pages, pmem.ram, pmem`currAllocRecord
      ensures pmem.Valid() && pmem.OnlyTable()
      ensures r.Ok? ==> Valid() && state == Grow(k, old(state), page)
      ensures r.Ok? ==> pmem.IsPage(page) && page !in old(pmem.UsedPages())
      ensures r.Ok? ==> pmem.UsedPages() == old(pmem.UsedPages()) + {page} && pmem.Took(page)
      ensures r.Ok? <==> CanGrow(k, |old(state).pages|, old(pmem.NextPage()))
    {
      hide Pmem.PagesOf, Pmem.Search, Pmem.AvailableIn, Pmem.PageAllocator.NextPage, Capacity, CountFree, Grow, Addr;
      page := 0;
      AllocFails(pmem);
      var alloc := pmem.Alloc();
      if alloc.Panic? { r := Panic; return; }
      page := alloc.value;
      pmem.PageInMemory(page);
      pages[currentPage] := alloc.value;
      currentPage := currentPage + 1;
      forall j | 0 <= j < |state.free| ensures StoredAt(j) { assert old(StoredAt(j)); }
      r := CutPage(size, alloc.value, additional);
    }

    /** alloc_new_page_if_needed; page is the page taken, if any. */
    method AllocNewPageIfNeeded(size: nat, pmem: Pmem.PageAllocator) returns (r: Result<()>, ghost page: nat)
      requires Valid() && k < SLAB_COUNT && size == SIZES[k]
      requires pmem.Valid() && pages as object != pmem.ram
      modifies this, entries, pages, pmem.ram, pmem`currAllocRecord
      ensures pmem.Valid() && pmem.OnlyTable()
      ensures var grows := NeedsPage(old(state));
        && (!grows ==> r.Ok? && state == old(state) && pmem.UsedPages() == old(pmem.UsedPages()))
        && (grows && r.Ok? ==> state == Grow(k, old(state), page))
        && (grows && r.Ok? ==> pmem.IsPage(page) && page !in old(pmem.UsedPages()))
        && (grows && r.Ok? ==> pmem.UsedPages() == old(pmem.UsedPages()) + {page} && pmem.Took(page))
        && (r.Ok? ==> Valid())
        && (r.Ok? <==> !grows || CanGrow(k, |old(state).pages|, old(pmem.NextPage())))
    {
      hide Pmem.PagesOf, Pmem.Search, Pmem.PageAllocator.NextPage, CanGrow, Capacity, CountFree, Grow, Addr, PerPage;
      page := 0;
      if freeEntries > 0 { r := Ok(()); return; }
      var additional: int := PAGE / size;
      var newMaxEntries := maxEntries + additional;
      if newMaxEntries > SLAB_ENTRY_COUNT {
        additional := SLAB_ENTRY_COUNT - maxEntries;
        newMaxEntries := SLAB_ENTRY_COUNT;
      }
      GrowthSize(k, |state.pages|);
      if additional * size > PAGE { assert false; }
      if additional <= 0 { r := Ok(()); return; }
      if currentPage == SLAB_MAX_PAGE_COUNT { r := Ok(()); return; }
      r, page := TakePage(size, pmem, additional);
    }
  }

  ghost predicate Apart(s: Store, pmem: Pmem.PageAllocator) {
    s.pages as object != pmem.ram && s.entries as object != pmem.ram
  }

  ghost predicate Disjoint(s: Store, t: Store) {
    s != t && s.entries != t.entries && s.pages != t.pages
  }

  /** The static array of slabs with the page allocator behind it. */
  class KernelHeap {
    const pmem: Pmem.PageAllocator
    const slabs: seq<Store>

    ghost function State(): seq<Slab>
      reads slabs
    {
      seq(|slabs|, k requires 0 <= k < |slabs| reads slabs => slabs[k].state)
    }

    /** The slabs and their arrays are different objects. */
    ghost predicate Separate()
    {
      && |slabs| == SLAB_COUNT
      && (forall k :: 0 <= k < SLAB_COUNT ==> slabs[k].k == k && Apart(slabs[k], pmem))
      && (forall k, l :: 0 <= k < l < SLAB_COUNT ==> Disjoint(slabs[k], slabs[l]))
    }

    ghost predicate StoreValid(k: int)
      reads slabs, set s | s in slabs :: s.entries, set s | s in slabs :: s.pages
    {
      0 <= k < |slabs| && slabs[k].Valid()
    }

    ghost predicate Valid()
      reads pmem, pmem.ram, slabs, set s | s in slabs :: s.entries, set s | s in slabs :: s.pages
    {
      && pmem.Valid() && Separate()
      && (forall k :: 0 <= k < SLAB_COUNT ==> StoreValid(k))
      && SlabHeap.Valid(State()) && SlabHeap.PagesIn(State(), pmem.UsedPages())
    }

    /** Over the zeroed static slabs. */
    constructor (pmem: Pmem.PageAllocator, slabs: seq<Store>)
      requires pmem.Valid() && |slabs| == SLAB_COUNT
      requires forall k :: 0 <= k < SLAB_COUNT ==>
        slabs[k].Valid() && slabs[k].k == k && slabs[k].state == Slab([], 0, []) && Apart(slabs[k], pmem)
      requires forall k, l :: 0 <= k < l < SLAB_COUNT ==> Disjoint(slabs[k], slabs[l])
      ensures Valid() && this.pmem == pmem && this.slabs == slabs && State() == SlabHeap.Initial
    {
      this.pmem := pmem;
      this.slabs := slabs;
      new;
      SlabHeap.InitialValid();
      assert State() == SlabHeap.Initial;
      assert forall k, a :: !SlabHeap.PageAt(State(), k, a);
    }

    lemma StateValid()
      requires Valid()
      ensures SlabHeap.Valid(State())
    {
    }

    /** The heap depends on memory only through the pages in use. */
    twostate lemma Kept()
      requires old(Valid()) && pmem.Grown()
      requires forall k :: 0 <= k < SLAB_COUNT ==>
        unchanged(slabs[k]) && unchanged(slabs[k].entries) && unchanged(slabs[k].pages)
      ensures Valid() && State() == old(State())
    {
      hide SlabHeap.Valid, Pmem.PagesOf;
      assert State() == old(State());
      forall k | 0 <= k < SLAB_COUNT ensures StoreValid(k) {
        assert old(StoreValid(k));
      }
    }

    /** The loop of malloc that picks the last slab the size fits. */
    static method PickClass(size: u32) returns (k: nat, cSize: nat)
      ensures k == SlabHeap.ClassOf(size)
      ensures k < SLAB_COUNT ==> cSize == SIZES[k]
    {
      k, cSize := SLAB_COUNT, 0;
      var currentSize := PAGE;
      for i := 0 to SLAB_COUNT
        invariant i < SLAB_COUNT ==> currentSize == SIZES[i]
        invariant k == SLAB_COUNT ==> cSize == 0 && (i > 0 ==> size > SIZES[0])
        invariant k < SLAB_COUNT ==> k < i && cSize == SIZES[k] && size <= SIZES[k] && (k + 1 < i ==> size > SIZES[k + 1])
        invariant k <= SLAB_COUNT
      {
        if size <= currentSize {
          cSize := currentSize;
          k := i;
        }
        currentSize := currentSize / 2;
      }
    }

    /** Only slab k changed between two states. */
    twostate lemma OthersKept(k: nat)
      requires old(Valid()) && k < SLAB_COUNT
      requires forall l :: 0 <= l < SLAB_COUNT && l != k ==>
        unchanged(slabs[l]) && unchanged(slabs[l].entries) && unchanged(slabs[l].pages)
      ensures State() == old(State())[k := slabs[k].state]
      ensures forall l :: 0 <= l < SLAB_COUNT && l != k ==> StoreValid(l)
    {
      forall l | 0 <= l < SLAB_COUNT && l != k ensures StoreValid(l) {
        assert old(StoreValid(l));
      }
    }

    /** The pages in use are those in use before, and the given one, not in use before, if it was taken. */
    ghost predicate TakesPage(used: set<nat>, taken: bool, page: nat)
      requires pmem.Valid()
      reads pmem, pmem.ram
    {
      if taken then page !in used && pmem.UsedPages() == used + {page} else pmem.UsedPages() == used
    }

    /** Give slab k a page if it has no free entry. */
    method Prepare(k: nat, cSize: nat) returns (r: Result<()>, ghost page: nat)
      requires Valid() && k < SLAB_COUNT && cSize == SIZES[k]
      modifies slabs[k], slabs[k].entries, slabs[k].pages, pmem.ram, pmem`currAllocRecord
      ensures pmem.OnlyTable() && (r.Ok? ==> Valid())
      ensures r.Ok? ==> TakesPage(old(pmem.UsedPages()), NeedsPage(old(State())[k]), page)
      ensures r.Ok? && NeedsPage(old(State())[k]) ==> pmem.Took(page)
      ensures r.Ok? <==> !NeedsPage(old(State())[k]) || CanGrow(k, |old(State())[k].pages|, old(pmem.NextPage()))
      ensures r.Ok? && Exhausted(old(State())[k]) ==> State() == old(State())
      ensures r.Ok? && !Exhausted(old(State())[k]) ==> SlabHeap.Offers(old(State()), k, page)
      ensures r.Ok? && !Exhausted(old(State())[k]) ==> State() == old(State())[k := SlabHeap.Ready(k, old(State())[k], page)]
    {
      hide Exhausted, Grow, CountFree, CanGrow, Pmem.PagesOf, Pmem.PageAllocator.NextPage, SlabHeap.Valid, SlabHeap.PagesIn, SlabHeap.Fresh, Store.Valid;
      ghost var h, used := State(), pmem.UsedPages();
      assert StoreValid(k);
      r, page := slabs[k].AllocNewPageIfNeeded(cSize, pmem);
      if r.Panic? { return; }
      OthersKept(k);
      assert h[k := h[k]] == h;
      if CountFree(h[k].free) == 0 && !Exhausted(h[k]) {
        pmem.PageInMemory(page);
        SlabHeap.GrowValid(h, k, page, used);
      }
    }

    /** Take an entry of slab k. */
    method TakeFrom(k: nat) returns (addr: u32, ghost i: nat)
      requires Valid() && k < SLAB_COUNT && CountFree(State()[k].free) > 0 && State()[k].current < |State()[k].free|
      modifies slabs[k], slabs[k].entries
      ensures Valid()
      ensures i == Take(old(State())[k]).0 && State() == old(State())[k := Take(old(State())[k]).1]
      ensures SlabHeap.EntryOf(State(), k, i) && addr == Addr(k, State()[k].pages, i)
    {
      hide Take, CountFree, Pmem.PagesOf, SlabHeap.Valid, SlabHeap.PagesIn;
      ghost var h := State();
      assert StoreValid(k);
      addr, i := slabs[k].TakeEntry();
      OthersKept(k);
      SlabHeap.TakeValid(h, k, pmem.UsedPages());
    }

    /** The rest of malloc once the slab is chosen. */
    method MallocFrom(k: nat, cSize: nat) returns (r: Result<u32>, ghost i: nat, ghost page: nat)
      requires Valid() && k < SLAB_COUNT && cSize == SIZES[k]
      modifies slabs[k], slabs[k].entries, slabs[k].pages, pmem.ram, pmem`currAllocRecord
      ensures pmem.OnlyTable()
      ensures r.Ok? <==> Serves(k, old(State())[k], old(pmem.NextPage()))
      ensures r.Ok? ==> Valid() && !Exhausted(old(State())[k]) && SlabHeap.Offers(old(State()), k, page)
      ensures r.Ok? ==> TakesPage(old(pmem.UsedPages()), NeedsPage(old(State())[k]), page)
      ensures r.Ok? && NeedsPage(old(State())[k]) ==> pmem.Took(page)
      ensures r.Ok? ==> (i, State()) == SlabHeap.Malloc(old(State()), k, page)
      ensures r.Ok? ==> SlabHeap.Served(k, old(State())[k], State()[k], i, page)
      ensures r.Ok? ==> SlabHeap.EntryOf(State(), k, i) && r.value == Addr(k, State()[k].pages, i)
    {
      hide Pmem.PageAllocator.UsedPages, Pmem.PageAllocator.NextPage, Store.Valid, CanGrow;
      hide Exhausted, CountFree, SlabHeap.PagesIn, SlabHeap.Offers, Take, SlabHeap.DistinctPages, SlabHeap.Served, Addr, Capacity;
      i, page := 0, 0;
      ghost var h := State();
      var grown;
      grown, page := Prepare(k, cSize);
      if grown.Panic? { r := Panic; return; }
      var free := FreeEntries(k);
      NoneFree(h[k]);
      if !Exhausted(h[k]) { SlabHeap.ReadySlab(k, h[k], page); }
      if free <= 0 { r := Panic; return; }
      var addr;
      addr, i := TakeFrom(k);
      ghost var s := SlabHeap.Ready(k, h[k], page);
      assert h[k := s][k := Take(s).1] == h[k := Take(s).1];
      SlabHeap.MallocServes(h, k, page);
      r := Ok(addr);
    }

    /** malloc; i and page are the entry handed out and the page taken, if any. */
    method Malloc(size: u32) returns (r: Result<u32>, ghost i: nat, ghost page: nat)
      requires Valid()
      modifies slabs, set s | s in slabs :: s.entries, set s | s in slabs :: s.pages, pmem.ram, pmem`currAllocRecord
      ensures pmem.OnlyTable() && (r.Ok? ==> pmem.Grown())
      ensures var k := SlabHeap.ClassOf(size);
        && (r.Ok? <==> k < SLAB_COUNT && Serves(k, old(State())[k], old(pmem.NextPage())))
        && (r.Ok? && NeedsPage(old(State())[k]) ==> pmem.Took(page))
      ensures r.Ok? ==> Valid() && size <= 4096 && SlabHeap.Allowed(old(State()), SlabHeap.MallocCall(size, page))
      ensures r.Ok? ==> TakesPage(old(pmem.UsedPages()), NeedsPage(old(State())[SlabHeap.ClassOf(size)]), page)
      ensures r.Ok? ==> (i, State()) == SlabHeap.Malloc(old(State()), SlabHeap.ClassOf(size), page)
      ensures r.Ok? ==> var k := SlabHeap.ClassOf(size);
        && SlabHeap.Served(k, old(State())[k], State()[k], i, page)
        && SlabHeap.EntryOf(State(), k, i) && r.value == Addr(k, State()[k].pages, i)
    {
      hide Pmem.PageAllocator.UsedPages, Pmem.PageAllocator.NextPage, Store.Valid, Serves, NeedsPage, SlabHeap.Served;
      hide Exhausted, CountFree, SlabHeap.PagesIn, SlabHeap.Offers, SlabHeap.Malloc, SlabHeap.DistinctPages, SlabHeap.EntryOf, Addr, Capacity;
      i, page := 0, 0;
      var k, cSize := PickClass(size);
      if k == SLAB_COUNT { r := Panic; return; }
      r, i, page := MallocFrom(k, cSize);
    }

    lemma NoneFree(s: Slab)
      ensures Exhausted(s) ==> CountFree(s.free) == 0
    {
    }

    method FreeEntries(k: nat) returns (n: nat)
      requires Valid() && k < SLAB_COUNT
      ensures n == CountFree(State()[k].free)
    {
      assert StoreValid(k);
      n := slabs[k].freeEntries;
    }

    /** An entry of slab l has this address. */
    ghost predicate HasAddress(h: seq<Slab>, l: nat, ptr: nat) {
      exists j: nat :: SlabHeap.EntryOf(h, l, j) && Addr(l, h[l].pages, j) == ptr
    }

    /**
     * free: the slabs are searched in order, by address only.  The call panics when no entry has
     * the address, releases the block itself when the address is that of a live one, and keeps the
     * structures in step exactly in that case.
     */
    method Free(ptr: u32) returns (r: Result<()>, ghost k: nat, ghost i: nat)
      requires Valid()
      modifies slabs, set s | s in slabs :: s.entries
      ensures r.Ok? <==> exists l: nat :: HasAddress(old(State()), l, ptr)
      ensures r.Panic? ==> Valid() && State() == old(State())
      ensures r.Ok? ==> SlabHeap.EntryOf(old(State()), k, i) && Addr(k, old(State())[k].pages, i) == ptr
      ensures r.Ok? ==> State() == SlabHeap.Free(old(State()), k, i)
      ensures r.Ok? ==> (Valid() <==> SlabHeap.Live(old(State()), k, i))
      ensures forall l: nat, j: nat :: SlabHeap.Live(old(State()), l, j) && Addr(l, old(State())[l].pages, j) == ptr ==>
        r.Ok? && l == k && j == i
    {
      hide CountFree, Pmem.PagesOf, SlabHeap.PagesIn, Store.Valid, Store.Linked, SlabHeap.DistinctPages, SlabHeap.Valid, Capacity, SlabHeap.Live, HasAddress;
      k, i := 0, 0;
      for l := 0 to SLAB_COUNT
        invariant Valid() && State() == old(State())
        invariant forall j: nat :: j < l ==> !HasAddress(old(State()), j, ptr)
      {
        var freed;
        freed, i := FreeIn(l, ptr);
        if freed {
          k := l;
          LiveFound(old(State()), ptr, k, i);
          return Ok(()), k, i;
        }
      }
      NoSlab(State(), ptr);
      r := Panic;
    }

    lemma NoSlab(h: seq<Slab>, ptr: nat)
      ensures forall l: nat :: HasAddress(h, l, ptr) ==> l < SLAB_COUNT
      ensures forall l: nat, j: nat :: SlabHeap.Live(h, l, j) && Addr(l, h[l].pages, j) == ptr ==> HasAddress(h, l, ptr)
    {
    }

    /** For the address of a live block the search finds that block. */
    lemma LiveFound(h: seq<Slab>, ptr: nat, k: nat, i: nat)
      requires SlabHeap.Valid(h) && SlabHeap.EntryOf(h, k, i) && Addr(k, h[k].pages, i) == ptr
      ensures forall l: nat, j: nat :: SlabHeap.Live(h, l, j) && Addr(l, h[l].pages, j) == ptr ==> l == k && j == i
    {
      forall l: nat, j: nat | SlabHeap.Live(h, l, j) && Addr(l, h[l].pages, j) == ptr ensures l == k && j == i {
        SlabHeap.AddrUnique(h, l, j, k, i);
      }
    }

    /** One turn of the search. */
    method FreeIn(l: nat, ptr: u32) returns (freed: bool, ghost i: nat)
      requires Valid() && l < SLAB_COUNT
      modifies slabs[l], slabs[l].entries
      ensures freed <==> HasAddress(old(State()), l, ptr)
      ensures !freed ==> Valid() && State() == old(State())
      ensures freed ==> SlabHeap.EntryOf(old(State()), l, i) && Addr(l, old(State())[l].pages, i) == ptr
      ensures freed ==> State() == SlabHeap.Free(old(State()), l, i)
      ensures freed ==> (Valid() <==> SlabHeap.Live(old(State()), l, i))
    {
      hide CountFree, Pmem.PagesOf, SlabHeap.PagesIn, SlabHeap.DistinctPages, SlabHeap.Valid;
      ghost var h := State();
      assert StoreValid(l);
      freed, i := slabs[l].FreePtrSlab(ptr);
      OthersKept(l);
      assert h[l := h[l]] == h;
      if freed && !h[l].free[i] { SlabHeap.FreeValid(h, l, i, pmem.UsedPages()); }
      assert !slabs[l].Valid() ==> !StoreValid(l);
    }
  }
}
