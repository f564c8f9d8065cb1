/** Two-level page tables in physical memory, and the identity map the kernel boots with. */
module Vmem {
  import opened Common
  import opened Memory
  import opened Pmem

  const ENTRIES: nat := 1024

  /** x | 7 */
  function Or7(x: u32): u32 {
    x - x % 8 + 7
  }

  function DirectoryIndex(v: u32): (i: nat)
    ensures i < ENTRIES
  {
    v / 0x40_0000
  }

  function TableIndex(v: u32): (i: nat)
    ensures i < ENTRIES
  {
    v / 0x1000 % 0x400
  }

  // ----- translation, on memory as a value ---------------------------------------

  /** What vmem_get_phys_addr returns for v: zero when a level has no entry. */
  function Translate(m: seq<byte>, directory: u32, v: u32): u32
    requires |m| == U32 && directory + PAGE <= U32
  {
    var entry := Word(m, directory + 4 * DirectoryIndex(v));
    if entry == 0 then 0
    else
      var page := Word(m, PageBase(entry) + 4 * TableIndex(v));
      if page == 0 then 0 else (PageBase(page) + v % PAGE) % U32
  }

  /** The identity entry for page j of the t-th table. */
  function IdentityEntry(t: nat, j: nat): u32
    requires t < ENTRIES && j < ENTRIES
  {
    Or7(PageBase(t * 0x40_0000 + j * 0x1000))
  }

  /** The first n entries of the table at `page` map the t-th 4 MiB onto themselves. */
  ghost predicate Filled(m: seq<byte>, page: nat, t: nat, n: nat) {
    && page + PAGE <= |m| && t < ENTRIES && n <= ENTRIES
    && forall j :: 0 <= j < n ==> Word(m, page + 4 * j) == IdentityEntry(t, j)
  }

  ghost predicate DirectoryEntry(m: seq<byte>, directory: nat, tables: seq<nat>, t: int) {
    && 0 <= t < |tables| <= ENTRIES && directory + PAGE <= |m| && tables[t] + 7 < U32
    && Word(m, directory + 4 * t) == Or7(tables[t]) && Aligned(tables[t])
    && Filled(m, tables[t], t, ENTRIES)
  }

  /** The directory points to one filled table per entry. */
  ghost predicate Mapped(m: seq<byte>, directory: nat, tables: seq<nat>) {
    && |tables| <= ENTRIES && directory + PAGE <= |m|
    && forall t :: 0 <= t < |tables| ==> DirectoryEntry(m, directory, tables, t)
  }

  lemma SplitAddress(v: u32)
    ensures DirectoryIndex(v) * 0x40_0000 + TableIndex(v) * 0x1000 + v % PAGE == v
  {
  }

  lemma FlagsDropped(p: u32)
    requires Aligned(p)
    ensures PageBase(p) == p && Or7(p) == p + 7 && PageBase(Or7(p)) == p && Or7(p) != 0
  {
  }

  /** Identity mapping: on a full directory every address translates to itself. */
  lemma IdentityMap(m: seq<byte>, directory: u32, tables: seq<nat>, v: u32)
    requires |m| == U32 && directory + PAGE <= U32 && Mapped(m, directory, tables) && |tables| == ENTRIES
    ensures Translate(m, directory, v) == v
  {
    hide DirectoryIndex, TableIndex, PageBase, Or7, Word;
    var t, j := DirectoryIndex(v), TableIndex(v);
    SplitAddress(v);
    assert DirectoryEntry(m, directory, tables, t);
    FlagsDropped(tables[t]);
    assert Aligned(t * 0x40_0000 + j * 0x1000);
    FlagsDropped(t * 0x40_0000 + j * 0x1000);
    assert Word(m, tables[t] + 4 * j) == IdentityEntry(t, j);
  }

  /** The two words behind address v: the directory's with a table's address and 7, and the table's with the page of v and 7. */
  ghost predicate MapsItself(m: seq<byte>, directory: u32, v: u32)
    requires |m| == U32 && directory + 4096 <= U32
  {
    var entry := Word(m, directory + 4 * (v / 0x40_0000));
    && entry % 4096 == 7 && entry + 4089 <= U32
    && Word(m, entry - 7 + 4 * (v / 0x1000 % 0x400)) == v - v % 0x1000 + 7
  }

  lemma MappedWords(m: seq<byte>, directory: u32, tables: seq<nat>, v: u32)
    requires |m| == U32 && directory + PAGE <= U32 && Mapped(m, directory, tables) && |tables| == ENTRIES
    ensures MapsItself(m, directory, v)
  {
    hide PageBase, Or7, Word;
    var t, j := DirectoryIndex(v), TableIndex(v);
    SplitAddress(v);
    assert DirectoryEntry(m, directory, tables, t);
    FlagsDropped(tables[t]);
    FlagsDropped(t * 0x40_0000 + j * 0x1000);
    assert Word(m, tables[t] + 4 * j) == IdentityEntry(t, j);
  }

  /** Translation, word by word: zero where a level has no entry, the page's address and the offset otherwise. */
  lemma TranslateExact(m: seq<byte>, directory: u32, v: u32)
    requires |m| == U32 && directory + 4096 <= U32
    ensures var entry := Word(m, directory + 4 * (v / 0x40_0000));
      && (entry == 0 ==> Translate(m, directory, v) == 0)
      && (entry != 0 ==>
            && entry - entry % 4096 + 4096 <= U32
            && var page := Word(m, entry - entry % 4096 + 4 * (v / 0x1000 % 0x400));
              Translate(m, directory, v) == if page == 0 then 0 else page - page % 4096 + v % 4096)
  {
    hide Word;
  }

  // ----- frames --------------------------------------------------------------------

  lemma FilledFrame(m: seq<byte>, n: seq<byte>, page: nat, t: nat, k: nat)
    requires Filled(m, page, t, k) && SamePage(m, n, page)
    ensures Filled(n, page, t, k)
  {
  }

  lemma MappedFrame(m: seq<byte>, n: seq<byte>, directory: nat, tables: seq<nat>)
    requires Mapped(m, directory, tables) && SamePage(m, n, directory)
    requires forall t :: 0 <= t < |tables| ==> SamePage(m, n, tables[t])
    ensures Mapped(n, directory, tables)
  {
    forall t | 0 <= t < |tables| ensures DirectoryEntry(n, directory, tables, t) {
      assert DirectoryEntry(m, directory, tables, t);
      FilledFrame(m, n, tables[t], t, ENTRIES);
    }
  }

  lemma PutEntry(m: seq<byte>, page: nat, j: nat, w: u32, t: nat)
    requires page + PAGE <= |m| && j < ENTRIES && t < ENTRIES && Filled(m, page, t, j) && w == IdentityEntry(t, j)
    ensures Filled(PutWord(m, page + 4 * j, w), page, t, j + 1) && OnlyPage(m, PutWord(m, page + 4 * j, w), page)
  {
    var n := PutWord(m, page + 4 * j, w);
    PutWordReads(m, page + 4 * j, w);
    forall i | 0 <= i < j ensures Word(n, page + 4 * i) == IdentityEntry(t, i) {
      assert Word(m, page + 4 * i) == IdentityEntry(t, i);
    }
  }

  lemma PutDirectory(m: seq<byte>, directory: nat, tables: seq<nat>, table: u32)
    requires Mapped(m, directory, tables) && |tables| < ENTRIES && Aligned(directory) && Aligned(table) && table != directory
    requires Filled(m, table, |tables|, 0) && table + 7 < U32
    requires forall t :: 0 <= t < |tables| ==> tables[t] != directory
    ensures var n := PutWord(m, directory + 4 * |tables|, Or7(table));
      Mapped(n, directory, tables) && OnlyPage(m, n, directory) && Word(n, directory + 4 * |tables|) == Or7(table)
  {
    var n := PutWord(m, directory + 4 * |tables|, Or7(table));
    PutWordReads(m, directory + 4 * |tables|, Or7(table));
    forall t | 0 <= t < |tables| ensures DirectoryEntry(n, directory, tables, t) {
      assert DirectoryEntry(m, directory, tables, t);
      OtherPageSame(m, n, directory, tables[t]);
      FilledFrame(m, n, tables[t], t, ENTRIES);
    }
  }

  /** Linking a table into the directory and then filling it extends the map by one table. */
  lemma MapMore(m: seq<byte>, n: seq<byte>, directory: nat, tables: seq<nat>, table: u32)
    requires Mapped(m, directory, tables) && |tables| < ENTRIES && Aligned(directory) && Aligned(table) && table != directory
    requires table + PAGE < U32 == |m|
    requires forall t :: 0 <= t < |tables| ==> tables[t] != directory && tables[t] != table && Aligned(tables[t])
    requires OnlyPage(PutWord(m, directory + 4 * |tables|, Or7(table)), n, table) && Filled(n, table, |tables|, ENTRIES)
    ensures Mapped(n, directory, tables + [table])
  {
    hide IdentityEntry, Word, Or7;
    var k, more := |tables|, tables + [table];
    var mid := PutWord(m, directory + 4 * k, Or7(table));
    PutDirectory(m, directory, tables, table);
    OtherPageSame(mid, n, table, directory);
    forall t | 0 <= t < k ensures SamePage(mid, n, tables[t]) {
      assert DirectoryEntry(mid, directory, tables, t);
      OtherPageSame(mid, n, table, tables[t]);
    }
    MappedFrame(mid, n, directory, tables);
    WordSame(mid, n, directory, directory + 4 * k);
    forall t | 0 <= t < |more| ensures DirectoryEntry(n, directory, more, t) {
      if t < k { assert DirectoryEntry(n, directory, tables, t); }
    }
  }

  lemma WordSame(m: seq<byte>, n: seq<byte>, p: nat, a: nat)
    requires SamePage(m, n, p) && p <= a && a + 4 <= p + PAGE
    ensures Word(m, a) == Word(n, a)
  {
  }

  /** Pages other than the directory and the new table keep their bytes. */
  lemma OthersSame(m: seq<byte>, n: seq<byte>, directory: nat, j: nat, w: u32, table: nat, p: nat)
    requires directory + PAGE <= |m| && j < ENTRIES && p + PAGE <= |m|
    requires Aligned(directory) && Aligned(table) && Aligned(p) && p != directory && p != table
    requires OnlyPage(PutWord(m, directory + 4 * j, w), n, table)
    ensures SamePage(m, n, p)
  {
  }

  class Paging {
    const pmem: PageAllocator
    const ram: array<byte>
    var pageDirectory: u32
    ghost var tables: seq<nat>

    ghost predicate Ready()
      reads this, pmem
    {
      pmem.Valid() && pmem.ram == ram
    }

    /** The pages of the directory and its tables. */
    ghost predicate Owns(p: nat)
      reads this
    {
      p == pageDirectory || p in tables
    }

    ghost predicate OwnsUsed()
      requires pmem.Ready()
      reads this, pmem, pmem.ram
    {
      forall p: nat :: Owns(p) ==> pmem.IsPage(p) && p in pmem.UsedPages()
    }

    /** Paging is on: the directory maps every address onto itself. */
    ghost predicate Valid()
      reads this, ram, pmem, pmem.ram
    {
      && Ready() && pageDirectory != 0 && pageDirectory + PAGE <= U32
      && |tables| == ENTRIES && Mapped(ram[..], pageDirectory, tables) && OwnsUsed()
    }

    lemma Identity(v: u32)
      requires Valid()
      ensures Translate(ram[..], pageDirectory, v) == v
    {
      IdentityMap(ram[..], pageDirectory, tables, v);
    }

    /** Whatever happens to other pages, the map stays. */
    twostate lemma Kept()
      requires old(Valid()) && unchanged(this) && Ready() && OwnsUsed()
      requires forall p: nat :: Owns(p) ==> SamePage(old(ram[..]), ram[..], p)
      ensures Valid()
    {
      MappedFrame(old(ram[..]), ram[..], pageDirectory, tables);
    }

    constructor (pmem: PageAllocator)
      ensures this.pmem == pmem && ram == pmem.ram && pageDirectory == 0
    {
      this.pmem := pmem;
      this.ram := pmem.ram;
      pageDirectory := 0;
      tables := [];
    }

    /** vmem_get_phys_addr */
    method GetPhysAddr(directory: u32, v: u32) returns (r: Result<u32>)
      requires ram.Length == U32 && directory + PAGE <= U32
      ensures r == if directory == 0 then Panic else Ok(Translate(ram[..], directory, v))
      ensures directory != 0 ==> var entry := Word(ram[..], directory + 4 * (v / 0x40_0000));
        && (entry == 0 ==> r == Ok(0))
        && (entry != 0 ==>
              && entry - entry % 4096 + 4096 <= U32
              && var page := Word(ram[..], entry - entry % 4096 + 4 * (v / 0x1000 % 0x400));
                r == Ok(if page == 0 then 0 else page - page % 4096 + v % 4096))
    {
      TranslateExact(ram[..], directory, v);
      var pageDirEntry := v / 0x40_0000;
      var pageTableEntry := v / 0x1000 % 0x400;
      if pageDirEntry > ENTRIES { assert false; }
      if pageTableEntry > ENTRIES { assert false; }
      if directory == 0 { return Panic; }
      var entry := ReadWord(ram, directory + 4 * pageDirEntry);
      if entry == 0 { return Ok(0); }
      var pageTableAddr := PageBase(entry);
      var page := ReadWord(ram, pageTableAddr + 4 * pageTableEntry);
      if page == 0 { return Ok(0); }
      r := Ok((PageBase(page) + v % PAGE) % U32);
    }

    /** vmem_ptable_new: a fresh page, zeroed word by word. */
    method PtableNew() returns (r: Result<u32>)
      requires Ready()
      modifies ram, pmem`currAllocRecord
      ensures Ready()
      ensures r.Ok? ==> pmem.IsPage(r.value) && r.value !in old(pmem.UsedPages())
      ensures r.Ok? ==> pmem.UsedPages() == old(pmem.UsedPages()) + {r.value}
      ensures r.Ok? ==> r.value + PAGE < U32 && forall j :: 0 <= j < ENTRIES ==> Word(ram[..], r.value + 4 * j) == 0
      ensures forall p :: p in old(pmem.UsedPages()) && pmem.IsPage(p) ==> SamePage(old(ram[..]), ram[..], p)
      ensures r.Ok? <==> old(pmem.Available()) > 0
      ensures r.Ok? ==> pmem.Available() == old(pmem.Available()) - 1
    {
      hide PagesOf, Marked, Search, FirstFreeAfter, AvailableIn;
      ghost var m := ram[..];
      var alloc := pmem.Alloc();
      KeptByAlloc(m, ram[..]);
      if alloc.Panic? { return Panic; }
      var ptr := alloc.value;
      if ptr % PAGE != 0 { assert false; }
      pmem.PageInMemory(ptr);
      ghost var n := ram[..];
      ZeroPage(ptr);
      forall p | p in old(pmem.UsedPages()) && pmem.IsPage(p) ensures SamePage(m, ram[..], p) {
        OtherPageSame(n, ram[..], ptr, p);
      }
      r := Ok(ptr);
    }

    /** pmem_alloc writes to the record table only. */
    lemma KeptByAlloc(m: seq<byte>, n: seq<byte>)
      requires pmem.Ready() && |m| == |n| == U32
      requires forall a :: 0 <= a < U32 && !pmem.InTable(a) ==> m[a] == n[a]
      ensures forall p :: pmem.IsPage(p) ==> SamePage(m, n, p)
    {
    }

    method ZeroPage(ptr: nat)
      requires Ready() && pmem.IsPage(ptr) && ptr + PAGE < U32
      modifies ram
      ensures Ready() && pmem.Records() == old(pmem.Records())
      ensures OnlyPage(old(ram[..]), ram[..], ptr)
      ensures forall j :: 0 <= j < ENTRIES ==> Word(ram[..], ptr + 4 * j) == 0
    {
      hide PagesOf, Marked;
      pmem.PageInMemory(ptr);
      ghost var recs := pmem.Records();
      for i := 0 to ENTRIES
        invariant OnlyPage(old(ram[..]), ram[..], ptr)
        invariant forall j :: 0 <= j < i ==> Word(ram[..], ptr + 4 * j) == 0
      {
        PutWordReads(ram[..], ptr + 4 * i, 0);
        WriteWord(ram, ptr + 4 * i, 0);
      }
      assert pmem.Records() == recs;
    }

    /** The inner loop of vmem_init: identity entries for the t-th table. */
    method FillTable(page: nat, t: nat)
      requires Ready() && pmem.IsPage(page) && page + PAGE < U32 && t < ENTRIES
      modifies ram
      ensures Ready() && pmem.Records() == old(pmem.Records())
      ensures OnlyPage(old(ram[..]), ram[..], page) && Filled(ram[..], page, t, ENTRIES)
    {
      hide PagesOf, Marked, IdentityEntry;
      pmem.PageInMemory(page);
      ghost var recs := pmem.Records();
      for j := 0 to ENTRIES
        invariant OnlyPage(old(ram[..]), ram[..], page) && Filled(ram[..], page, t, j)
      {
        PutEntry(ram[..], page, j, IdentityEntry(t, j), t);
        var virtAddrEntry := PageBase(t * 0x40_0000 + j * 0x1000);
        WriteEntry(page + 4 * j, virtAddrEntry, t, j);
      }
      assert pmem.Records() == recs;
    }

    method WriteEntry(a: nat, virtAddrEntry: u32, t: nat, j: nat)
      requires a + 4 <= ram.Length && t < ENTRIES && j < ENTRIES
      requires virtAddrEntry == PageBase(t * 0x40_0000 + j * 0x1000)
      modifies ram
      ensures ram[..] == PutWord(old(ram[..]), a, IdentityEntry(t, j))
    {
      WriteWord(ram, a, Or7(virtAddrEntry));
    }

    /** The directory at base maps the given tables, all allocated since `used`. */
    ghost predicate Building(base: nat, tables: seq<nat>, used: set<nat>, m0: seq<byte>)
      reads this, pmem, ram, pmem.ram
    {
      && Ready() && pmem.IsPage(base) && base + PAGE < U32 && base in pmem.UsedPages() && base !in used
      && used <= pmem.UsedPages()
      && Mapped(ram[..], base, tables)
      && (forall t :: 0 <= t < |tables| ==>
           tables[t] != base && tables[t] !in used && tables[t] in pmem.UsedPages() && pmem.IsPage(tables[t]))
      && (forall p :: p in used && pmem.IsPage(p) ==> SamePage(m0, ram[..], p))
    }

    /** Enter a fresh table in the directory and fill it. */
    method LinkTable(base: nat, i: nat, table: u32)
      requires Ready() && pmem.IsPage(base) && pmem.IsPage(table) && base + PAGE < U32 && table + PAGE < U32 && i < ENTRIES
      modifies ram
      ensures Ready() && pmem.Records() == old(pmem.Records())
      ensures OnlyPage(PutWord(old(ram[..]), base + 4 * i, Or7(table)), ram[..], table) && Filled(ram[..], table, i, ENTRIES)
    {
      hide PagesOf, Marked, Filled, OnlyPage;
      pmem.PageInMemory(base);
      ghost var m, recs := ram[..], pmem.Records();
      WriteWord(ram, base + 4 * i, Or7(table));
      PutWordReads(m, base + 4 * i, Or7(table));
      assert pmem.Records() == recs;
      FillTable(table, i);
    }

    /** One turn of the outer loop of vmem_init. */
    method AddTable(base: nat, ghost tables: seq<nat>, i: nat, ghost used: set<nat>, ghost m0: seq<byte>) returns (r: Result<u32>)
      requires i == |tables| < ENTRIES && Building(base, tables, used, m0)
      modifies ram, pmem`currAllocRecord
      ensures r.Ok? ==> Building(base, tables + [r.value], used, m0)
      ensures r.Ok? <==> old(pmem.Available()) > 0
      ensures r.Ok? ==> pmem.Available() == old(pmem.Available()) - 1
    {
      hide PagesOf, Marked, Search, FirstFreeAfter, AvailableIn, Filled, DirectoryEntry, OnlyPage, Mapped;
      ghost var m := ram[..];
      r := PtableNew();
      if r.Panic? { return; }
      MappedFrame(m, ram[..], base, tables);
      ghost var n := ram[..];
      LinkTable(base, i, r.value);
      MapMore(n, ram[..], base, tables, r.value);
      forall p | p in used && pmem.IsPage(p) ensures SamePage(m0, ram[..], p) {
        pmem.PageInMemory(p);
        OthersSame(n, ram[..], base, i, Or7(r.value), r.value, p);
      }
    }

    /** The outer loop of vmem_init. */
    method AddTables(base: nat, ghost used: set<nat>, ghost m0: seq<byte>) returns (r: Result<()>)
      requires Building(base, [], used, m0)
      modifies `tables, ram, pmem`currAllocRecord
      ensures r.Ok? <==> old(pmem.Available()) >= ENTRIES
      ensures r.Ok? ==> |tables| == ENTRIES && Building(base, tables, used, m0)
      ensures r.Ok? ==> pmem.Available() == old(pmem.Available()) - ENTRIES
    {
      hide PagesOf, Marked, Search, FirstFreeAfter, AvailableIn, Mapped;
      tables := [];
      for i := 0 to ENTRIES
        invariant |tables| == i && Building(base, tables, used, m0)
        invariant pmem.Available() == old(pmem.Available()) - i
      {
        var kernelPt := AddTable(base, tables, i, used, m0);
        if kernelPt.Panic? { return Panic; }
        tables := tables + [kernelPt.value];
      }
      r := Ok(());
    }

    /** vmem_init, up to loading the directory into the processor. */
    method Init() returns (r: Result<()>)
      requires Ready()
      modifies this, ram, pmem`currAllocRecord
      ensures r.Ok? <==> old(pmem.Available()) >= 1 + ENTRIES
      ensures r.Ok? ==> Valid() && forall v: u32 :: Translate(ram[..], pageDirectory, v) == v
      ensures r.Ok? ==> forall v: u32 :: MapsItself(ram[..], pageDirectory, v)
      ensures r.Ok? ==> pmem.Available() == old(pmem.Available()) - (1 + ENTRIES)
      ensures r.Ok? ==> old(pmem.UsedPages()) <= pmem.UsedPages() && forall p: nat :: Owns(p) ==> p !in old(pmem.UsedPages())
      ensures r.Ok? ==> forall p :: p in old(pmem.UsedPages()) && pmem.IsPage(p) ==> SamePage(old(ram[..]), ram[..], p)
    {
      hide PagesOf, Marked, Search, FirstFreeAfter, AvailableIn, Filled, DirectoryEntry, Translate, MapsItself;
      ghost var used, m0 := pmem.UsedPages(), ram[..];
      var base := PtableNew();
      if base.Panic? { return Panic; }
      r := AddTables(base.value, used, m0);
      if r.Panic? { return; }
      pageDirectory := base.value;
      pmem.PageInMemory(pageDirectory);
      forall v: u32 ensures Translate(ram[..], pageDirectory, v) == v && MapsItself(ram[..], pageDirectory, v) {
        Identity(v);
        MappedWords(ram[..], pageDirectory, tables, v);
      }
    }
  }
}
