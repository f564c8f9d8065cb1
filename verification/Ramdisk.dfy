/**
 * The ramdisk: pages scattered over physical memory, found through one page of
 * pointers, behaving as one flat array of bytes.
 */
module Ramdisk {
  import opened Common
  import opened Memory
  import opened Pmem

  const MAX_BLOCKS := 1024
  const OUT_OF_BOUNDS := 1
  const OVERFLOW := 2

  // ----- the flat view, on memory as a value ------------------------------------

  ghost predicate HoldsAt(m: seq<byte>, pages: seq<nat>, flat: seq<byte>, a: int) {
    && 0 <= a < |flat| && a / PAGE < |pages|
    && pages[a / PAGE] + a % PAGE < |m| && m[pages[a / PAGE] + a % PAGE] == flat[a]
  }

  /** flat is what memory m holds in the given pages, in order. */
  ghost predicate FlatOf(m: seq<byte>, pages: seq<nat>, flat: seq<byte>) {
    |flat| == |pages| * PAGE && forall a :: 0 <= a < |flat| ==> HoldsAt(m, pages, flat, a)
  }

  /** The page at base holds the addresses of the given pages. */
  ghost predicate Pointers(m: seq<byte>, base: nat, pages: seq<nat>) {
    && |pages| <= MAX_BLOCKS && base + PAGE <= |m|
    && forall b :: 0 <= b < |pages| ==> Word(m, base + 4 * b) == pages[b]
  }

  ghost predicate Distinct(pages: seq<nat>) {
    && (forall b :: 0 <= b < |pages| ==> Aligned(pages[b]))
    && forall b, c :: 0 <= b < c < |pages| ==> pages[b] != pages[c]
  }

  lemma PokeFlat(m: seq<byte>, pages: seq<nat>, flat: seq<byte>, addr: nat, v: byte)
    requires FlatOf(m, pages, flat) && Distinct(pages) && addr < |flat|
    ensures HoldsAt(m, pages, flat, addr)
    ensures FlatOf(m[pages[addr / PAGE] + addr % PAGE := v], pages, flat[addr := v])
  {
    assert HoldsAt(m, pages, flat, addr);
    var p := pages[addr / PAGE] + addr % PAGE;
    var n, g := m[p := v], flat[addr := v];
    forall a | 0 <= a < |g| ensures HoldsAt(n, pages, g, a) {
      assert HoldsAt(m, pages, flat, a);
      if a / PAGE != addr / PAGE { PagesApart(pages[a / PAGE], pages[addr / PAGE], a % PAGE); }
    }
  }

  lemma PokePointers(m: seq<byte>, base: nat, pages: seq<nat>, p: nat, v: byte)
    requires Pointers(m, base, pages) && p < |m| && !(base <= p < base + PAGE)
    ensures Pointers(m[p := v], base, pages)
  {
  }

  ghost function PageSet(pages: seq<nat>): (r: set<nat>)
    ensures forall p :: p in r <==> p in pages
  {
    if pages == [] then {} else PageSet(pages[..|pages| - 1]) + {pages[|pages| - 1]}
  }

  lemma OwnedFirst(first: nat)
    ensures PageSet([first]) == {first}
  {
  }

  lemma OwnedMore(pages: seq<nat>, p: nat, first: nat)
    ensures PageSet(pages + [p] + [first]) == PageSet(pages + [first]) + {p}
  {
  }

  /** What memory holds in the given pages. */
  ghost function Gather(m: seq<byte>, pages: seq<nat>): (r: seq<byte>)
    requires forall b :: 0 <= b < |pages| ==> pages[b] + PAGE <= |m|
    ensures FlatOf(m, pages, r)
  {
    seq(|pages| * PAGE, a requires 0 <= a < |pages| * PAGE => m[pages[a / PAGE] + a % PAGE])
  }

  lemma PointersFrame(m: seq<byte>, n: seq<byte>, base: nat, pages: seq<nat>)
    requires Pointers(m, base, pages) && |m| == |n| && forall k :: base <= k < base + PAGE ==> m[k] == n[k]
    ensures Pointers(n, base, pages)
  {
  }

  // ----- transfers ---------------------------------------------------------------

  /** s with the bytes from `start` on replaced by d. */
  function Splice(s: seq<byte>, start: nat, d: seq<byte>): (r: seq<byte>)
    requires start + |d| <= |s|
    ensures |r| == |s|
  {
    s[..start] + d + s[start + |d|..]
  }

  lemma SpliceNone(s: seq<byte>, start: nat, d: seq<byte>)
    requires start <= |s| && d == []
    ensures Splice(s, start, d) == s
  {
  }

  lemma SpliceMore(s: seq<byte>, start: nat, d: seq<byte>, off: nat, i: nat)
    requires start + i < |s| && off + i < |d|
    ensures Splice(s, start, d[off..off + i])[start + i := d[off + i]] == Splice(s, start, d[off..off + i + 1])
  {
  }

  /** The return code of a transfer; the first test is made on a sum that may wrap. */
  function IoCode(start: u32, size: u32, capacity: nat): nat {
    if (start + size) % U32 > capacity then OUT_OF_BOUNDS
    else if start > U32 - 1 - size then OVERFLOW
    else 0
  }

  /** The wrapped test notwithstanding, 0 means that the true end of the transfer is inside the disk. */
  lemma IoCodeExact(start: u32, size: u32, capacity: nat)
    requires capacity <= MAX_BLOCKS * PAGE
    ensures IoCode(start, size, capacity) == 0 <==> start + size <= capacity
  {
  }

  class Disk {
    const pmem: PageAllocator
    const ram: array<byte>
    var blockSize: u32
    var blockPointers: u32
    ghost var pages: seq<nat>
    ghost var flat: seq<byte>

    /** The pointer page and the block pages are allocated and all different. */
    ghost predicate OwnsPages()
      requires pmem.Ready()
      reads this, pmem, pmem.ram
    {
      && blockPointers in pmem.UsedPages() && pmem.IsPage(blockPointers)
      && Distinct(pages)
      && forall b :: 0 <= b < |pages| ==>
        pages[b] in pmem.UsedPages() && pmem.IsPage(pages[b]) && pages[b] != blockPointers
    }

    ghost predicate Valid()
      reads this, ram, pmem, pmem.ram
    {
      && pmem.Valid() && pmem.ram == ram
      && |pages| == blockSize <= MAX_BLOCKS && |flat| == blockSize * PAGE
      && FlatOf(ram[..], pages, flat)
      && if blockSize == 0 then blockPointers == 0 else OwnsPages() && Pointers(ram[..], blockPointers, pages)
    }

    lemma Sizes()
      requires Valid()
      ensures |flat| == blockSize * PAGE && blockSize <= MAX_BLOCKS
      ensures pmem.Valid() && pmem.ram == ram && ram.Length == U32
    {
    }

    /** Address a lies in one of the block pages. */
    ghost predicate InBlocks(a: nat)
      reads `pages
    {
      a - a % PAGE in pages
    }

    /** Nothing in memory but the block pages has changed: no other page, nor the record table, nor the pointers. */
    twostate predicate OnlyBlocks()
      reads this, ram
    {
      forall a: nat :: a < ram.Length && !InBlocks(a) ==> ram[a] == old(ram[a])
    }

    lemma BlockAddress(b: nat, offset: nat)
      requires b < |pages| && Aligned(pages[b]) && offset < PAGE
      ensures InBlocks(pages[b] + offset)
    {
      assert (pages[b] + offset) % PAGE == offset;
    }

    /** Nothing in memory but the record table and the pointer page has changed. */
    twostate predicate OnlyPointers()
      reads this, pmem, ram
    {
      forall a: nat :: a < ram.Length && !pmem.InTable(a) && !(blockPointers <= a < blockPointers + PAGE) ==> ram[a] == old(ram[a])
    }

    /** The pages a mounted disk holds: its block pages and the pointer page. */
    ghost function Owned(): set<nat>
      reads `pages, `blockPointers
    {
      var first: nat := blockPointers;
      PageSet(pages + [first])
    }

    constructor (pmem: PageAllocator)
      requires pmem.Valid()
      ensures Valid() && blockSize == 0 && this.pmem == pmem && ram == pmem.ram
    {
      this.pmem := pmem;
      this.ram := pmem.ram;
      blockSize, blockPointers := 0, 0;
      pages, flat := [], [];
    }

    /** The address in memory of byte addr of the disk. */
    method Locate(addr: nat) returns (p: nat)
      requires Valid() && addr < |flat|
      ensures p == pages[addr / PAGE] + addr % PAGE && HoldsAt(ram[..], pages, flat, addr)
    {
      assert HoldsAt(ram[..], pages, flat, addr);
      var offset := addr % PAGE;
      var blockNumber := addr / PAGE;
      var currentPageAddr := ReadWord(ram, blockPointers + 4 * blockNumber);
      p := currentPageAddr + offset;
    }

    method Poke(addr: nat, v: byte)
      requires Valid() && addr < |flat|
      modifies ram, `flat
      ensures Valid() && flat == old(flat)[addr := v]
      ensures pmem.UsedPages() == old(pmem.UsedPages()) && OnlyBlocks()
    {
      hide FlatOf, HoldsAt, Pointers, PagesOf, Marked;
      var p := Locate(addr);
      ghost var m, recs := ram[..], pmem.Records();
      assert pages[addr / PAGE] != blockPointers && pmem.IsPage(pages[addr / PAGE]);
      PagesApart(pages[addr / PAGE], blockPointers, addr % PAGE);
      BlockAddress(addr / PAGE, addr % PAGE);
      ram[p] := v;
      assert ram[..] == m[p := v];
      assert pmem.Records() == recs;
      PokeFlat(m, pages, flat, addr, v);
      flat := flat[addr := v];
      PokePointers(m, blockPointers, pages, p, v);
    }

    /** The pages taken so far are distinct, allocated and pointed to. */
    ghost predicate Building()
      reads this, ram, pmem, pmem.ram
    {
      pmem.Valid() && pmem.ram == ram && OwnsPages() && Pointers(ram[..], blockPointers, pages)
    }

    /** Store one block address in the pointer page. */
    method SetPointer(b: nat, p: u32)
      requires pmem.Valid() && pmem.ram == ram
      requires b == |pages| < MAX_BLOCKS && pmem.IsPage(blockPointers) && Pointers(ram[..], blockPointers, pages)
      modifies ram, `pages
      ensures pages == old(pages) + [p] && Pointers(ram[..], blockPointers, pages)
      ensures pmem.UsedPages() == old(pmem.UsedPages()) && pmem.Records() == old(pmem.Records())
      ensures OnlyPointers()
    {
      hide PagesOf, Marked;
      ghost var m, recs := ram[..], pmem.Records();
      WriteWord(ram, blockPointers + 4 * b, p);
      PutWordReads(m, blockPointers + 4 * b, p);
      pages := pages + [p];
      assert pmem.Records() == recs;
    }

    /** Allocate one block and note its address. */
    method AddBlock(b: nat) returns (r: Result<()>)
      requires Building() && b == |pages| < MAX_BLOCKS
      modifies ram, `pages, pmem`currAllocRecord
      ensures pmem.Valid() && OnlyPointers()
      ensures r.Ok? ==> Building() && |pages| == b + 1 && pages[..b] == old(pages)
      ensures r.Ok? ==> pages[b] !in old(pmem.UsedPages()) && pmem.UsedPages() == old(pmem.UsedPages()) + {pages[b]}
      ensures r.Ok? <==> old(pmem.Available()) > 0
      ensures r.Ok? ==> pmem.Available() == old(pmem.Available()) - 1
    {
      hide PagesOf, Marked, Search, FirstFreeAfter, AvailableIn;
      ghost var m := ram[..];
      var alloc := pmem.Alloc();
      if alloc.Panic? { return Panic; }
      PointersFrame(m, ram[..], blockPointers, pages);
      SetPointer(b, alloc.value);
      r := Ok(());
    }

    method TakePointerPage() returns (r: Result<()>)
      requires pmem.Valid() && pmem.ram == ram && pages == []
      modifies ram, `blockPointers, pmem`currAllocRecord
      ensures pmem.Valid() && pmem.OnlyTable()
      ensures r.Ok? ==> Building() && Owned() !! old(pmem.UsedPages()) && pmem.UsedPages() == old(pmem.UsedPages()) + Owned()
      ensures r.Ok? <==> old(pmem.Available()) > 0
      ensures r.Ok? ==> pmem.Available() == old(pmem.Available()) - 1
    {
      hide PagesOf, Marked, Search, FirstFreeAfter, AvailableIn;
      ghost var used := pmem.UsedPages();
      var alloc := pmem.Alloc();
      if alloc.Panic? { return Panic; }
      blockPointers := alloc.value;
      assert pages + [alloc.value as nat] == [alloc.value as nat];
      pmem.PageInMemory(blockPointers);
      OwnedFirst(blockPointers);
      r := Ok(());
    }

    /** The allocation loop of ramdisk_init. */
    method AddBlocks(n: nat, ghost used: set<nat>) returns (r: Result<()>)
      requires Building() && n <= MAX_BLOCKS && pages == []
      requires Owned() !! used && pmem.UsedPages() == used + Owned()
      modifies ram, `pages, pmem`currAllocRecord
      ensures OnlyPointers()
      ensures r.Ok? ==> Building() && |pages| == n
      ensures r.Ok? ==> Owned() !! used && pmem.UsedPages() == used + Owned()
      ensures r.Ok? <==> old(pmem.Available()) >= n
      ensures r.Ok? ==> pmem.Available() == old(pmem.Available()) - n
    {
      hide PagesOf, Marked, Search, FirstFreeAfter, AvailableIn, Pointers, PageSet, OwnsPages;
      for i := 0 to n
        invariant Building() && |pages| == i && OnlyPointers()
        invariant pmem.Available() == old(pmem.Available()) - i
        invariant Owned() !! used && pmem.UsedPages() == used + Owned()
      {
        ghost var before := pages;
        var block := AddBlock(i);
        if block.Panic? { return Panic; }
        assert pages == before + [pages[i]];
        OwnedMore(before, pages[i], blockPointers);
      }
      r := Ok(());
    }

    /** The pages in use before did not include the pointer page. */
    twostate lemma UsedKept()
      requires old(pmem.Valid()) && pmem.Valid() && pmem.ram == ram && OnlyPointers() && Aligned(blockPointers)
      requires pmem.allocStart == old(pmem.allocStart) && pmem.mainMemoryStart == old(pmem.mainMemoryStart)
      requires pmem.reservedSize == old(pmem.reservedSize) && blockPointers !in old(pmem.UsedPages())
      ensures pmem.KeepsPages()
    {
      hide PagesOf;
      forall p: nat | p in old(pmem.UsedPages()) ensures SamePage(old(ram[..]), ram[..], p) {
        assert old(pmem.IsPage(p)) by { pmem.UsedWasPage(p); }
        pmem.PageInMemory(p);
        forall a | p <= a < p + PAGE ensures ram[a] == old(ram[a]) {
          PagesApart(p, blockPointers, a - p);
        }
      }
    }

    /** The size checks of ramdisk_init. */
    ghost predicate Mountable(size: u32)
      reads this
    {
      0 < size <= MAX_BLOCKS * PAGE && size % PAGE == 0 && blockSize == 0
    }

    /** ramdisk_init: a page for the pointers, then a page for each block. */
    method Init(size: u32) returns (r: Result<()>)
      requires Valid()
      modifies this, ram, pmem`currAllocRecord
      ensures r.Ok? ==> Valid() && |flat| == size && old(Mountable(size))
      ensures r.Ok? ==> Owned() !! old(pmem.UsedPages()) && pmem.UsedPages() == old(pmem.UsedPages()) + Owned()
      ensures r.Ok? ==> pmem.KeepsPages()
      ensures r.Ok? <==> 0 < size <= 4096 * 1024 && size % 4096 == 0 && old(blockSize) == 0 && old(pmem.Available()) >= 1 + size / 4096
      ensures r.Ok? ==> pmem.Available() == old(pmem.Available()) - (1 + size / PAGE)
    {
      hide PagesOf, Marked, Search, FirstFreeAfter, AvailableIn, HoldsAt, Gather, FlatOf, Pointers, Owned;
      if size == 0 { return Panic; }
      if size % PAGE != 0 { return Panic; }
      if blockSize > 0 { return Panic; }
      if blockPointers > 0 { return Panic; }
      blockSize := size / PAGE;
      if blockSize > MAX_BLOCKS { return Panic; }
      ghost var used := pmem.UsedPages();
      var first := TakePointerPage();
      if first.Panic? { return Panic; }
      var blocks := AddBlocks(blockSize, used);
      if blocks.Panic? { return Panic; }
      OwnedHasPointers();
      UsedKept();
      Mount();
      r := Ok(());
    }

    /** The disk starts out holding whatever its pages hold. */
    ghost method Mount()
      requires Building() && |pages| == blockSize <= MAX_BLOCKS && blockSize > 0
      modifies `flat
      ensures Valid()
    {
      hide PagesOf, Marked, HoldsAt, Gather;
      forall b | 0 <= b < |pages| ensures pages[b] + PAGE <= U32 { pmem.PageInMemory(pages[b]); }
      flat := Gather(ram[..], pages);
    }

    /** Free the i-th block, found through the pointer page. */
    method FreeBlock(i: nat)
      requires pmem.Valid() && pmem.ram == ram && Pointers(ram[..], blockPointers, pages) && pmem.IsPage(blockPointers)
      requires i < |pages| && pmem.IsPage(pages[i]) && pages[i] in pmem.UsedPages()
      modifies ram
      ensures pmem.Valid() && Pointers(ram[..], blockPointers, pages) && pmem.OnlyTable()
      ensures pmem.UsedPages() == old(pmem.UsedPages()) - {pages[i]}
    {
      hide PagesOf, Marked;
      ghost var m := ram[..];
      var block := ReadWord(ram, blockPointers + 4 * i);
      var freed := pmem.Free(block);
      if freed.Panic? { assert false; }
      PointersFrame(m, ram[..], blockPointers, pages);
    }

    /** The freeing loop of ramdisk_destroy. */
    method FreeBlocks()
      requires Building() && |pages| == blockSize
      modifies ram
      ensures pmem.Valid() && pmem.UsedPages() == old(pmem.UsedPages()) - PageSet(pages) && pmem.OnlyTable()
    {
      hide PagesOf, Marked, Pointers;
      ghost var used := pmem.UsedPages();
      for i := 0 to blockSize
        modifies ram
        invariant pmem.Valid() && Pointers(ram[..], blockPointers, pages) && pmem.OnlyTable()
        invariant pmem.UsedPages() == used - PageSet(pages[..i])
      {
        assert pages[i] !in PageSet(pages[..i]);
        FreeBlock(i);
        assert pages[..i + 1][..i] == pages[..i];
      }
      assert pages[..blockSize] == pages;
    }

    lemma OwnedHasPointers()
      ensures blockPointers in Owned()
    {
    }

    lemma OwnedParts()
      requires pmem.Ready() && OwnsPages()
      ensures Owned() == PageSet(pages) + {blockPointers as nat} && blockPointers !in PageSet(pages)
    {
    }

    /** Unset the two variables of the ramdisk. */
    method Unset()
      requires pmem.Valid() && pmem.ram == ram
      modifies `blockSize, `blockPointers, `pages, `flat
      ensures Valid() && blockSize == 0
    {
      blockSize, blockPointers := 0, 0;
      pages, flat := [], [];
    }

    /** ramdisk_destroy: free the blocks, then the pointer page. */
    method Destroy() returns (r: Result<()>)
      requires Valid()
      modifies this, ram
      ensures r.Ok? <==> old(blockSize) > 0
      ensures r.Ok? ==> Valid() && blockSize == 0 && pmem.UsedPages() == old(pmem.UsedPages()) - old(Owned())
      ensures pmem.OnlyTable() && (r.Panic? ==> unchanged(ram))
    {
      hide PagesOf, Marked, HoldsAt, FlatOf, Pointers, Owned, Distinct;
      if blockSize == 0 { return Panic; }
      if blockPointers == 0 { assert false; }
      OwnedParts();
      FreeBlocks();
      var freed := pmem.Free(blockPointers);
      if freed.Panic? { assert false; }
      Unset();
      r := Ok(());
    }

    /** The body of the transfer loop. */
    method IoByte(write: bool, currentAddr: nat, data: array<byte>, k: nat)
      requires Valid() && currentAddr < |flat| && k < data.Length && data != ram
      modifies ram, `flat, data
      ensures Valid() && pmem.UsedPages() == old(pmem.UsedPages())
      ensures OnlyBlocks() && (!write ==> unchanged(ram))
      ensures flat == if write then old(flat)[currentAddr := old(data[k])] else old(flat)
      ensures data[..] == if write then old(data[..]) else old(data[..])[k := flat[currentAddr]]
    {
      hide PagesOf, Marked, FlatOf, Pointers, Distinct, OwnsPages, InBlocks;
      if !write {
        var p := Locate(currentAddr);
        data[k] := ram[p];
      } else {
        Poke(currentAddr, data[k]);
      }
    }

    /** The transfer loop. */
    method IoLoop(write: bool, start: u32, data: array<byte>, off: nat, size: u32)
      requires Valid() && start + size <= |flat| && off + size <= data.Length && data != ram
      modifies ram, `flat, data
      ensures Valid() && pmem.UsedPages() == old(pmem.UsedPages())
      ensures OnlyBlocks() && (!write ==> unchanged(ram))
      ensures flat == if write then Splice(old(flat), start, old(data[off..off + size])) else old(flat)
      ensures data[..] == if write then old(data[..]) else Splice(old(data[..]), off, flat[start..start + size])
    {
      hide PagesOf, Marked, Splice, FlatOf, Pointers, Distinct, OwnsPages, InBlocks;
      ghost var d, f := data[..], flat;
      SpliceNone(f, start, d[off..off]);
      SpliceNone(d, off, f[start..start]);
      for i := 0 to size
        invariant Valid() && pmem.UsedPages() == old(pmem.UsedPages())
        invariant OnlyBlocks() && (!write ==> unchanged(ram))
        invariant flat == if write then Splice(f, start, d[off..off + i]) else f
        invariant data[..] == if write then d else Splice(d, off, f[start..start + i])
      {
        SpliceMore(f, start, d, off, i);
        SpliceMore(d, off, f, start, i);
        IoByte(write, start + i, data, off + i);
      }
    }

    /** So a transfer takes no page, gives none back, and leaves every other page as it was. */
    twostate lemma Confined()
      requires old(Valid()) && Valid() && OnlyBlocks() && pages == old(pages) && unchanged(pmem)
      ensures pmem.Records() == old(pmem.Records()) && pmem.UsedPages() == old(pmem.UsedPages())
      ensures forall p: nat :: Aligned(p) && p + PAGE <= U32 && p !in pages ==> SamePage(old(ram[..]), ram[..], p)
    {
      hide PagesOf, FlatOf, Pointers;
      forall a: nat | pmem.InTable(a) ensures !InBlocks(a) {
        forall b | 0 <= b < |pages| ensures pages[b] > a { pmem.PageInMemory(pages[b]); }
      }
      forall p: nat, a: nat | Aligned(p) && p !in pages && p <= a < p + PAGE ensures !InBlocks(a) {
        PageStart(p, a);
      }
    }

    lemma PageStart(p: nat, a: nat)
      requires Aligned(p) && p <= a < p + PAGE
      ensures a - a % PAGE == p
    {
    }

    /** Whatever happens to other pages, a disk keeps its contents. */
    twostate lemma Kept()
      requires old(Valid()) && unchanged(this) && pmem.Grown()
      requires blockSize > 0 ==> forall p: nat :: p in Owned() ==> SamePage(old(ram[..]), ram[..], p)
      ensures Valid()
    {
      hide PagesOf, PageSet;
      OwnedAre();
      if blockSize == 0 { return; }
      PointersFrame(old(ram[..]), ram[..], blockPointers, pages);
      forall a | 0 <= a < |flat| ensures HoldsAt(ram[..], pages, flat, a) {
        assert HoldsAt(old(ram[..]), pages, flat, a);
        assert pages[a / PAGE] in Owned();
      }
    }

    lemma OwnedAre()
      ensures blockPointers in Owned() && forall b :: 0 <= b < |pages| ==> pages[b] in Owned()
    {
    }

    /** ramdisk_internal_io; the data pointer is element `off` of an array. */
    method InternalIo(write: bool, start: u32, data: array<byte>, off: nat, size: u32) returns (r: Result<nat>)
      requires Valid() && off + size <= data.Length && data != ram
      modifies ram, `flat, data
      ensures Valid() && pmem.UsedPages() == old(pmem.UsedPages())
      ensures OnlyBlocks() && (!write ==> unchanged(ram))
      ensures r == if blockSize == 0 then Panic else Ok(IoCode(start, size, |flat|))
      ensures r == Ok(0) <==> blockSize > 0 && start + size <= |old(flat)|
      ensures r == Ok(1) <==> blockSize > 0 && (start + size) % 0x1_0000_0000 > |flat|
      ensures r == Ok(2) <==> blockSize > 0 && start + size >= 0x1_0000_0000 && start + size - 0x1_0000_0000 <= |flat|
      ensures flat == if r == Ok(0) && write then Splice(old(flat), start, old(data[off..off + size])) else old(flat)
      ensures data[..] == if r == Ok(0) && !write then Splice(old(data[..]), off, flat[start..start + size]) else old(data[..])
    {
      Sizes();
      hide Valid, PagesOf, Marked, InBlocks;
      if blockSize == 0 { return Panic; }
      IoCodeExact(start, size, |flat|);
      if (start + size) % U32 > blockSize * PAGE { return Ok(OUT_OF_BOUNDS); }
      if start > U32 - 1 - size { return Ok(OVERFLOW); }
      IoLoop(write, start, data, off, size);
      r := Ok(0);
    }

    // ----- reads into physical memory -------------------------------------------------

    /** A page the disk has no part in. */
    ghost predicate Outside(p: nat)
      reads this, pmem
    {
      pmem.IsPage(p) && p !in Owned()
    }

    /** The body of the transfer loop, for byte k of the page at p. */
    method ReadByte(currentAddr: nat, p: nat, k: nat)
      requires Valid() && currentAddr < |flat| && Outside(p) && k < PAGE
      modifies ram
      ensures Valid() && pmem.Records() == old(pmem.Records())
      ensures p + k < U32 && ram[..] == old(ram[..])[p + k := flat[currentAddr]]
    {
      hide PagesOf, Marked, FlatOf, Pointers, Distinct, PageSet;
      pmem.PageInMemory(p);
      OwnedArePages();
      ghost var m, recs := ram[..], pmem.Records();
      var a := Locate(currentAddr);
      ram[p + k] := ram[a];
      pmem.PageWrite(m, p, p + k, flat[currentAddr]);
      assert ram[..] == m[p + k := flat[currentAddr]];
      assert pmem.Records() == recs;
      forall q: nat | q in Owned() ensures SamePage(m, ram[..], q) { PagesApart(p, q, k); }
      Kept();
    }

    lemma OwnedArePages()
      requires Valid() && blockSize > 0
      ensures forall q: nat :: q in Owned() ==> pmem.IsPage(q) && q + PAGE < U32 && q in pmem.UsedPages()
    {
      hide PagesOf;
      forall q: nat | q in Owned() ensures pmem.IsPage(q) && q + PAGE < U32 && q in pmem.UsedPages() {
        pmem.PageInMemory(q);
      }
    }

    /** The transfer loop. */
    method ReadLoop(start: u32, p: nat, size: nat)
      requires Valid() && start + size <= |flat| && Outside(p) && size <= PAGE && p + PAGE <= U32
      modifies ram
      ensures Valid() && pmem.Records() == old(pmem.Records())
      ensures ram[..] == Splice(old(ram[..]), p, flat[start..start + size])
    {
      hide PagesOf, Splice, Valid, Outside;
      Sizes();
      ghost var m := ram[..];
      SpliceNone(m, p, flat[start..start]);
      for i := 0 to size
        invariant Valid() && pmem.Valid() && pmem.Records() == old(pmem.Records())
        invariant ram[..] == Splice(m, p, flat[start..start + i])
      {
        SpliceMore(m, p, flat, start, i);
        ReadByte(start + i, p, i);
      }
    }

    /** ramdisk_internal_io for a read whose data pointer is the page at p. */
    method ReadInto(start: u32, p: nat, size: u32) returns (r: Result<nat>)
      requires Valid() && Outside(p) && size <= PAGE && p + PAGE <= U32
      modifies ram
      ensures Valid() && pmem.Records() == old(pmem.Records())
      ensures r == if blockSize == 0 then Panic else Ok(IoCode(start, size, |flat|))
      ensures r == Ok(0) <==> blockSize > 0 && start + size <= |flat|
      ensures r == Ok(1) <==> blockSize > 0 && (start + size) % 0x1_0000_0000 > |flat|
      ensures r == Ok(2) <==> blockSize > 0 && start + size >= 0x1_0000_0000 && start + size - 0x1_0000_0000 <= |flat|
      ensures ram[..] == if r == Ok(0) then Splice(old(ram[..]), p, flat[start..start + size]) else old(ram[..])
    {
      Sizes();
      hide Valid, PagesOf, Outside;
      if blockSize == 0 { return Panic; }
      IoCodeExact(start, size, |flat|);
      if (start + size) % U32 > blockSize * PAGE { return Ok(OUT_OF_BOUNDS); }
      if start > U32 - 1 - size { return Ok(OVERFLOW); }
      ReadLoop(start, p, size);
      r := Ok(0);
    }
  }
}
