/**
 * The physical page allocator: a table of one byte per page at the start of the
 * main memory region, scanned next-fit from a cursor.
 */
module Pmem {
  import opened Common
  import opened Memory

  const MEM_RESERVED_SECTION_MIN := 0x10_0000
  const MIN_MEM_SIZE := 0xFFFF
  const AVAILABLE := 1

  // ----- the search order, on the record table as a value ---------------------

  /** i is free and no other free record lies cyclically between the cursor and i. */
  ghost predicate FirstFreeAfter(recs: seq<byte>, c: nat, i: nat) {
    && c < |recs| && i < |recs| && i != c && recs[i] == 0
    && forall k :: 0 <= k < |recs| && k != c && recs[k] == 0 ==> Distance(c, i, |recs|) <= Distance(c, k, |recs|)
  }

  /** The record found by trying the places from the d-th after the cursor on; the cursor itself is not tried. */
  function Search(recs: seq<byte>, c: nat, d: nat): Option<nat>
    requires c < |recs| && 1 <= d <= |recs|
    decreases |recs| - d
  {
    if d == |recs| then None
    else if recs[Hop(c, d, |recs|)] == 0 then Some(Hop(c, d, |recs|))
    else Search(recs, c, d + 1)
  }

  lemma {:induction false} SearchFinds(recs: seq<byte>, c: nat, d: nat)
    requires c < |recs| && 1 <= d <= |recs|
    requires forall k :: 0 <= k < |recs| && k != c && recs[k] == 0 ==> d <= Distance(c, k, |recs|)
    ensures Search(recs, c, d).Some? ==> FirstFreeAfter(recs, c, Search(recs, c, d).value)
    ensures Search(recs, c, d).None? ==> forall k :: 0 <= k < |recs| && k != c ==> recs[k] != 0
    decreases |recs| - d
  {
    if d < |recs| && recs[Hop(c, d, |recs|)] != 0 {
      SearchFinds(recs, c, d + 1);
    }
  }

  /** pmem_alloc's choice: the first free record in cyclic order, if any but the cursor's own is free. */
  lemma NextFit(recs: seq<byte>, c: nat)
    requires c < |recs|
    ensures Search(recs, c, 1).Some? ==> FirstFreeAfter(recs, c, Search(recs, c, 1).value)
    ensures Search(recs, c, 1).Some? ==> Search(recs, c, 1).value < |recs| && recs[Search(recs, c, 1).value] == 0
    ensures Search(recs, c, 1).Some? <==> exists k :: 0 <= k < |recs| && k != c && recs[k] == 0
  {
    SearchFinds(recs, c, 1);
  }

  /** Two free records after the cursor are taken one after the other. */
  lemma Consecutive(recs: seq<byte>, c: nat)
    requires c + 2 < |recs| && recs[c + 1] == 0 && recs[c + 2] == 0
    ensures Search(recs, c, 1) == Some(c + 1) && Search(recs[c + 1 := 1], c + 1, 1) == Some(c + 2)
  {
    assert Hop(c, 1, |recs|) == c + 1 && Hop(c + 1, 1, |recs|) == c + 2;
  }

  ghost function FreeRecords(recs: seq<byte>): nat {
    if recs == [] then 0 else (if recs[|recs| - 1] == 0 then 1 else 0) + FreeRecords(recs[..|recs| - 1])
  }

  /** How many pages can be taken in a row: all that are free, unless only the cursor's own is. */
  ghost function AvailableIn(recs: seq<byte>, c: nat): nat
    requires c < |recs|
  {
    if Search(recs, c, 1).None? then 0 else FreeRecords(recs)
  }

  lemma {:induction false} FreeRecordsTake(recs: seq<byte>, i: nat)
    requires i < |recs| && recs[i] == 0
    ensures FreeRecords(recs[i := 1]) == FreeRecords(recs) - 1
  {
    var n := |recs| - 1;
    if i < n {
      FreeRecordsTake(recs[..n], i);
      assert recs[i := 1][..n] == recs[..n][i := 1];
    } else {
      assert recs[i := 1][..n] == recs[..n];
    }
  }

  lemma {:induction false} FreeRecordsNone(recs: seq<byte>)
    ensures FreeRecords(recs) == 0 <==> forall k :: 0 <= k < |recs| ==> recs[k] != 0
  {
    if recs != [] { FreeRecordsNone(recs[..|recs| - 1]); }
  }

  /** Taking a page lowers that number by one, and it can be done exactly when the number is positive. */
  lemma TakeOne(recs: seq<byte>, c: nat)
    requires c < |recs|
    ensures Search(recs, c, 1).Some? <==> AvailableIn(recs, c) > 0
    ensures Search(recs, c, 1).Some? ==>
      var i := Search(recs, c, 1).value;
      i < |recs| && AvailableIn(recs[i := 1], i) == AvailableIn(recs, c) - 1
  {
    NextFit(recs, c);
    FreeRecordsNone(recs);
    if Search(recs, c, 1).Some? {
      var i := Search(recs, c, 1).value;
      FreeRecordsTake(recs, i);
      FreeRecordsNone(recs[i := 1]);
      NextFit(recs[i := 1], i);
    }
  }

  ghost predicate Marked(recs: seq<byte>, base: nat, p: nat) {
    base <= p < base + PAGE * |recs| && (p - base) % PAGE == 0 && recs[(p - base) / PAGE] != 0
  }

  /** The pages whose records are not free. */
  ghost function PagesOf(recs: seq<byte>, base: nat): set<nat> {
    set p: nat | base <= p < base + PAGE * |recs| && Marked(recs, base, p)
  }

  lemma PagesOfMark(recs: seq<byte>, base: nat, i: nat, v: byte)
    requires i < |recs|
    ensures var p := base + PAGE * i;
      && (p in PagesOf(recs, base) <==> recs[i] != 0)
      && PagesOf(recs[i := v], base) == if v == 0 then PagesOf(recs, base) - {p} else PagesOf(recs, base) + {p}
  {
  }

  lemma AlignedSum(p: nat, n: nat)
    requires Aligned(p) && Aligned(n)
    ensures Aligned(p + n)
  {
  }

  lemma PastTable(recs: seq<byte>, base: nat)
    ensures base + PAGE * |recs| !in PagesOf(recs, base)
  {
  }

  // ----- the memory map -------------------------------------------------------

  datatype MmapEntry = MmapEntry(addrLow: u32, lenLow: u32, kind: u32)
  datatype MultibootInfo = MultibootInfo(flags: u32, mmap: seq<MmapEntry>)

  datatype Region = Region(start: u32, length: u32)

  /** The layout chosen at boot; `zeroed` counts the record bytes that were cleared. */
  datatype Layout = Layout(table: u32, zeroed: u32, pages: u32, length: u32)

  ghost predicate Usable(mmap: seq<MmapEntry>, k: int) {
    0 <= k < |mmap| && mmap[k].kind == AVAILABLE
  }

  ghost predicate FirstOfLength(mmap: seq<MmapEntry>, k: int, r: Region) {
    && Usable(mmap, k) && r == Region(mmap[k].addrLow, mmap[k].lenLow)
    && forall j :: Usable(mmap, j) && j < k ==> mmap[j].lenLow < r.length
  }

  /** r is the first of the longest available regions, or empty when none has a positive length. */
  ghost predicate LargestRegion(mmap: seq<MmapEntry>, r: Region) {
    && (forall k :: Usable(mmap, k) ==> mmap[k].lenLow <= r.length)
    && (r == Region(0, 0) || exists k :: FirstOfLength(mmap, k, r))
  }

  /** The part of the region above the kernel, or a panic when the kernel covers it. */
  function Trim(r: Region, kernelEnd: u32): Result<Region> {
    if r.start >= kernelEnd then Ok(r)
    else if kernelEnd - r.start > r.length then Panic
    else Ok(Region(kernelEnd, r.length - (kernelEnd - r.start)))
  }

  /** Where pages start: the first page boundary past the first-estimate table, in 32-bit arithmetic. */
  function PagesStart(r: Region): u32 {
    PageBase((r.start + r.length / PAGE + PAGE) % U32)
  }

  function Plan(r: Region): Result<Layout> {
    var length := (r.start + r.length - PagesStart(r)) % U32;
    if r.start < MEM_RESERVED_SECTION_MIN || length < MIN_MEM_SIZE then Panic
    else Ok(Layout(r.start, r.length / PAGE, PagesStart(r), length))
  }

  /** Record table and page area are disjoint, aligned, inside the region and below 4 GiB. */
  ghost predicate Sound(r: Region, l: Layout) {
    var n := l.length / PAGE;
    && r.start == l.table && l.table + n <= l.table + l.zeroed <= l.pages
    && Aligned(l.pages)
    && l.pages + PAGE * n <= l.pages + l.length <= r.start + r.length
    && l.pages + l.length < U32
    && n >= 15
  }

  /** Booting is sound exactly when the region ends below 4 GiB and the page area still starts inside it. */
  lemma BootExact(r: Region)
    requires Plan(r).Ok?
    ensures Sound(r, Plan(r).value) <==>
      r.start + r.length < U32 && r.start + r.length / PAGE + PAGE < U32 && PagesStart(r) <= r.start + r.length
  {
  }

  /**
   * Trimming and dividing the region, in numbers: both pass exactly when the kernel ends no later than
   * the region, what is left starts at 1 MiB or above, and the 32-bit length from the first page
   * boundary on is at least 0xFFFF.
   */
  lemma BootArithmetic(r: Region, kernelEnd: u32)
    ensures var s, e := if r.start < kernelEnd then kernelEnd else r.start, r.start + r.length;
      var first := (s + (e - s) / 4096 + 4096) % 0x1_0000_0000;
      var boundary := first - first % 4096;
      && (Trim(r, kernelEnd).Ok? && Plan(Trim(r, kernelEnd).value).Ok? <==>
            s <= e && s >= 0x10_0000 && (e - boundary) % 0x1_0000_0000 >= 0xFFFF)
      && (Trim(r, kernelEnd).Ok? ==> Trim(r, kernelEnd).value == Region(s, e - s))
      && (s <= e && Plan(Region(s, e - s)).Ok? ==>
            Plan(Region(s, e - s)).value == Layout(s, (e - s) / 4096, boundary, (e - boundary) % 0x1_0000_0000))
  {
  }

  /**
   * The layout as the kernel sees it, for any region that boots: what is left of it lies above the
   * kernel's end and ends where the region does, and the layout carved from it is sound exactly when
   * it ends below 4 GiB and the first page boundary past the table still lies inside.
   */
  lemma BootLayout(r: Region, kernelEnd: u32)
    ensures var s, e := if r.start < kernelEnd then kernelEnd else r.start, r.start + r.length;
      var table := s + (e - s) / 4096 + 4096;
      var first := table % 0x1_0000_0000;
      var boundary := first - first % 4096;
      s <= e && s >= 0x10_0000 && (e - boundary) % 0x1_0000_0000 >= 0xFFFF ==>
        && Trim(r, kernelEnd) == Ok(Region(s, e - s)) && Plan(Region(s, e - s)).Ok?
        && (Sound(Region(s, e - s), Plan(Region(s, e - s)).value) <==>
              e < 0x1_0000_0000 && table < 0x1_0000_0000 && boundary <= e)
  {
    hide Sound, PagesStart;
    BootArithmetic(r, kernelEnd);
    if Trim(r, kernelEnd).Ok? && Plan(Trim(r, kernelEnd).value).Ok? {
      BootExact(Trim(r, kernelEnd).value);
      StartIs(Trim(r, kernelEnd).value);
    }
  }

  lemma StartIs(r: Region)
    ensures var first := (r.start + r.length / 4096 + 4096) % 0x1_0000_0000; PagesStart(r) == first - first % 4096
  {
  }

  /** Two KiB of memory pass every check of the boot code and leave it with almost 4 GiB of pages. */
  lemma TooSmallRegionAccepted()
    ensures var r := Region(0x10_0000, 0x800);
      Plan(r) == Ok(Layout(0x10_0000, 0, 0x10_1000, 0xFFFF_F800)) && !Sound(r, Plan(r).value)
  {
  }

  // ----- the allocator --------------------------------------------------------

  /** The address k bytes past base, in 32-bit pointer arithmetic. */
  function Cell(base: u32, k: nat): u32 {
    (base + k) % U32
  }

  lemma WrapDifference(x: nat, p: nat)
    requires x < 2 * U32 && p < U32
    ensures (x % U32 - p) % U32 == (x - p) % U32
  {
  }

  class PageAllocator {
    const ram: array<byte>
    var initialized: bool
    var mainMemoryStart: u32
    var mainMemoryLength: u32
    var allocStart: u32
    var reservedSize: u32
    var currAllocRecord: u32
    var mbd: Option<MultibootInfo>
    var kernelReservedEnd: u32

    /** The layout fields, fixed once booted, describe a record table below an aligned page area. */
    ghost predicate Ready()
      reads `initialized, `mainMemoryStart, `mainMemoryLength, `allocStart, `reservedSize
    {
      && ram.Length == U32
      && initialized
      && reservedSize == mainMemoryLength / PAGE
      && 0 < mainMemoryStart
      && mainMemoryStart + reservedSize <= allocStart
      && Aligned(allocStart)
      && allocStart + mainMemoryLength < U32
    }

    ghost predicate Valid()
      reads this
    {
      Ready() && currAllocRecord < reservedSize
    }

    /** The record table. */
    ghost function Records(): (s: seq<byte>)
      requires Ready()
      reads `initialized, `mainMemoryStart, `mainMemoryLength, `allocStart, `reservedSize, ram
      ensures |s| == reservedSize
    {
      ram[mainMemoryStart..mainMemoryStart + reservedSize]
    }

    ghost function PageOf(i: nat): nat
      reads `allocStart
    {
      allocStart + PAGE * i
    }

    ghost predicate IsPage(p: nat)
      reads `allocStart, `reservedSize
    {
      Aligned(p) && allocStart <= p < allocStart + PAGE * reservedSize
    }

    /** The pages that are handed out. */
    ghost function UsedPages(): set<nat>
      requires Ready()
      reads `initialized, `mainMemoryStart, `mainMemoryLength, `allocStart, `reservedSize, ram
    {
      PagesOf(Records(), allocStart)
    }

    /** How many calls of pmem_alloc in a row succeed. */
    ghost function Available(): nat
      requires Valid()
      reads this, ram
    {
      AvailableIn(Records(), currAllocRecord)
    }

    /** The page the next call of pmem_alloc returns. */
    ghost function NextPage(): Option<nat>
      requires Valid()
      reads this, ram
    {
      var found := Search(Records(), currAllocRecord, 1);
      if found.None? then None else Some(PageOf(found.value))
    }

    /** Since the old state exactly one page has been taken, the given one. */
    twostate predicate Took(page: nat)
      requires old(Valid()) && Valid()
      reads this, ram
    {
      && old(NextPage()) == Some(page)
      && var i := Search(old(Records()), old(currAllocRecord), 1).value;
        currAllocRecord == i < |old(Records())| && Records() == old(Records())[i := 1]
    }

    /** The bytes of the record table. */
    ghost predicate InTable(a: int)
      reads `mainMemoryStart, `reservedSize
    {
      mainMemoryStart <= a < mainMemoryStart + reservedSize
    }

    /** Only the record table may have changed. */
    twostate predicate OnlyTable()
      reads this, ram
    {
      forall a: nat :: a < ram.Length && !InTable(a) ==> ram[a] == old(ram[a])
    }

    /** Every page that was in use kept its bytes. */
    twostate predicate KeepsPages()
      requires old(Ready())
      reads ram
    {
      forall p: nat :: p in old(UsedPages()) ==> SamePage(old(ram[..]), ram[..], p)
    }

    /** The layout is the one it was, and no page was given back. */
    twostate predicate Grown()
      reads this, ram
    {
      && old(Valid()) && Valid() && old(UsedPages()) <= UsedPages()
      && mainMemoryStart == old(mainMemoryStart) && allocStart == old(allocStart) && reservedSize == old(reservedSize)
    }

    /** What happens in the record table leaves every page alone. */
    twostate lemma TableKeepsPages()
      requires Grown() && OnlyTable()
      ensures KeepsPages()
    {
      hide PagesOf;
      forall p: nat | p in UsedPages() ensures SamePage(old(ram[..]), ram[..], p) {
        UsedIsPage(p);
        PageInMemory(p);
      }
    }

    /** A page in use is a page. */
    lemma UsedIsPage(p: nat)
      requires Ready() && p in UsedPages()
      ensures IsPage(p)
    {
      AlignedSum(allocStart, p - allocStart);
    }

    twostate lemma UsedWasPage(p: nat)
      requires old(Ready()) && p in old(UsedPages())
      ensures old(IsPage(p))
    {
      AlignedSum(old(allocStart), p - old(allocStart));
    }

    /** A page lies in memory, above the record table. */
    lemma PageInMemory(p: nat)
      requires Ready() && IsPage(p)
      ensures mainMemoryStart + reservedSize <= p && p + PAGE < U32
    {
    }

    /** A write into a page leaves the record table alone. */
    lemma PageWrite(m: seq<byte>, p: nat, a: nat, v: byte)
      requires Ready() && IsPage(p) && p <= a < p + PAGE && |m| == U32
      ensures a < U32 && mainMemoryStart + reservedSize <= U32
      ensures m[a := v][mainMemoryStart..mainMemoryStart + reservedSize] == m[mainMemoryStart..mainMemoryStart + reservedSize]
    {
    }

    constructor (ram: array<byte>)
      requires ram.Length == U32
      ensures this.ram == ram && !initialized && currAllocRecord == 0 && mbd == None && kernelReservedEnd == 0
    {
      this.ram := ram;
      initialized := false;
      mainMemoryStart, mainMemoryLength, allocStart, reservedSize, currAllocRecord := 0, 0, 0, 0, 0;
      mbd, kernelReservedEnd := None, 0;
    }

    method SetMbd(info: MultibootInfo, kernelEnd: u32)
      modifies this`mbd, this`kernelReservedEnd
      ensures mbd == Some(info) && kernelReservedEnd == kernelEnd
    {
      mbd, kernelReservedEnd := Some(info), kernelEnd;
    }

    /** The scan for the largest available region. */
    static method LargestIn(mmap: seq<MmapEntry>) returns (start: u32, length: u32)
      ensures LargestRegion(mmap, Region(start, length))
    {
      start, length := 0, 0;
      ghost var best := -1;
      for i := 0 to |mmap|
        invariant forall k :: Usable(mmap, k) && k < i ==> mmap[k].lenLow <= length
        invariant if best == -1 then start == 0 && length == 0
                  else best < i && FirstOfLength(mmap, best, Region(start, length))
      {
        assert forall j :: Usable(mmap, j) && j < i ==> mmap[j].lenLow <= length;
        if mmap[i].kind == AVAILABLE && mmap[i].lenLow > length {
          start := mmap[i].addrLow;
          length := mmap[i].lenLow;
          best := i;
        }
      }
      assert forall k :: Usable(mmap, k) ==> k < |mmap|;
    }

    /** The state that booting from region r, already trimmed, leaves behind. */
    ghost predicate BootedFrom(r: Region, l: Layout)
      requires ram.Length == U32
      reads this, ram
    {
      && Plan(r) == Ok(l)
      && initialized && mainMemoryStart == l.table && allocStart == l.pages && mainMemoryLength == l.length
      && reservedSize == l.length / PAGE && currAllocRecord == 0
      && forall k :: 0 <= k < l.zeroed ==> ram[Cell(l.table, k)] == 0
    }

    method ZeroRecords(base: u32, n: nat)
      requires ram.Length == U32 && n <= U32
      modifies ram
      ensures forall k :: 0 <= k < n ==> ram[Cell(base, k)] == 0
    {
      for i := 0 to n
        invariant forall k :: 0 <= k < i ==> ram[Cell(base, k)] == 0
      {
        ram[Cell(base, i)] := 0;
      }
    }

    /** The second half of pmem_initialize: divide the trimmed region into records and pages. */
    method LayOut(ghost t: Region) returns (r: Result<()>)
      requires ram.Length == U32 && currAllocRecord == 0
      requires mainMemoryStart == t.start && mainMemoryLength == t.length
      modifies this, ram
      ensures mbd == old(mbd) && kernelReservedEnd == old(kernelReservedEnd)
      ensures r.Ok? <==> Plan(t).Ok?
      ensures r.Ok? ==> BootedFrom(t, Plan(t).value)
    {
      var endAddr := (mainMemoryStart + mainMemoryLength) % U32;
      reservedSize := mainMemoryLength / PAGE;
      ZeroRecords(mainMemoryStart, reservedSize);
      var startAddrAlloc := mainMemoryStart;
      startAddrAlloc := (startAddrAlloc + reservedSize + PAGE) % U32;
      startAddrAlloc := PageBase(startAddrAlloc);
      allocStart := startAddrAlloc;
      mainMemoryLength := (endAddr - startAddrAlloc) % U32;
      WrapDifference(t.start + t.length, PagesStart(t));
      reservedSize := mainMemoryLength / PAGE;
      if mainMemoryStart < MEM_RESERVED_SECTION_MIN { return Panic; }
      if mainMemoryLength == 0 { return Panic; }
      if mainMemoryLength < MIN_MEM_SIZE { return Panic; }
      initialized := true;
      r := Ok(());
    }

    /** pmem_initialize; region is the part of the memory map it settles on. */
    method Initialize() returns (r: Result<()>, ghost region: Region)
      requires ram.Length == U32 && currAllocRecord == 0
      modifies this, ram
      ensures mbd == old(mbd) && kernelReservedEnd == old(kernelReservedEnd)
      ensures var checked := mbd.Some? && kernelReservedEnd != 0 && mbd.value.flags / 64 % 2 == 1;
        && (r.Ok? ==> checked)
        && (checked ==> LargestRegion(mbd.value.mmap, region))
        && (checked ==> (r.Ok? <==> Trim(region, kernelReservedEnd).Ok? && Plan(Trim(region, kernelReservedEnd).value).Ok?))
        && (r.Ok? ==> var t := Trim(region, kernelReservedEnd).value; BootedFrom(t, Plan(t).value))
      ensures var s := if region.start < kernelReservedEnd then kernelReservedEnd else region.start;
        var e := region.start + region.length;
        var first := (s + (e - s) / 4096 + 4096) % 0x1_0000_0000;
        && (mbd.Some? && kernelReservedEnd != 0 && mbd.value.flags / 64 % 2 == 1 ==>
              (r.Ok? <==> s <= e && s >= 0x10_0000 && (e - (first - first % 4096)) % 0x1_0000_0000 >= 0xFFFF))
        && (r.Ok? ==>
              && initialized && currAllocRecord == 0 && mainMemoryStart == s && allocStart == first - first % 4096
              && mainMemoryLength == (e - allocStart) % 0x1_0000_0000 && reservedSize == mainMemoryLength / 4096
              && forall k :: 0 <= k < (e - s) / 4096 ==> ram[Cell(s, k)] == 0)
    {
      hide Plan, Cell, LargestRegion;
      region := Region(0, 0);
      if mbd == None { r := Panic; return; }
      if kernelReservedEnd == 0 { r := Panic; return; }
      if mbd.value.flags / 64 % 2 != 1 { r := Panic; return; }
      mainMemoryStart, mainMemoryLength := LargestIn(mbd.value.mmap);
      region := Region(mainMemoryStart, mainMemoryLength);
      BootArithmetic(region, kernelReservedEnd);
      if mainMemoryStart < kernelReservedEnd {
        var spaceToAlloc := kernelReservedEnd - mainMemoryStart;
        if spaceToAlloc > mainMemoryLength { r := Panic; return; }
        mainMemoryStart := kernelReservedEnd;
        mainMemoryLength := mainMemoryLength - spaceToAlloc;
      }
      ghost var t := Region(mainMemoryStart, mainMemoryLength);
      r := LayOut(t);
    }

    /** A sound layout leaves a valid allocator with every page free. */
    lemma BootValid(r: Region, l: Layout)
      requires ram.Length == U32 && BootedFrom(r, l) && Sound(r, l)
      ensures Valid()
      ensures forall k :: 0 <= k < reservedSize ==> Records()[k] == 0
    {
      SoundFits(r, l);
      hide Sound, Plan;
      forall k | 0 <= k < reservedSize ensures Records()[k] == 0 {
        assert ram[Cell(l.table, k)] == 0;
      }
    }

    lemma SoundFits(r: Region, l: Layout)
      requires Plan(r) == Ok(l) && Sound(r, l)
      ensures var n := l.length / PAGE;
        && 0 < n <= l.zeroed && 0 < l.table && l.table + l.zeroed <= l.pages && Aligned(l.pages) && l.pages + l.length < U32
    {
    }

    /** pmem_ptr_to_entry */
    method PtrToEntry(ptr: u32) returns (r: Result<u32>)
      requires Valid()
      ensures r.Ok? <==> allocStart <= ptr <= allocStart + mainMemoryLength
      ensures r.Ok? ==> r.value == (ptr - allocStart) / PAGE
    {
      if allocStart > ptr { return Panic; }
      if (allocStart + mainMemoryLength) % U32 < ptr { return Panic; }
      var workingPtr := ptr;
      workingPtr := workingPtr - allocStart;
      workingPtr := workingPtr / PAGE;
      r := Ok(workingPtr);
    }

    /** pmem_entry_to_ptr */
    method EntryToPtr(entry: u32) returns (r: Result<u32>)
      requires Valid()
      ensures r.Ok? <==> entry <= reservedSize
      ensures r.Ok? ==> r.value == PageOf(entry)
    {
      if entry > reservedSize { return Panic; }
      var workingPtr := PAGE * entry % U32;
      workingPtr := (workingPtr + allocStart) % U32;
      r := Ok(workingPtr);
    }

    /** Entry to pointer to entry is the identity, and pages are exactly the pointers of entries. */
    lemma EntryRoundTrip(entry: nat, page: nat)
      requires Ready()
      ensures entry < reservedSize ==> IsPage(PageOf(entry)) && PageOf(entry) <= allocStart + mainMemoryLength
      ensures entry < reservedSize ==> (PageOf(entry) - allocStart) / PAGE == entry
      ensures IsPage(page) ==> (page - allocStart) / PAGE < reservedSize && PageOf((page - allocStart) / PAGE) == page
    {
    }

    method Mark(i: nat, v: byte)
      requires Valid() && i < reservedSize
      modifies ram
      ensures ram[..] == old(ram[..])[mainMemoryStart + i := v]
      ensures OnlyTable()
      ensures Records() == old(Records())[i := v] && IsPage(PageOf(i))
      ensures UsedPages() == if v == 0 then old(UsedPages()) - {PageOf(i)} else old(UsedPages()) + {PageOf(i)}
    {
      ghost var recs := Records();
      ram[mainMemoryStart + i] := v;
      PagesOfMark(recs, allocStart, i, v);
      assert Records() == recs[i := v];
    }

    /** Mark a record free; the one just past the table belongs to no page. */
    method ClearRecord(record: nat)
      requires Valid() && record <= reservedSize
      modifies ram
      ensures ram[..] == old(ram[..])[mainMemoryStart + record := 0]
      ensures UsedPages() == old(UsedPages()) - {PageOf(record)}
      ensures record < reservedSize ==> IsPage(PageOf(record)) && (PageOf(record) in old(UsedPages()) <==> old(Records())[record] != 0)
    {
      hide PagesOf;
      if record < reservedSize {
        PagesOfMark(Records(), allocStart, record, 0);
        Mark(record, 0);
      } else {
        ghost var recs := Records();
        ram[mainMemoryStart + record] := 0;
        assert Records() == recs;
        PastTable(recs, allocStart);
      }
    }

    /** The scan of pmem_alloc: moves the cursor until it meets a free record or is back at its start. */
    method FindFree(startRecord: nat) returns (found: bool)
      requires Valid() && startRecord == currAllocRecord
      modifies this`currAllocRecord
      ensures Valid()
      ensures var next := Search(old(Records()), startRecord, 1);
        found == next.Some? && currAllocRecord == if found then next.value else startRecord
    {
      hide PagesOf, FirstFreeAfter;
      ghost var recs := Records();
      ghost var n := |recs|;
      ghost var d := 1;
      currAllocRecord := currAllocRecord + 1;
      if currAllocRecord >= reservedSize {
        currAllocRecord := 0;
      }
      while startRecord != currAllocRecord
        invariant Valid()
        invariant 1 <= d <= n && currAllocRecord == Hop(startRecord, d, n)
        invariant Search(recs, startRecord, 1) == Search(recs, startRecord, d)
        decreases n - d
      {
        if ram[mainMemoryStart + currAllocRecord] == 0 {
          return true;
        }
        currAllocRecord := currAllocRecord + 1;
        if currAllocRecord >= reservedSize {
          currAllocRecord := 0;
        }
        d := d + 1;
      }
      found := false;
    }

    /** pmem_alloc */
    method Alloc() returns (r: Result<u32>)
      requires Valid()
      modifies this`currAllocRecord, ram
      ensures Valid()
      ensures var found := Search(old(Records()), old(currAllocRecord), 1);
        if found.None? then
          r == Panic && currAllocRecord == old(currAllocRecord) && ram[..] == old(ram[..])
        else
          r == Ok(PageOf(found.value)) && currAllocRecord == found.value
          && ram[..] == old(ram[..])[mainMemoryStart + found.value := 1]
      ensures r.Ok? ==> IsPage(r.value) && r.value !in old(UsedPages()) && UsedPages() == old(UsedPages()) + {r.value}
      ensures r.Panic? ==> UsedPages() == old(UsedPages())
      ensures OnlyTable()
      ensures r.Ok? <==> old(Available()) > 0
      ensures r.Ok? ==> Took(r.value) && Available() == old(Available()) - 1
    {
      hide Search, FirstFreeAfter, PagesOf, Marked, Records, AvailableIn;
      ghost var recs := Records();
      NextFit(recs, currAllocRecord);
      TakeOne(recs, currAllocRecord);
      var startRecord := currAllocRecord;
      var found := FindFree(startRecord);
      if found {
        PagesOfMark(recs, allocStart, currAllocRecord, 1);
        Mark(currAllocRecord, 1);
        r := EntryToPtr(currAllocRecord);
      } else {
        r := Panic;
      }
    }

    /** pmem_free: the record of the page that holds ptr, or one past the table for the rest of the page area. */
    method Free(ptr: u32) returns (r: Result<()>)
      requires Valid()
      modifies ram
      ensures r.Ok? <==>
        (allocStart <= ptr <= allocStart + mainMemoryLength && old(ram[mainMemoryStart + (ptr - allocStart) / PAGE]) != 0)
      ensures ram[..] == if r.Ok? then old(ram[..])[mainMemoryStart + (ptr - allocStart) / PAGE := 0] else old(ram[..])
      ensures UsedPages() == if r.Ok? then old(UsedPages()) - {PageOf((ptr - allocStart) / PAGE)} else old(UsedPages())
      ensures IsPage(ptr) ==> (r.Ok? <==> ptr in old(UsedPages())) && UsedPages() == old(UsedPages()) - {ptr}
      ensures IsPage(ptr) ==> OnlyTable()
    {
      hide PagesOf, Marked;
      var entry := PtrToEntry(ptr);
      if entry.Panic? { return Panic; }
      var record := entry.value;
      if ram[mainMemoryStart + record] == 0 {
        if record < reservedSize { PagesOfMark(Records(), allocStart, record, 0); }
        return Panic;
      }
      ClearRecord(record);
      r := Ok(());
    }
  }

  const OrdinaryMap: seq<MmapEntry> := [MmapEntry(0, 0x9_FC00, AVAILABLE), MmapEntry(0x10_0000, 0x7EE_0000, AVAILABLE)]

  lemma OrdinaryRegion(r: Region)
    requires LargestRegion(OrdinaryMap, r)
    ensures r == Region(0x10_0000, 0x7EE_0000)
  {
    assert Usable(OrdinaryMap, 1);
  }

  lemma OrdinaryLayout()
    ensures var t, l := Region(0x12_0000, 0x7EC_0000), Layout(0x12_0000, 0x7EC0, 0x12_8000, 0x7EB_8000);
      Plan(t) == Ok(l) && Sound(t, l)
  {
  }

  /** With 128 MiB of memory and a kernel that ends at 0x120000 booting succeeds. */
  method OrdinaryBoot(pmem: PageAllocator)
    requires pmem.ram.Length == U32 && pmem.currAllocRecord == 0
    modifies pmem, pmem.ram
    ensures pmem.Valid() && pmem.mainMemoryStart == 0x12_0000 && pmem.allocStart == 0x12_8000 && pmem.reservedSize == 0x7EB8
    ensures forall k :: 0 <= k < pmem.reservedSize ==> pmem.Records()[k] == 0
  {
    hide LargestRegion, Plan, Sound;
    pmem.SetMbd(MultibootInfo(0x40, OrdinaryMap), 0x12_0000);
    var booted, region := pmem.Initialize();
    OrdinaryRegion(region);
    OrdinaryLayout();
    pmem.BootValid(Region(0x12_0000, 0x7EC_0000), Layout(0x12_0000, 0x7EC0, 0x12_8000, 0x7EB_8000));
  }
}
