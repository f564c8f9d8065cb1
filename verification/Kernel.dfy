/**
 * The components together over one memory.  Every page in use has at most one owner, so
 * whatever one component does, the others keep their state and the address map stays the identity.
 */
module Kernel {
  import opened Common
  import opened Memory
  import Pmem
  import Ramdisk
  import Fat16
  import Fat16View
  import Fat16Chains
  import Fat16Runs
  import Fat16Names
  import FatVolume
  import Slab
  import SlabHeap
  import Heaps = Malloc
  import Vmem
  import Stdio
  import Mlfq
  import Sched
  import Process
  import Vga

  /** A block of the heap, by its size class and number. */
  datatype Block = Block(slab: nat, entry: nat)

  datatype Component = Tables | Files | Heap | Output | Processes

  class Machine {
    const pmem: Pmem.PageAllocator
    const paging: Vmem.Paging
    const volume: FatVolume.Volume
    const heap: Heaps.KernelHeap
    const out: Stdio.IoBuffer
    const table: Process.ProcessTable
    /** Which component a page in use was given to. */
    ghost var owner: map<nat, Component>

    constructor (pmem: Pmem.PageAllocator, paging: Vmem.Paging, volume: FatVolume.Volume, heap: Heaps.KernelHeap,
        out: Stdio.IoBuffer, table: Process.ProcessTable)
      ensures this.pmem == pmem && this.paging == paging && this.volume == volume
      ensures this.heap == heap && this.out == out && this.table == table && owner == map[]
    {
      this.pmem, this.paging, this.volume, this.heap, this.out, this.table := pmem, paging, volume, heap, out, table;
      owner := map[];
    }

    /** All components share one allocator, and no two of them share an object. */
    ghost predicate Wired() {
      && paging.pmem == pmem && paging.ram == pmem.ram
      && volume.disk.pmem == pmem && volume.disk.ram == pmem.ram
      && heap.pmem == pmem && out.pmem == pmem && out.ram == pmem.ram && table.pmem == pmem
      && HeapArrays() !! TableArrays() && pmem.ram !in HeapArrays() && pmem.ram !in TableArrays()
      && out.screen.vidmem !in HeapArrays() && out.screen.vidmem !in TableArrays() && out.screen.vidmem != pmem.ram
    }

    ghost function HeapArrays(): set<object> {
      (set s | s in heap.slabs :: s.entries as object) + (set s | s in heap.slabs :: s.pages as object)
    }

    ghost function TableArrays(): set<object> {
      {table.processes as object, table.sched.procList as object, table.sched.heads as object}
    }

    ghost predicate OwnedBy(p: nat, c: Component)
      reads `owner
    {
      p in owner && owner[p] == c
    }

    ghost function PagesGiven(c: Component): set<nat>
      reads `owner
    {
      set p | p in owner && owner[p] == c
    }

    ghost predicate TablesReady()
      reads `owner, paging, pmem, pmem.ram, paging.pmem, paging.pmem.ram, paging.ram
    {
      paging.Valid() && forall p: nat :: paging.Owns(p) ==> OwnedBy(p, Tables)
    }

    ghost predicate FilesReady()
      reads `owner, volume.disk, volume.disk.ram, volume.disk.pmem, volume.disk.pmem.ram
    {
      volume.Ready() && forall p: nat :: p in volume.disk.Owned() ==> OwnedBy(p, Files)
    }

    ghost predicate HeapReady()
      reads `owner, heap.pmem, heap.pmem.ram, heap.slabs, set s | s in heap.slabs :: s.entries, set s | s in heap.slabs :: s.pages
    {
      heap.Valid() && SlabHeap.PagesIn(heap.State(), PagesGiven(Heap))
    }

    ghost predicate OutputReady()
      reads `owner, out, out.ram, out.pmem, out.pmem.ram, out.screen, out.screen.vidmem
    {
      out.Valid() && (out.isInit ==> OwnedBy(out.bAddr, Output))
    }

    ghost predicate ProcessesReady()
      reads `owner, table.processes, table.sched, table.sched.procList, table.sched.heads, table.pmem, table.pmem.ram
    {
      && table.Valid()
      && forall i :: 0 <= i < Mlfq.MAX_PROCESSES && table.processes[i].memoryStart != 0 ==>
           OwnedBy(table.processes[i].memoryStart, Processes)
    }

    /** The components are wired to one allocator, and only pages in use have owners. */
    ghost predicate Consistent()
      reads `owner, pmem, pmem.ram
    {
      Wired() && pmem.Valid() && owner.Keys <= pmem.UsedPages()
    }

    ghost predicate Valid()
      reads this, pmem, pmem.ram, paging, paging.pmem, paging.pmem.ram, paging.ram,
        volume.disk, volume.disk.ram, volume.disk.pmem, volume.disk.pmem.ram,
        heap.pmem, heap.pmem.ram, heap.slabs, set s | s in heap.slabs :: s.entries, set s | s in heap.slabs :: s.pages,
        out, out.ram, out.pmem, out.pmem.ram, out.screen, out.screen.vidmem,
        table.processes, table.sched, table.sched.procList, table.sched.heads, table.pmem, table.pmem.ram
    {
      Consistent() && TablesReady() && FilesReady() && HeapReady() && OutputReady() && ProcessesReady()
    }

    lemma Parts()
      requires Valid()
      ensures Consistent() && TablesReady() && FilesReady() && HeapReady() && OutputReady() && ProcessesReady()
    {
      hide TablesReady, FilesReady, HeapReady, OutputReady, ProcessesReady;
    }

    lemma HeapArraysAre()
      ensures forall k :: 0 <= k < |heap.slabs| ==>
        heap.slabs[k].entries as object in HeapArrays() && heap.slabs[k].pages as object in HeapArrays()
    {
    }

    lemma Assemble()
      requires Consistent() && TablesReady() && FilesReady() && HeapReady() && OutputReady() && ProcessesReady()
      ensures Valid()
    {
      hide TablesReady, FilesReady, HeapReady, OutputReady, ProcessesReady;
    }

    // ----- what a component keeps while another one works --------------------------------

    /** The pages of c, and who owns them, are as they were. */
    twostate predicate PagesKept(c: Component)
      reads this, pmem, pmem.ram
    {
      && Wired() && pmem.Grown()
      && forall p: nat :: old(OwnedBy(p, c)) ==> OwnedBy(p, c) && SamePage(old(pmem.ram[..]), pmem.ram[..], p)
    }

    /** No page lost its owner. */
    twostate predicate OwnersKept()
      reads this
    {
      forall d: Component, p: nat :: old(OwnedBy(p, d)) ==> OwnedBy(p, d)
    }

    /** As long as pages in use keep their bytes, every component's pages do. */
    twostate lemma TakingKeeps()
      requires old(Consistent()) && pmem.Grown() && pmem.KeepsPages() && OwnersKept()
      ensures pmem.Valid() && forall d :: PagesKept(d)
    {
      hide Pmem.PagesOf;
    }

    twostate lemma TablesKept()
      requires old(TablesReady()) && PagesKept(Tables) && unchanged(paging)
      ensures TablesReady()
    {
      hide Pmem.PagesOf, Vmem.Mapped;
      paging.Kept();
    }

    twostate lemma FilesKept()
      requires old(FilesReady()) && PagesKept(Files) && unchanged(volume.disk)
      ensures FilesReady()
    {
      hide Pmem.PagesOf, Ramdisk.FlatOf, Ramdisk.Pointers, Ramdisk.Disk.Owned;
      volume.disk.Kept();
    }

    twostate lemma HeapKept()
      requires old(HeapReady()) && PagesKept(Heap)
      requires forall k :: 0 <= k < |heap.slabs| ==>
        unchanged(heap.slabs[k]) && unchanged(heap.slabs[k].entries) && unchanged(heap.slabs[k].pages)
      ensures HeapReady() && heap.State() == old(heap.State())
    {
      hide Pmem.PagesOf, SlabHeap.Valid;
      heap.Kept();
      assert old(PagesGiven(Heap)) <= PagesGiven(Heap) by {
        forall p: nat | p in old(PagesGiven(Heap)) ensures p in PagesGiven(Heap) { assert old(OwnedBy(p, Heap)); }
      }
    }

    twostate lemma OutputKept()
      requires old(OutputReady()) && PagesKept(Output) && unchanged(out) && unchanged(out.screen) && unchanged(out.screen.vidmem)
      ensures OutputReady() && out.Pending() == old(out.Pending())
    {
      hide Pmem.PagesOf, Stdio.Ring;
      out.Kept();
    }

    twostate lemma ProcessesKept()
      requires old(ProcessesReady()) && PagesKept(Processes)
      requires unchanged(table.processes) && unchanged(table.sched)
      requires unchanged(table.sched.procList) && unchanged(table.sched.heads)
      ensures ProcessesReady()
    {
      hide Pmem.PagesOf, Mlfq.Valid;
      table.Kept();
    }

    /** Note pages just taken, none of which had an owner. */
    ghost method Give(pages: set<nat>, c: Component)
      requires pages !! owner.Keys
      modifies `owner
      ensures forall p: nat, d: Component :: OwnedBy(p, d) <==> old(OwnedBy(p, d)) || (p in pages && d == c)
      ensures OwnersKept() && owner.Keys == old(owner.Keys) + pages
      ensures pages <= PagesGiven(c) && forall d :: old(PagesGiven(d)) <= PagesGiven(d)
    {
      owner := owner + (map p | p in pages :: c);
    }

    // ----- booting -------------------------------------------------------------------------

    /** The heap and the output buffer, which are initialised on first use, are in step; the others need not be yet. */
    ghost predicate Idle()
      reads `owner, pmem, pmem.ram, heap.pmem, heap.pmem.ram, heap.slabs,
        set s | s in heap.slabs :: s.entries, set s | s in heap.slabs :: s.pages,
        out, out.ram, out.pmem, out.pmem.ram, out.screen, out.screen.vidmem
    {
      Consistent() && HeapReady() && OutputReady()
    }

    lemma StartsIdle()
      requires Wired() && pmem.Valid() && owner == map[]
      requires heap.Valid() && heap.State() == SlabHeap.Initial && out.Valid() && !out.isInit
      ensures Idle()
    {
      hide Pmem.PagesOf, SlabHeap.Valid, Stdio.IoBuffer.Valid;
    }

    twostate lemma IdleKept()
      requires old(Idle()) && Consistent() && PagesKept(Heap) && PagesKept(Output)
      requires unchanged(out) && unchanged(out.screen) && unchanged(out.screen.vidmem)
      requires forall k :: 0 <= k < |heap.slabs| ==>
        unchanged(heap.slabs[k]) && unchanged(heap.slabs[k].entries) && unchanged(heap.slabs[k].pages)
      ensures Idle() && heap.State() == old(heap.State()) && out.Pending() == old(out.Pending())
    {
      hide PagesKept, HeapReady, OutputReady, Consistent;
      HeapKept();
      OutputKept();
    }

    /** What is printed while booting, before or between the steps below, disturbs none of them. */
    method PrintIdle(message: seq<byte>) returns (r: Result<()>)
      requires Idle() && 0 !in message
      modifies `owner, out, pmem.ram, pmem`currAllocRecord, out.screen, out.screen.vidmem
      ensures r.Ok? <==> CanPrint(old(out.isInit), old(pmem.Available()), |old(out.Pending())| + |message|)
      ensures r.Ok? ==> Idle() && heap.State() == old(heap.State()) && out.Sent() == old(out.Sent()) + Stdio.Text(message)
      ensures r.Ok? ==> out.isInit && pmem.Available() == old(pmem.Available()) - PrintPages(old(out.isInit))
      ensures r.Ok? && old(TablesReady()) ==> TablesReady()
      ensures r.Ok? && old(FilesReady()) ==> FilesReady()
      ensures r.Ok? && old(volume.disk.Valid()) && volume.disk.blockSize == 0 ==> volume.disk.Valid()
    {
      hide Pmem.AvailableIn, Stdio.IoBuffer.Valid, Stdio.IoBuffer.Sent, Stdio.IoBuffer.Pending;
      hide OnlyOutput, OwnersKept, PagesKept, TablesReady, FilesReady, HeapReady, OutputReady, Pmem.PagesOf, Vga.Screen.Valid;
      r := Place(message);
      if r.Panic? { return; }
      PrintKeeps();
      HeapArraysAre();
      HeapKept();
      if old(TablesReady()) { TablesKept(); }
      if old(FilesReady()) { FilesKept(); }
      if old(volume.disk.Valid()) && volume.disk.blockSize == 0 { UnmountedKept(); }
    }

    /** An unmounted disk has no pages to lose. */
    twostate lemma UnmountedKept()
      requires old(volume.disk.Valid()) && unchanged(volume.disk) && volume.disk.blockSize == 0
      requires Wired() && pmem.Grown()
      ensures volume.disk.Valid()
    {
      hide Pmem.PagesOf;
      volume.disk.Kept();
    }

    /** vmem_init */
    method MapMemory() returns (r: Result<()>)
      requires Idle() && volume.disk.Valid() && volume.disk.blockSize == 0
      modifies `owner, paging, pmem.ram, pmem`currAllocRecord
      ensures r.Ok? <==> old(pmem.Available()) >= 1 + Vmem.ENTRIES
      ensures r.Ok? ==> Idle() && TablesReady() && volume.disk.Valid() && out.Pending() == old(out.Pending())
      ensures r.Ok? ==> pmem.Available() == old(pmem.Available()) - (1 + Vmem.ENTRIES)
    {
      hide Pmem.PagesOf, Pmem.AvailableIn, Vmem.Mapped, Vmem.Translate, HeapReady, OutputReady, PagesKept;
      r := paging.Init();
      if r.Panic? { return; }
      Give(pmem.UsedPages() - old(pmem.UsedPages()), Tables);
      UsedPagesKept();
      TakingKeeps();
      HeapArraysAre();
      IdleKept();
      UnmountedKept();
    }

    twostate lemma UsedPagesKept()
      requires old(pmem.Valid())
      requires forall p :: p in old(pmem.UsedPages()) && old(pmem.IsPage(p)) ==> SamePage(old(pmem.ram[..]), pmem.ram[..], p)
      ensures pmem.KeepsPages()
    {
      hide Pmem.PagesOf;
      forall p: nat | p in old(pmem.UsedPages()) ensures old(pmem.IsPage(p)) {
        pmem.UsedWasPage(p);
      }
    }

    /** ramdisk_fat16_init */
    method MountVolume(bootRecord: Fat16.sector, stack: seq<byte>) returns (r: Result<()>)
      requires Idle() && TablesReady() && volume.disk.Valid() && volume.disk.blockSize == 0 && |stack| == 508
      modifies `owner, volume.disk, pmem.ram, pmem`currAllocRecord
      ensures r.Ok? <==> bootRecord[510] == 0x55 && bootRecord[511] == 0xAA && old(pmem.Available()) >= 1025
      ensures r.Ok? ==> Idle() && TablesReady() && FilesReady() && Fat16Runs.Formatted(volume.Fs())
      ensures r.Ok? ==> FatVolume.Laid(volume.disk.flat, bootRecord, stack)
      ensures r.Ok? ==> out.Pending() == old(out.Pending())
      ensures r.Ok? ==> pmem.Available() == old(pmem.Available()) - 1025
    {
      hide Pmem.PagesOf, Pmem.AvailableIn, HeapReady, OutputReady, TablesReady, PagesKept, FatVolume.Laid;
      hide Ramdisk.FlatOf, Ramdisk.Pointers, Ramdisk.Disk.Owned, Fat16Runs.Formatted, Fat16View.View;
      r := volume.Init(bootRecord, stack);
      if r.Panic? { return; }
      Give(volume.disk.Owned(), Files);
      TakingKeeps();
      HeapArraysAre();
      IdleKept();
      TablesKept();
    }

    /** process_init and sched_init */
    method StartTable() returns (r: Result<()>)
      requires Idle() && TablesReady() && FilesReady()
      requires table.processes.Length == Mlfq.MAX_PROCESSES && table.sched.Valid() && table.sched.current == None && table.Separate()
      modifies `owner, table.processes, pmem.ram, pmem`currAllocRecord, table.sched`state, table.sched.heads
      ensures r.Ok? <==> old(pmem.Available()) > 0
      ensures r.Ok? ==> Valid() && out.Pending() == old(out.Pending())
      ensures r.Ok? ==> pmem.Available() == old(pmem.Available()) - 1
    {
      hide Pmem.PagesOf, Pmem.AvailableIn, Process.ProcessTable.Valid, HeapReady, OutputReady, TablesReady, FilesReady, PagesKept;
      r := table.Boot();
      if r.Panic? { return; }
      table.Basics();
      Give(pmem.UsedPages() - old(pmem.UsedPages()), Processes);
      pmem.TableKeepsPages();
      TakingKeeps();
      HeapArraysAre();
      IdleKept();
      TablesKept();
      FilesKept();
      Assemble();
    }

    /** The pages booting takes: directory and tables, pointer page and disk, idle process, and the output buffer on first use. */
    function BootPages(printed: bool): (n: nat)
      ensures n == if printed then 2051 else 2052
    {
      (1 + Vmem.ENTRIES) + (1 + Fat16View.DISK_SIZE / PAGE) + 1 + PrintPages(printed)
    }

    /**
     * The initialisations of kernel_init that concern these components, in its order, with whatever
     * is printed before each of them; standard output may already be in use.
     */
    method Boot(bootRecord: Fat16.sector, stack: seq<byte>, notes: seq<seq<byte>>) returns (r: Result<()>)
      requires Idle() && volume.disk.Valid() && volume.disk.blockSize == 0 && |stack| == 508
      requires table.processes.Length == Mlfq.MAX_PROCESSES && table.sched.Valid() && table.sched.current == None && table.Separate()
      requires |notes| == 3 && 0 !in notes[0] && 0 !in notes[1] && 0 !in notes[2]
      modifies `owner, paging, volume.disk, pmem.ram, pmem`currAllocRecord, out, out.screen, out.screen.vidmem
      modifies table.processes, table.sched`state, table.sched.heads
      ensures r.Ok? ==> bootRecord[510] == 0x55 && bootRecord[511] == 0xAA && old(pmem.Available()) >= BootPages(old(out.isInit))
      ensures out.autoflush && bootRecord[510] == 0x55 && bootRecord[511] == 0xAA && old(pmem.Available()) >= BootPages(old(out.isInit)) ==> r.Ok?
      ensures r.Ok? ==> Valid() && Fat16Runs.Formatted(volume.Fs()) && FatVolume.Laid(volume.disk.flat, bootRecord, stack)
    {
      hide Pmem.PagesOf, Pmem.AvailableIn, Valid, TablesReady, FilesReady, HeapReady, OutputReady, Fat16Runs.Formatted, Fat16View.View, Mlfq.Valid;
      hide Idle, FatVolume.Laid, Stdio.IoBuffer.Valid, Stdio.IoBuffer.Sent, Stdio.IoBuffer.Pending, Ramdisk.Disk.Valid, Sched.Scheduler.Valid;
      hide Pmem.PageAllocator.Available, Process.ProcessTable.Separate;
      r := PrintIdle(notes[0]);
      if r.Panic? { return; }
      r := MapMemory();
      if r.Panic? { return; }
      r := PrintIdle(notes[1]);
      if r.Panic? { return; }
      r := MountVolume(bootRecord, stack);
      if r.Panic? { return; }
      r := PrintIdle(notes[2]);
      if r.Panic? { return; }
      r := StartTable();
    }

    // ----- what runs afterwards --------------------------------------------------------------

    /** The heap's part of malloc, with the page it takes noted as its own. */
    method TakeBlock(size: u32) returns (r: Result<u32>, ghost i: nat, ghost page: nat)
      requires Consistent() && HeapReady()
      modifies `owner, heap.slabs, set s | s in heap.slabs :: s.entries, set s | s in heap.slabs :: s.pages,
        pmem.ram, pmem`currAllocRecord
      ensures var k := SlabHeap.ClassOf(size);
        && (r.Ok? <==> k < Slab.SLAB_COUNT && Slab.Serves(k, old(heap.State())[k], old(pmem.NextPage())))
        && (r.Ok? ==> SlabHeap.Allowed(old(heap.State()), SlabHeap.MallocCall(size, page)))
        && (r.Ok? ==> (i, heap.State()) == SlabHeap.Malloc(old(heap.State()), k, page))
        && (r.Ok? ==> SlabHeap.EntryOf(heap.State(), k, i) && r.value == Slab.Addr(k, heap.State()[k].pages, i))
      ensures r.Ok? ==> HeapReady() && Consistent() && pmem.Grown() && pmem.OnlyTable() && OwnersKept()
      ensures r.Ok? && Slab.NeedsPage(old(heap.State())[SlabHeap.ClassOf(size)]) ==> pmem.Took(page)
    {
      hide Pmem.PageAllocator.Grown, Pmem.PageAllocator.UsedPages, Pmem.PageAllocator.NextPage, Pmem.PageAllocator.Took;
      hide Heaps.KernelHeap.Valid, SlabHeap.Valid, SlabHeap.Malloc, SlabHeap.PagesIn, OwnedBy, PagesGiven, Slab.Serves, Slab.Addr;
      ghost var h := heap.State();
      heap.StateValid();
      r, i, page := heap.Malloc(size);
      if r.Panic? { return; }
      GrownBasics();
      Give(if Slab.NeedsPage(h[SlabHeap.ClassOf(size)]) then {page} else {}, Heap);
      SlabHeap.MallocPages(h, SlabHeap.ClassOf(size), page, old(PagesGiven(Heap)), PagesGiven(Heap));
    }

    twostate lemma GrownBasics()
      requires pmem.Grown()
      ensures pmem.Valid()
    {
    }

    /** malloc: served exactly when the heap alone would serve it, and no page of any component changes. */
    method Malloc(size: u32) returns (r: Result<u32>, ghost i: nat, ghost page: nat)
      requires Valid()
      modifies `owner, heap.slabs, set s | s in heap.slabs :: s.entries, set s | s in heap.slabs :: s.pages,
        pmem.ram, pmem`currAllocRecord
      ensures var k := SlabHeap.ClassOf(size);
        && (r.Ok? <==> k < Slab.SLAB_COUNT && Slab.Serves(k, old(heap.State())[k], old(pmem.NextPage())))
        && (r.Ok? ==> SlabHeap.Allowed(old(heap.State()), SlabHeap.MallocCall(size, page)))
        && (r.Ok? ==> (i, heap.State()) == SlabHeap.Malloc(old(heap.State()), k, page))
        && (r.Ok? ==> SlabHeap.EntryOf(heap.State(), k, i) && r.value == Slab.Addr(k, heap.State()[k].pages, i))
      ensures r.Ok? ==> Valid() && out.Pending() == old(out.Pending()) && forall d :: PagesKept(d)
      ensures r.Ok? && Slab.NeedsPage(old(heap.State())[SlabHeap.ClassOf(size)]) ==> pmem.Took(page)
    {
      hide Pmem.PagesOf, Pmem.PageAllocator.OnlyTable, Pmem.PageAllocator.NextPage, Pmem.PageAllocator.Took, OwnersKept;
      hide SlabHeap.Malloc, SlabHeap.Allowed, SlabHeap.EntryOf, Slab.Serves, Slab.Addr, Slab.NeedsPage;
      hide Valid, PagesKept, TablesReady, FilesReady, HeapReady, OutputReady, ProcessesReady;
      Parts();
      r, i, page := TakeBlock(size);
      if r.Panic? { return; }
      pmem.TableKeepsPages();
      TakingKeeps();
      TablesKept();
      FilesKept();
      OutputKept();
      ProcessesKept();
      Assemble();
    }

    /**
     * free, of any address: it panics exactly when no entry has it, releases the block itself when it
     * is live, and keeps the machine in step exactly in that case.
     */
    method Free(ptr: u32) returns (r: Result<()>, ghost k: nat, ghost i: nat)
      requires Valid()
      modifies heap.slabs, set s | s in heap.slabs :: s.entries
      ensures r.Ok? <==> exists l: nat :: heap.HasAddress(old(heap.State()), l, ptr)
      ensures forall l: nat, j: nat ::
        SlabHeap.Live(old(heap.State()), l, j) && Slab.Addr(l, old(heap.State())[l].pages, j) == ptr ==> r.Ok? && l == k && j == i
      ensures r.Panic? ==> Valid() && heap.State() == old(heap.State())
      ensures r.Ok? ==> SlabHeap.EntryOf(old(heap.State()), k, i) && Slab.Addr(k, old(heap.State())[k].pages, i) == ptr
      ensures r.Ok? ==> heap.State() == SlabHeap.Free(old(heap.State()), k, i)
      ensures r.Ok? ==> (Valid() <==> SlabHeap.Live(old(heap.State()), k, i))
    {
      hide Pmem.PagesOf, Heaps.KernelHeap.Valid, Heaps.KernelHeap.HasAddress, SlabHeap.Valid, SlabHeap.Free, SlabHeap.PagesIn;
      hide SlabHeap.Live, Slab.Addr, Valid, PagesKept, TablesReady, FilesReady, OutputReady, ProcessesReady;
      Parts();
      ghost var h := heap.State();
      r, k, i := heap.Free(ptr);
      if r.Ok? {
        SlabHeap.FreePages(h, k, i, PagesGiven(Heap));
        if heap.Valid() { Assemble(); }
        if Valid() { Parts(); }
      } else {
        Assemble();
      }
    }

    /** A transfer to or from the disk changes no page of another component. */
    twostate lemma TransferKeeps()
      requires old(Consistent() && FilesReady()) && Wired() && volume.Ready() && volume.disk.OnlyBlocks() && unchanged(pmem) && owner == old(owner)
      requires volume.disk.pages == old(volume.disk.pages) && volume.disk.blockPointers == old(volume.disk.blockPointers)
      ensures Consistent() && pmem.Available() == old(pmem.Available()) && FilesReady()
      ensures forall d :: d != Files ==> PagesKept(d)
    {
      hide Pmem.PagesOf, Ramdisk.FlatOf, Ramdisk.Pointers, Ramdisk.Disk.InBlocks, TablesReady, HeapReady, OutputReady, ProcessesReady;
      volume.disk.Confined();
      volume.disk.OwnedAre();
      forall d: Component, p: nat | d != Files && OwnedBy(p, d)
        ensures SamePage(old(pmem.ram[..]), pmem.ram[..], p)
      {
        assert p !in volume.disk.Owned();
        pmem.UsedIsPage(p);
        pmem.PageInMemory(p);
      }
    }

    /** The array of a caller is none of the machine's own. */
    ghost predicate Foreign(data: array<byte>) {
      data != pmem.ram && data != out.screen.vidmem && data as object !in HeapArrays() + TableArrays()
    }

    /** Writing a file. */
    method WriteFile(name: seq<byte>, data: array<byte>, size: u32, junk: seq<byte>) returns (r: Result<nat>)
      requires Valid() && Foreign(data) && size <= data.Length && |junk| == 13
      modifies pmem.ram, volume.disk`flat, data
      ensures pmem.Available() == old(pmem.Available()) && forall d :: d != Files ==> PagesKept(d)
      ensures Valid() && data[..] == old(data[..]) && heap.State() == old(heap.State()) && out.Pending() == old(out.Pending())
      ensures var spec := Fat16.FileWrite(old(volume.Fs()), name, old(data[..size]), junk);
        if spec.Panic? then r.Panic? else r == Ok(spec.value.code) && volume.Fs() == spec.value.fs
      ensures r.Ok? && r.value != Fat16.SUCCESS ==> volume.disk.flat == old(volume.disk.flat)
      ensures r == Ok(Fat16.SUCCESS) ==>
        Fat16View.WrittenOnly(old(volume.disk.flat), volume.disk.flat, Fat16.FreeSlot(old(volume.Fs()).root))
      ensures r.Ok? ==> volume.disk.flat[..512] == old(volume.disk.flat[..512])
    {
      hide Pmem.PagesOf, Pmem.AvailableIn, Ramdisk.FlatOf, Ramdisk.Pointers, Ramdisk.Disk.InBlocks, Fat16.FileWrite, Fat16View.View;
      hide Fat16View.WrittenOnly, Fat16.FreeSlot;
      hide Valid, PagesKept, TablesReady, HeapReady, OutputReady, ProcessesReady;
      Parts();
      ghost var flat, slot := volume.disk.flat, Fat16.FreeSlot(volume.Fs().root);
      r := volume.FileWrite(name, data, size, junk);
      if r == Ok(Fat16.SUCCESS) { Fat16View.BootSectorKept(flat, volume.disk.flat, slot); }
      TransferKeeps();
      TablesKept();
      HeapArraysAre();
      HeapKept();
      OutputKept();
      ProcessesKept();
      Assemble();
    }

    /** Reading a file. */
    method ReadFile(name: seq<byte>, buffer: array<byte>, index: u16) returns (code: nat)
      requires Valid() && Foreign(buffer) && buffer.Length >= Fat16.SECTOR
      modifies pmem.ram, volume.disk`flat, buffer
      ensures unchanged(pmem.ram)
      ensures Valid() && volume.Fs() == old(volume.Fs()) && heap.State() == old(heap.State()) && out.Pending() == old(out.Pending())
      ensures code == Fat16.FileRead(volume.Fs(), name, index).0
      ensures var found := Fat16.FileRead(volume.Fs(), name, index).1; found.Some? ==> buffer[..Fat16.SECTOR] == found.value
    {
      hide Pmem.PagesOf, Ramdisk.FlatOf, Ramdisk.Pointers, Ramdisk.Disk.InBlocks, Fat16.FileRead, Fat16View.View, Fat16.Exists;
      hide Valid, PagesKept, TablesReady, HeapReady, OutputReady, ProcessesReady;
      Parts();
      code := volume.FileRead(name, buffer, index);
      TransferKeeps();
      TablesKept();
      HeapArraysAre();
      HeapKept();
      OutputKept();
      ProcessesKept();
      Assemble();
    }

    /** Nothing in memory but the record table and the page of the buffer has changed. */
    twostate predicate OnlyOutput()
      reads pmem, pmem.ram, out
    {
      forall a: nat :: a < pmem.ram.Length && !pmem.InTable(a) && !(out.bAddr <= a < out.bAddr + PAGE) ==>
        pmem.ram[a] == old(pmem.ram[a])
    }

    /** Output changes the record table and the page of the buffer. */
    twostate lemma PrintKeeps()
      requires old(Consistent()) && Wired() && pmem.Grown() && OwnersKept() && OwnedBy(out.bAddr, Output)
      requires out.isInit && out.Valid() && OnlyOutput()
      ensures pmem.Valid() && OutputReady() && forall d :: d != Output ==> PagesKept(d)
    {
      hide Pmem.PagesOf, TablesReady, FilesReady, HeapReady, ProcessesReady;
      forall d: Component, p: nat | d != Output && old(OwnedBy(p, d))
        ensures SamePage(old(pmem.ram[..]), pmem.ram[..], p)
      {
        pmem.UsedIsPage(p);
        pmem.PageInMemory(p);
        forall a | p <= a < p + PAGE ensures pmem.ram[a] == old(pmem.ram[a]) { PagesApart(p, out.bAddr, a - p); }
      }
    }

    /** Whether a message can be placed: a page on first use, and room unless the buffer flushes itself. */
    ghost predicate CanPrint(printed: bool, available: nat, pending: nat) {
      (printed || available > 0) && (out.autoflush || pending < PAGE)
    }

    /** The pages output takes. */
    function PrintPages(printed: bool): nat {
      if printed then 0 else 1
    }

    /** The buffer's part of output, with the page it takes noted as its own. */
    method Place(message: seq<byte>) returns (r: Result<()>)
      requires Consistent() && OutputReady() && 0 !in message
      modifies `owner, out, pmem.ram, pmem`currAllocRecord, out.screen, out.screen.vidmem
      ensures r.Ok? <==> CanPrint(old(out.isInit), old(pmem.Available()), |old(out.Pending())| + |message|)
      ensures r.Ok? ==> out.Valid() && out.isInit && OwnedBy(out.bAddr, Output)
      ensures r.Ok? ==> Consistent() && pmem.Grown() && OwnersKept() && OnlyOutput()
      ensures r.Ok? ==> pmem.Available() == old(pmem.Available()) - PrintPages(old(out.isInit))
      ensures r.Ok? ==> out.Sent() == old(out.Sent()) + Stdio.Text(message)
    {
      hide Pmem.PagesOf, Pmem.PageAllocator.UsedPages, Pmem.PageAllocator.Available;
      hide Stdio.IoBuffer.Valid, Stdio.IoBuffer.Sent, Stdio.IoBuffer.Pending, HeapArrays, TableArrays;
      r := out.Place(message);
      if r.Panic? { return; }
      out.PendingBound();
      Give(if old(out.isInit) then {} else {out.bAddr as nat}, Output);
    }

    /** Standard output. */
    method Print(message: seq<byte>) returns (r: Result<()>)
      requires Valid() && 0 !in message
      modifies `owner, out, pmem.ram, pmem`currAllocRecord, out.screen, out.screen.vidmem
      ensures r.Ok? <==> CanPrint(old(out.isInit), old(pmem.Available()), |old(out.Pending())| + |message|)
      ensures r.Ok? ==> Valid() && heap.State() == old(heap.State()) && out.Sent() == old(out.Sent()) + Stdio.Text(message)
      ensures r.Ok? ==> forall d :: d != Output ==> PagesKept(d)
    {
      hide Pmem.PagesOf, Pmem.PageAllocator.Available, Stdio.IoBuffer.Valid, Stdio.IoBuffer.Sent, Stdio.IoBuffer.Pending;
      hide Pmem.PageAllocator.Grown, OwnersKept, OnlyOutput, OwnedBy;
      hide Valid, PagesKept, TablesReady, FilesReady, HeapReady, OutputReady, ProcessesReady;
      Parts();
      r := Place(message);
      if r.Panic? { return; }
      PrintKeeps();
      TablesKept();
      FilesKept();
      HeapArraysAre();
      HeapKept();
      ProcessesKept();
      Assemble();
    }

    /** stdlib_flushstdio */
    method Flush()
      requires Valid()
      modifies out`tailPtr, out.screen, out.screen.vidmem
      ensures Valid() && out.Pending() == [] && out.Sent() == old(out.Sent()) && heap.State() == old(heap.State())
    {
      hide Pmem.PagesOf, Stdio.IoBuffer.Valid, Stdio.IoBuffer.Sent, Stdio.IoBuffer.Pending;
      hide Valid, TablesReady, FilesReady, HeapReady, ProcessesReady;
      Parts();
      out.FlushToScreen();
      Assemble();
    }

    /** The process table's part of starting a program, with the page it takes noted as its own. */
    method Launch(fileName: seq<byte>) returns (r: Result<nat>, ghost picked: Option<nat>)
      requires Consistent() && ProcessesReady() && FilesReady()
      modifies `owner, table.processes, pmem.ram, pmem`currAllocRecord, table.sched, table.sched.procList, table.sched.heads
      modifies volume.disk`flat
      ensures picked == if Fat16.Exists(old(volume.Fs()).root, fileName) != 0 then Mlfq.FreePid(old(table.sched.state)) else None
      ensures r.Ok? <==> picked == None || old(pmem.Available()) > 0
      ensures r.Ok? ==> ProcessesReady() && Consistent() && pmem.Grown() && pmem.KeepsPages() && OwnersKept() && unchanged(volume.disk)
      ensures r.Ok? && picked == None ==> r.value == 0 && table.sched.state == old(table.sched.state)
      ensures r.Ok? && picked.Some? ==>
        && r.value == 1 && table.sched.state == Mlfq.Arrive(old(table.sched.state), picked.value)
        && old(pmem.NextPage()) == Some(table.processes[picked.value].memoryStart)
        && table.HoldsFile(volume, fileName, table.processes[picked.value].memoryStart)
    {
      hide Pmem.PagesOf, Pmem.PageAllocator.Available, Pmem.PageAllocator.NextPage, Process.ProcessTable.Valid, Mlfq.Arrive;
      hide HeapArrays, TableArrays, Fat16.Exists, Fat16View.View, Process.ProcessTable.HoldsFile, Ramdisk.Disk.Owned, Ramdisk.Disk.Valid;
      hide Mlfq.FreePid, Fat16View.SectorAt, Fat16.Head;
      table.Basics();
      r, picked := table.Execve(volume, fileName);
      if r.Panic? { return; }
      table.Basics();
      Give(if picked.Some? then {table.processes[picked.value].memoryStart as nat} else {}, Processes);
    }

    /**
     * process_execve: the least free pid is scheduled on a page of its own that holds the head sector
     * of the file the name finds, or nothing is; no page of any component changes.
     */
    method StartProgram(fileName: seq<byte>) returns (r: Result<nat>, ghost picked: Option<nat>)
      requires Valid()
      modifies `owner, table.processes, pmem.ram, pmem`currAllocRecord, table.sched, table.sched.procList, table.sched.heads
      modifies volume.disk`flat
      ensures picked == if Fat16.Exists(old(volume.Fs()).root, fileName) != 0 then Mlfq.FreePid(old(table.sched.state)) else None
      ensures r.Ok? <==> picked == None || old(pmem.Available()) > 0
      ensures r.Ok? && picked == None ==> r.value == 0 && table.sched.state == old(table.sched.state)
      ensures r.Ok? ==> Valid() && volume.Fs() == old(volume.Fs()) && forall d :: PagesKept(d)
      ensures r.Ok? ==> heap.State() == old(heap.State()) && out.Pending() == old(out.Pending())
      ensures r.Ok? && picked.Some? ==>
        && r.value == 1 && table.sched.state == Mlfq.Arrive(old(table.sched.state), picked.value)
        && old(pmem.NextPage()) == Some(table.processes[picked.value].memoryStart)
        && table.HoldsFile(volume, fileName, table.processes[picked.value].memoryStart)
    {
      hide Pmem.PagesOf, Pmem.PageAllocator.Available, Pmem.PageAllocator.NextPage, Pmem.PageAllocator.KeepsPages, OwnersKept;
      hide Mlfq.Arrive, Fat16.Exists, Fat16View.View, Process.ProcessTable.HoldsFile;
      hide Valid, PagesKept, TablesReady, HeapReady, OutputReady, ProcessesReady;
      Parts();
      r, picked := Launch(fileName);
      if r.Panic? { return; }
      TakingKeeps();
      TablesKept();
      FilesKept();
      HeapArraysAre();
      HeapKept();
      OutputKept();
      Assemble();
    }

    /** A timer tick. */
    method Tick()
      requires Valid()
      modifies table.sched, table.sched.procList, table.sched.heads
      ensures Valid() && table.sched.state == Mlfq.Update(old(table.sched.state))
      ensures heap.State() == old(heap.State()) && out.Pending() == old(out.Pending())
    {
      hide Pmem.PagesOf, Process.ProcessTable.Slot, Mlfq.Valid, Mlfq.Update;
      hide Valid, TablesReady, FilesReady, HeapReady, OutputReady;
      Parts();
      table.Tick();
      Assemble();
    }

    /** vmem_get_phys_addr on the kernel's directory, whatever has happened since boot. */
    method Translated(v: u32) returns (r: Result<u32>)
      requires Valid()
      ensures r == Ok(v)
    {
      hide FilesReady, HeapReady, OutputReady, ProcessesReady, Vmem.Mapped, Vmem.Translate;
      paging.Identity(v);
      r := paging.GetPhysAddr(paging.pageDirectory, v);
    }

    // ----- what a program may do with its block ------------------------------------------------

    /** Filling the block cannot reach a page of another component. */
    ghost predicate Harmless(k: nat, i: nat)
      requires SlabHeap.EntryOf(heap.State(), k, i)
      reads `owner, heap.slabs
    {
      SlabHeap.LastOfPage(k, i) ==>
        forall p: nat, d :: OwnedBy(p, d) && d != Heap ==> p != SlabHeap.PageFor(k, heap.State()[k].pages, i) + PAGE
    }

    /** With these bytes at address a, the pages of all other components are as they are. */
    ghost predicate Spares(a: nat, data: seq<byte>)
      requires a + |data| <= pmem.ram.Length
      reads `owner, pmem.ram
    {
      forall p: nat, d :: OwnedBy(p, d) && d != Heap ==> SamePage(pmem.ram[..], Ramdisk.Splice(pmem.ram[..], a, data), p)
    }

    /** A block meets a page of another component exactly when it is the last of its page and that is the next page. */
    lemma BlockMeets(k: nat, i: nat, p: nat, d: Component)
      requires Consistent() && HeapReady() && SlabHeap.EntryOf(heap.State(), k, i) && OwnedBy(p, d) && d != Heap
      ensures p + PAGE < U32
      ensures var a := Slab.Addr(k, heap.State()[k].pages, i);
        a < p + PAGE && p < a + Slab.SIZES[k] <==>
          SlabHeap.LastOfPage(k, i) && p == SlabHeap.PageFor(k, heap.State()[k].pages, i) + PAGE
    {
      hide Pmem.PagesOf, Slab.Capacity, Slab.PerPage, SlabHeap.Valid, SlabHeap.PagesIn, Heaps.KernelHeap.Valid;
      var h := heap.State();
      heap.StateValid();
      SlabHeap.InOwnPage(h, k, i);
      SlabHeap.InHeapExact(h, k, i);
      SlabHeap.PageOfEntry(h, k, i, k, i);
      BlockPageIsHeaps(k, i);
      pmem.UsedIsPage(p);
      pmem.PageInMemory(p);
    }

    lemma BlockPageIsHeaps(k: nat, i: nat)
      requires HeapReady() && SlabHeap.EntryOf(heap.State(), k, i)
      ensures OwnedBy(SlabHeap.PageFor(k, heap.State()[k].pages, i), Heap)
    {
      hide Heaps.KernelHeap.Valid, Slab.Capacity;
      Slab.EntryPage(k, |heap.State()[k].pages|, i);
      assert SlabHeap.PageAt(heap.State(), k, i / Slab.PerPage(k));
    }

    /** So every way of filling it leaves the other components' pages alone if and only if the next page is not one of theirs. */
    lemma FillExact(k: nat, i: nat)
      requires Consistent() && HeapReady() && SlabHeap.EntryOf(heap.State(), k, i)
      ensures var a := Slab.Addr(k, heap.State()[k].pages, i);
        && a + Slab.SIZES[k] <= U32
        && ((forall data: seq<byte> :: |data| == Slab.SIZES[k] ==> Spares(a, data)) <==> Harmless(k, i))
    {
      hide Heaps.KernelHeap.Valid, SlabHeap.Valid, SlabHeap.PagesIn, Slab.Addr, Slab.Capacity, SlabHeap.LastOfPage, Pmem.PagesOf;
      var a, n := Slab.Addr(k, heap.State()[k].pages, i), Slab.SIZES[k];
      heap.StateValid();
      SlabHeap.InHeapExact(heap.State(), k, i);
      SlabHeap.InOwnPage(heap.State(), k, i);
      if Harmless(k, i) {
        forall data: seq<byte>, p: nat, d | |data| == n && OwnedBy(p, d) && d != Heap
          ensures SamePage(pmem.ram[..], Ramdisk.Splice(pmem.ram[..], a, data), p)
        {
          BlockMeets(k, i, p, d);
        }
      } else {
        var p := SlabHeap.PageFor(k, heap.State()[k].pages, i) + PAGE;
        var d :| OwnedBy(p, d) && d != Heap;
        var other: byte := if pmem.ram[a] == 0 then 1 else 0;
        var data: seq<byte> := seq(n, _ => other);
        assert Ramdisk.Splice(pmem.ram[..], a, data)[a] == other;
        assert !SamePage(pmem.ram[..], Ramdisk.Splice(pmem.ram[..], a, data), p);
        assert !Spares(a, data);
      }
    }

    /** A program that fills its block; the machine stays in step when the next page is not another component's. */
    method FillBlock(addr: u32, data: seq<byte>, ghost k: nat, ghost i: nat)
      requires Valid() && SlabHeap.Live(heap.State(), k, i)
      requires addr == Slab.Addr(k, heap.State()[k].pages, i) && |data| == Slab.SIZES[k]
      modifies pmem.ram
      ensures addr + |data| <= U32 && pmem.ram[..] == Ramdisk.Splice(old(pmem.ram[..]), addr, data)
      ensures Harmless(k, i) ==> Valid() && out.Pending() == old(out.Pending()) && forall d :: d != Heap ==> PagesKept(d)
    {
      hide Pmem.PagesOf, Slab.Addr, Slab.Capacity, Valid, PagesKept, Spares, Harmless;
      Parts();
      LiveIsEntry(k, i);
      FillExact(k, i);
      AboveTable(k, i);
      HeapArraysAre();
      WriteBytes(addr, data);
      FillKeeps(Block(k, i));
    }

    lemma LiveIsEntry(k: nat, i: nat)
      requires SlabHeap.Live(heap.State(), k, i)
      ensures SlabHeap.EntryOf(heap.State(), k, i)
    {
    }

    method WriteBytes(addr: nat, data: seq<byte>)
      requires addr + |data| <= pmem.ram.Length
      modifies pmem.ram
      ensures pmem.ram[..] == Ramdisk.Splice(old(pmem.ram[..]), addr, data)
    {
      hide Ramdisk.Splice;
      ghost var m := pmem.ram[..];
      Ramdisk.SpliceNone(m, addr, data[..0]);
      for j := 0 to |data|
        invariant pmem.ram[..] == Ramdisk.Splice(m, addr, data[0..j])
      {
        Ramdisk.SpliceMore(m, addr, data, 0, j);
        pmem.ram[addr + j] := data[j];
      }
      assert data[0..|data|] == data;
    }

    lemma AboveTable(k: nat, i: nat)
      requires Consistent() && HeapReady() && SlabHeap.EntryOf(heap.State(), k, i)
      ensures pmem.mainMemoryStart + pmem.reservedSize <= Slab.Addr(k, heap.State()[k].pages, i)
    {
      hide Pmem.PagesOf, Heaps.KernelHeap.Valid, SlabHeap.Valid, Slab.Capacity;
      heap.StateValid();
      BlockPageIsHeaps(k, i);
      SlabHeap.InOwnPage(heap.State(), k, i);
      pmem.UsedIsPage(SlabHeap.PageFor(k, heap.State()[k].pages, i));
      pmem.PageInMemory(SlabHeap.PageFor(k, heap.State()[k].pages, i));
    }

    /** Nothing in memory but the block has changed. */
    twostate predicate OnlyBlock(k: nat, i: nat)
      requires SlabHeap.EntryOf(heap.State(), k, i)
      reads heap.slabs, pmem.ram
    {
      var a := Slab.Addr(k, heap.State()[k].pages, i);
      forall x: nat :: x < pmem.ram.Length && !(a <= x < a + Slab.SIZES[k]) ==> pmem.ram[x] == old(pmem.ram[x])
    }

    /** Writing into a block leaves the record table alone, and the others' pages when it is harmless. */
    twostate lemma BlockKeeps(b: Block)
      requires old(Consistent()) && old(HeapReady()) && unchanged(this) && unchanged(pmem)
      requires forall l :: 0 <= l < |heap.slabs| ==>
        unchanged(heap.slabs[l]) && unchanged(heap.slabs[l].entries) && unchanged(heap.slabs[l].pages)
      requires old(SlabHeap.EntryOf(heap.State(), b.slab, b.entry)) && SlabHeap.EntryOf(heap.State(), b.slab, b.entry) && OnlyBlock(b.slab, b.entry) && Harmless(b.slab, b.entry)
      requires pmem.mainMemoryStart + pmem.reservedSize <= Slab.Addr(b.slab, heap.State()[b.slab].pages, b.entry)
      ensures Consistent() && HeapReady() && heap.State() == old(heap.State()) && forall d :: d != Heap ==> PagesKept(d)
    {
      hide Pmem.PagesOf, SlabHeap.Valid, SlabHeap.PagesIn, Slab.Addr, Slab.Capacity, SlabHeap.LastOfPage;
      assert heap.State() == old(heap.State());
      assert pmem.Records() == old(pmem.Records());
      heap.Kept();
      forall p: nat, d | d != Heap && OwnedBy(p, d) ensures SamePage(old(pmem.ram[..]), pmem.ram[..], p) {
        BlockMeets(b.slab, b.entry, p, d);
      }
    }

    /** So the machine stays in step. */
    twostate lemma FillKeeps(b: Block)
      requires old(Valid()) && unchanged(this) && unchanged(pmem)
      requires unchanged(paging) && unchanged(volume.disk) && unchanged(out) && unchanged(out.screen) && unchanged(out.screen.vidmem)
      requires unchanged(table.processes) && unchanged(table.sched)
      requires unchanged(table.sched.procList) && unchanged(table.sched.heads)
      requires forall l :: 0 <= l < |heap.slabs| ==>
        unchanged(heap.slabs[l]) && unchanged(heap.slabs[l].entries) && unchanged(heap.slabs[l].pages)
      requires old(SlabHeap.EntryOf(heap.State(), b.slab, b.entry)) && SlabHeap.EntryOf(heap.State(), b.slab, b.entry) && OnlyBlock(b.slab, b.entry)
      requires pmem.mainMemoryStart + pmem.reservedSize <= Slab.Addr(b.slab, heap.State()[b.slab].pages, b.entry)
      ensures Harmless(b.slab, b.entry) ==> Valid() && out.Pending() == old(out.Pending()) && forall d :: d != Heap ==> PagesKept(d)
    {
      hide PagesKept, TablesReady, FilesReady, HeapReady, OutputReady, ProcessesReady, Harmless, SlabHeap.EntryOf, OnlyBlock;
      if Harmless(b.slab, b.entry) {
        BlockKeeps(b);
        TablesKept();
        FilesKept();
        OutputKept();
        ProcessesKept();
        Assemble();
      }
    }

    /** The two records after the cursor are free. */
    ghost predicate TwoPagesAhead()
      requires pmem.Valid()
      reads pmem, pmem.ram
    {
      var c := pmem.currAllocRecord;
      c + 2 < pmem.reservedSize && pmem.Records()[c + 1] == 0 && pmem.Records()[c + 2] == 0
    }

    lemma AheadFits()
      requires pmem.Valid() && TwoPagesAhead()
      ensures var c := pmem.currAllocRecord;
        && pmem.NextPage() == Some(pmem.PageOf(c + 1)) && pmem.Available() > 0
        && pmem.PageOf(c + 2) == pmem.PageOf(c + 1) + PAGE && pmem.PageOf(c + 1) + 2 * PAGE < U32
    {
      hide Pmem.AvailableIn;
      var recs, c := pmem.Records(), pmem.currAllocRecord;
      Pmem.Consecutive(recs, c);
      Pmem.TakeOne(recs, c);
      pmem.EntryRoundTrip(c + 2, 0);
      pmem.PageInMemory(pmem.PageOf(c + 2));
    }

    lemma ServedAhead(s: Slab.Slab)
      requires pmem.Valid() && TwoPagesAhead() && Slab.NeedsPage(s)
      ensures Slab.Serves(0, s, pmem.NextPage())
    {
      AheadFits();
    }

    /** After the first of them has been taken the second is next. */
    twostate lemma SecondIsNext(page: nat)
      requires old(pmem.Valid()) && pmem.Valid() && old(TwoPagesAhead()) && pmem.Took(page)
      requires pmem.allocStart == old(pmem.allocStart)
      ensures page == pmem.PageOf(old(pmem.currAllocRecord) + 1)
      ensures pmem.NextPage() == Some(page + PAGE) && pmem.Available() > 0
    {
      hide Pmem.AvailableIn;
      Pmem.Consecutive(old(pmem.Records()), old(pmem.currAllocRecord));
      Pmem.TakeOne(pmem.Records(), pmem.currAllocRecord);
    }

    /**
     * Nothing keeps the page behind a block for the heap: when two pages in a row are free, malloc(4096)
     * returns the very address of the page that the next program is loaded into.
     */
    method ProgramUnderBlock(fileName: seq<byte>) returns (block: u32, ghost i: nat, ghost pid: nat)
      requires Valid() && TwoPagesAhead() && Slab.NeedsPage(heap.State()[0])
      requires Fat16.Exists(volume.Fs().root, fileName) != 0 && Mlfq.FreePid(table.sched.state).Some?
      modifies `owner, heap.slabs, set s | s in heap.slabs :: s.entries, set s | s in heap.slabs :: s.pages
      modifies pmem.ram, pmem`currAllocRecord, table.processes, table.sched, table.sched.procList, table.sched.heads
      modifies volume.disk`flat
      ensures Valid() && SlabHeap.Live(heap.State(), 0, i) && block == Slab.Addr(0, heap.State()[0].pages, i)
      ensures pid < Mlfq.MAX_PROCESSES && block == table.processes[pid].memoryStart && !Harmless(0, i)
    {
      hide Pmem.PagesOf, Pmem.PageAllocator.NextPage, Pmem.PageAllocator.Available, Pmem.PageAllocator.Took, PagesKept;
      hide Fat16.Exists, Fat16View.View, Mlfq.FreePid, Mlfq.Arrive, SlabHeap.Malloc, SlabHeap.Valid, Heaps.KernelHeap.Valid;
      hide Valid, TablesReady, FilesReady, OutputReady, Process.ProcessTable.HoldsFile, Slab.Addr, Slab.Capacity, Slab.CountFree;
      Parts();
      heap.StateValid();
      ghost var h := heap.State();
      ServedAhead(h[0]);
      var r;
      ghost var page;
      r, i, page := Malloc(4096);
      Parts();
      SecondIsNext(page);
      BehindPage(h, page);
      block := r.value;
      var started;
      ghost var picked;
      started, picked := StartProgram(fileName);
      pid := picked.value;
      Parts();
      ProgramPageOwned(pid);
    }

    lemma BehindPage(h: seq<Slab.Slab>, page: nat)
      requires SlabHeap.Valid(h) && Slab.NeedsPage(h[0]) && SlabHeap.Offers(h, 0, page)
      ensures var (i, g) := SlabHeap.Malloc(h, 0, page);
        && SlabHeap.Live(g, 0, i) && SlabHeap.LastOfPage(0, i)
        && SlabHeap.PageFor(0, g[0].pages, i) == page && Slab.Addr(0, g[0].pages, i) == page + PAGE
    {
      hide SlabHeap.Offers, SlabHeap.DistinctPages, SlabHeap.Malloc, Slab.Addr, SlabHeap.Share, SlabHeap.Spills;
      SlabHeap.MallocApart(h, 0, page);
      SlabHeap.NewPageBlock(h, page);
    }

    lemma ProgramPageOwned(pid: nat)
      requires ProcessesReady() && pid < Mlfq.MAX_PROCESSES && table.processes.Length == Mlfq.MAX_PROCESSES
      ensures table.processes[pid].memoryStart != 0 ==> OwnedBy(table.processes[pid].memoryStart, Processes)
    {
    }

    /** The sector a page holds is the one a read of the name returns. */
    lemma HeldIsRead(fileName: seq<byte>, p: nat)
      requires Valid() && |volume.disk.flat| == Fat16View.DISK_SIZE && table.HoldsFile(volume, fileName, p)
      ensures var found := Fat16.FileRead(volume.Fs(), fileName, 0).1;
        found.Some? ==> p + PAGE <= pmem.ram.Length && pmem.ram[p..p + Fat16.SECTOR] == found.value
    {
      hide Fat16.Exists, Fat16.Head, Fat16View.SectorAt, TablesReady, FilesReady, HeapReady, OutputReady, ProcessesReady;
    }

    lemma Basics()
      requires Valid()
      ensures |volume.disk.flat| == Fat16View.DISK_SIZE && pmem.Valid() && table.processes.Length == Mlfq.MAX_PROCESSES
    {
      hide TablesReady, HeapReady, OutputReady;
      table.Basics();
    }

    /** The page of process pid starts with this sector. */
    ghost predicate Runs(pid: nat, s: Fat16.sector)
      reads table.processes, pmem.ram
    {
      && pid < table.processes.Length
      && var p := table.processes[pid].memoryStart;
        p + PAGE <= pmem.ram.Length && pmem.ram[p..p + Fat16.SECTOR] == s
    }

    /** On a freshly formatted volume, once "A" has been written, starting "B" runs the program of "A". */
    method OtherProgramStarts(data: array<byte>, size: u32, junk: seq<byte>) returns (ghost pid: nat, ghost s: Fat16.sector)
      requires Valid() && Foreign(data) && size <= data.Length && |junk| == 13 && Fat16Runs.Formatted(volume.Fs())
      requires Fat16Chains.FreeCount(volume.Fs().fat) >= Fat16Chains.ClustersFor(size)
      requires Mlfq.FreePid(table.sched.state).Some? && pmem.Available() > 0
      modifies `owner, table.processes, pmem.ram, pmem`currAllocRecord, table.sched, table.sched.procList, table.sched.heads
      modifies volume.disk`flat, data
      ensures Valid() && |volume.disk.flat| == Fat16View.DISK_SIZE
      ensures Fat16.FileRead(volume.Fs(), [0x41], 0) == (Fat16.SUCCESS, Some(s)) && Runs(pid, s)
    {
      hide Pmem.PagesOf, Pmem.PageAllocator.Available, Fat16.FileWrite, Fat16.FileRead, Fat16View.View, Fat16.FirstFree;
      hide Fat16Chains.Kept, Fat16Chains.FreeCount, Fat16Chains.ClustersFor, Fat16.Exists, Process.ProcessTable.HoldsFile;
      hide Mlfq.FreePid, Mlfq.Arrive, PagesKept, Valid, Fat16Runs.Formatted, Foreign;
      Basics();
      ghost var a: Fat16Runs.FileOp := Fat16Runs.Write([0x41], data[..size], junk);
      ghost var b: Fat16Runs.FileOp := Fat16Runs.Write([0x42], [], junk);
      Fat16Names.OtherNameAnswers(volume.Fs(), a, b);
      var written := WriteFile([0x41], data, size, junk);
      Basics();
      s := Fat16.FileRead(volume.Fs(), [0x41], 0).1.value;
      ReadFinds([0x42]);
      var started;
      ghost var picked;
      started, picked := StartProgram([0x42]);
      pid := picked.value;
      Basics();
      HeldIsRead([0x42], table.processes[pid].memoryStart);
    }

    lemma ReadFinds(name: seq<byte>)
      requires |volume.disk.flat| == Fat16View.DISK_SIZE
      ensures Fat16.FileRead(volume.Fs(), name, 0).0 == Fat16.SUCCESS <==> Fat16.Exists(volume.Fs().root, name) != 0
    {
    }
  }

  /** The zeroed static data of the slab allocator. */
  method NewSlabs(pmem: Pmem.PageAllocator) returns (slabs: seq<Heaps.Store>)
    ensures |slabs| == Slab.SLAB_COUNT
    ensures forall k :: 0 <= k < Slab.SLAB_COUNT ==>
      slabs[k].Valid() && slabs[k].k == k && slabs[k].state == Slab.Slab([], 0, []) && Heaps.Apart(slabs[k], pmem)
    ensures forall k, l :: 0 <= k < l < Slab.SLAB_COUNT ==> Heaps.Disjoint(slabs[k], slabs[l])
    ensures forall s :: s in slabs ==> fresh(s.entries) && fresh(s.pages)
  {
    slabs := [];
    for k := 0 to Slab.SLAB_COUNT
      invariant |slabs| == k
      invariant forall i :: 0 <= i < k ==>
        slabs[i].Valid() && slabs[i].k == i && slabs[i].state == Slab.Slab([], 0, []) && Heaps.Apart(slabs[i], pmem)
      invariant forall i, l :: 0 <= i < l < k ==> Heaps.Disjoint(slabs[i], slabs[l])
      invariant forall s :: s in slabs ==> fresh(s.entries) && fresh(s.pages)
    {
      var store := new Heaps.Store(k);
      slabs := slabs + [store];
    }
  }

  method NewHeap(pmem: Pmem.PageAllocator) returns (heap: Heaps.KernelHeap)
    requires pmem.Valid()
    ensures heap.Valid() && heap.pmem == pmem && heap.State() == SlabHeap.Initial
    ensures forall s :: s in heap.slabs ==> fresh(s.entries) && fresh(s.pages)
  {
    var slabs := NewSlabs(pmem);
    heap := new Heaps.KernelHeap(pmem, slabs);
  }

  /** The process table and the scheduler. */
  method NewTable(pmem: Pmem.PageAllocator) returns (table: Process.ProcessTable)
    ensures table.processes.Length == Mlfq.MAX_PROCESSES && table.pmem == pmem
    ensures table.sched.Valid() && table.sched.current == None && table.Separate()
    ensures fresh(table.processes) && fresh(table.sched.procList) && fresh(table.sched.heads)
  {
    hide Mlfq.Valid;
    var sched := new Sched.Scheduler();
    table := new Process.ProcessTable(sched, pmem);
  }

  /** The static data of all components over a booted page allocator, ready for Boot. */
  method NewMachine(pmem: Pmem.PageAllocator, screen: Vga.Screen, autoflush: bool) returns (m: Machine)
    requires pmem.Valid() && screen.Valid() && screen.vidmem != pmem.ram
    ensures m.pmem == pmem && m.Idle() && m.volume.disk.Valid() && m.volume.disk.blockSize == 0
    ensures m.table.processes.Length == Mlfq.MAX_PROCESSES
    ensures m.table.sched.Valid() && m.table.sched.current == None && m.table.Separate()
  {
    hide Pmem.PagesOf, Pmem.PageAllocator.UsedPages, SlabHeap.Valid, Heaps.KernelHeap.Valid, Heaps.Store.Valid;
    hide Stdio.IoBuffer.Valid, Ramdisk.Disk.Valid, Sched.Scheduler.Valid, Vga.Screen.Valid, SlabHeap.Initial, Machine.Idle;
    var table := NewTable(pmem);
    var heap := NewHeap(pmem);
    var out := new Stdio.IoBuffer(pmem, screen, autoflush);
    var paging := new Vmem.Paging(pmem);
    var disk := new Ramdisk.Disk(pmem);
    var volume := new FatVolume.Volume(disk);
    m := new Machine(pmem, paging, volume, heap, out, table);
    m.StartsIdle();
  }
}
