/**
 * The process table and its agreement with the scheduler: a slot is in use exactly
 * when its pid is on one of the scheduler's lists, and owns a page of its own.
 */
module Process {
  import opened Common
  import opened Memory
  import Pmem
  import Fat16
  import Fat16View
  import FatVolume
  import Ramdisk
  import opened Mlfq
  import opened Sched

  const PROCESS_NAME_SIZE: nat := 16

  datatype ProcState = UNUSED | RUNNABLE | RUNNING | INTERRUPTABLE_SLEEP | UNINTERRUPTABLE_SLEEP | STOPPED | ZOMBIE

  /** struct process; the registers are all zero while a process has not run. */
  datatype Proc = Proc(name: seq<byte>, pid: nat, cpuTimeMs: u32, currentPriority: u32, state: ProcState,
    killed: bool, registers: seq<u32>, memoryStart: u32, memorySize: nat)

  const Blank: Proc := Proc([], 0, 0, 0, UNUSED, false, seq(8, _ => 0), 0, 0)

  /** What strcpy leaves in the name field. */
  function StoredName(name: seq<byte>): seq<byte> {
    if |name| < PROCESS_NAME_SIZE then name else name[..PROCESS_NAME_SIZE]
  }

  /** A name that fills its field puts the terminator on the low byte of the pid behind it. */
  function StoredPid(name: seq<byte>, pid: nat): nat {
    if |name| < PROCESS_NAME_SIZE then pid else pid / 0x100 * 0x100
  }

  class ProcessTable {
    const processes: array<Proc>
    const sched: Scheduler
    const pmem: Pmem.PageAllocator

    ghost predicate Slot(i: int)
      requires pmem.Ready()
      reads processes, sched, pmem, pmem.ram
    {
      && 0 <= i < MAX_PROCESSES && processes.Length == MAX_PROCESSES
      && processes[i].pid == (if processes[i].state == UNUSED then i else StoredPid(processes[i].name, i))
      && (processes[i].state == UNUSED <==> processes[i].memoryStart == 0)
      && (processes[i].memoryStart != 0 ==> processes[i].memoryStart in pmem.UsedPages())
      && (i > 0 ==> (processes[i].state != UNUSED <==> Scheduled(sched.state, i)))
    }

    ghost predicate OwnPages()
      reads processes
    {
      forall i, j :: 0 <= i < j < processes.Length && processes[i].memoryStart != 0
        ==> processes[i].memoryStart != processes[j].memoryStart
    }

    /** Slots in use, scheduled pids and owned pages agree. */
    ghost predicate Valid()
      reads processes, sched, sched.procList, sched.heads, pmem, pmem.ram
    {
      && processes.Length == MAX_PROCESSES
      && sched.Valid() && pmem.Valid()
      && processes[0].state != UNUSED
      && (forall i :: 0 <= i < MAX_PROCESSES ==> Slot(i))
      && OwnPages()
      && Separate()
    }

    ghost predicate Separate()
      reads processes
    {
      && processes as object != pmem.ram && sched.procList as object != pmem.ram && sched.heads as object != pmem.ram
      && processes as object != sched.procList && processes as object != sched.heads
    }

    constructor (sched: Scheduler, pmem: Pmem.PageAllocator)
      ensures processes.Length == MAX_PROCESSES && this.sched == sched && this.pmem == pmem && fresh(processes)
    {
      processes := new Proc[MAX_PROCESSES](_ => Blank);
      this.sched := sched;
      this.pmem := pmem;
    }

    lemma Basics()
      requires Valid()
      ensures pmem.Valid() && processes.Length == MAX_PROCESSES
    {
    }

    /** The table depends on memory only through the pages in use. */
    twostate lemma Kept()
      requires old(Valid()) && pmem.Grown()
      requires unchanged(processes) && unchanged(sched) && unchanged(sched.procList) && unchanged(sched.heads)
      ensures Valid()
    {
      hide Pmem.PagesOf, Mlfq.Valid;
      forall i | 0 <= i < MAX_PROCESSES ensures Slot(i) { assert old(Slot(i)); }
    }

    /** process_get */
    method Get(pid: int) returns (p: Option<nat>)
      requires processes.Length == MAX_PROCESSES
      ensures p == if 0 < pid < MAX_PROCESSES && processes[pid].state != UNUSED then Some(pid) else None
    {
      if pid <= 0 || pid >= MAX_PROCESSES { return None; }
      if processes[pid].state == UNUSED { return None; }
      p := Some(pid);
    }

    /** process_get_next_free_pid: the least unused pid above 0, or -1. */
    method GetNextFreePid() returns (pid: int)
      requires processes.Length == MAX_PROCESSES
      ensures pid == -1 || (0 < pid < MAX_PROCESSES && processes[pid].state == UNUSED)
      ensures forall i :: 0 < i < MAX_PROCESSES && (pid == -1 || i < pid) ==> processes[i].state != UNUSED
    {
      for i := 1 to MAX_PROCESSES
        invariant forall k :: 0 < k < i ==> processes[k].state != UNUSED
      {
        if processes[i].state == UNUSED { return i; }
      }
      pid := -1;
    }

    /** strcpy of a name, without its terminator, into the name field of a process. */
    static method CopyName(p: Proc, name: seq<byte>) returns (q: Proc)
      ensures q == p.(name := StoredName(name), pid := StoredPid(name, p.pid))
      ensures q.name == name[..Min(|name|, 16)] && q.pid == if |name| < 16 then p.pid else p.pid - p.pid % 256
    {
      var stored := [];
      while |stored| < PROCESS_NAME_SIZE
        invariant |stored| <= |name| && |stored| <= PROCESS_NAME_SIZE && stored == name[..|stored|]
      {
        if |stored| == |name| { break; }
        stored := stored + [name[|stored|]];
      }
      q := p.(name := stored);
      if |stored| == PROCESS_NAME_SIZE {
        q := q.(pid := q.pid - q.pid % 0x100);
      }
    }

    /** The assignments of process_init_process that come before the page. */
    static method BlankOut(p: Proc, name: seq<byte>) returns (q: Proc)
      ensures q == p.(name := StoredName(name), pid := StoredPid(name, p.pid),
        currentPriority := 0, cpuTimeMs := 0, killed := false, registers := Blank.registers)
    {
      q := CopyName(p, name);
      q := q.(currentPriority := 0, cpuTimeMs := 0, killed := false);
      q := q.(registers := Blank.registers);
    }

    /** process_init_process: blank the slot and give it a page. */
    method InitProcess(name: seq<byte>, pid: nat) returns (r: Result<()>)
      requires processes.Length == MAX_PROCESSES && pid < MAX_PROCESSES && pmem.Valid()
      requires processes as object != pmem.ram
      modifies processes, pmem.ram, pmem`currAllocRecord
      ensures pmem.Valid() && pmem.OnlyTable()
      ensures forall i :: 0 <= i < MAX_PROCESSES && i != pid ==> processes[i] == old(processes[i])
      ensures processes[pid].state == old(processes[pid]).state
      ensures r.Ok? ==> processes[pid] == Proc(StoredName(name), StoredPid(name, old(processes[pid]).pid), 0, 0, old(processes[pid]).state, false,
        Blank.registers, processes[pid].memoryStart, PAGE)
      ensures r.Ok? ==> processes[pid].memoryStart != 0 && processes[pid].memoryStart !in old(pmem.UsedPages())
      ensures r.Ok? ==> pmem.UsedPages() == old(pmem.UsedPages()) + {processes[pid].memoryStart}
      ensures r.Ok? ==> old(pmem.NextPage()) == Some(processes[pid].memoryStart)
      ensures r.Ok? <==> old(processes[pid]).memoryStart == 0 && old(pmem.Available()) > 0
      ensures r.Ok? ==> pmem.Available() == old(pmem.Available()) - 1
    {
      hide Pmem.PagesOf, Pmem.Search, Pmem.AvailableIn, Pmem.PageAllocator.NextPage;
      var blanked := BlankOut(processes[pid], name);
      processes[pid] := blanked;
      if processes[pid].memoryStart != 0 { return Panic; }
      var alloc := pmem.Alloc();
      if alloc.Panic? { return Panic; }
      pmem.PageInMemory(alloc.value);
      processes[pid] := processes[pid].(memoryStart := alloc.value);
      processes[pid] := processes[pid].(memorySize := PAGE);
      r := Ok(());
    }

    /** The loop of process_init. */
    method BlankAll()
      requires processes.Length == MAX_PROCESSES
      modifies processes
      ensures forall k :: 0 <= k < MAX_PROCESSES ==>
        processes[k].pid == k && processes[k].state == UNUSED && processes[k].memoryStart == 0
    {
      for i := 0 to MAX_PROCESSES
        invariant forall k :: 0 <= k < i ==>
          processes[k].pid == k && processes[k].state == UNUSED && processes[k].memoryStart == 0
      {
        processes[i] := processes[i].(pid := i);
        processes[i] := processes[i].(state := UNUSED);
        processes[i] := processes[i].(memoryStart := 0);
      }
    }

    /** process_init and sched_init, in the order the kernel calls them. */
    method Boot() returns (r: Result<()>)
      requires processes.Length == MAX_PROCESSES && sched.Valid() && sched.current == None && pmem.Valid() && Separate()
      modifies processes, pmem.ram, pmem`currAllocRecord, sched`state, sched.heads
      ensures r.Ok? ==> Valid() && Size(sched.state) == 0
      ensures r.Ok? ==> processes[0].name == [73, 100, 108, 101] && processes[0].state == RUNNABLE
      ensures r.Ok? ==> forall i :: 0 < i < MAX_PROCESSES ==> processes[i].state == UNUSED && processes[i].pid == i
      ensures r.Ok? ==> forall i :: 0 <= i < MAX_PROCESSES && processes[i].memoryStart != 0 ==>
        processes[i].memoryStart in pmem.UsedPages() - old(pmem.UsedPages())
      ensures r.Ok? ==> pmem.OnlyTable() && old(pmem.UsedPages()) <= pmem.UsedPages()
      ensures r.Ok? <==> old(pmem.Available()) > 0
      ensures r.Ok? ==> pmem.Available() == old(pmem.Available()) - 1
    {
      hide Pmem.PagesOf, Pmem.AvailableIn, Pmem.PageAllocator.NextPage, Pmem.PageAllocator.Valid, Mlfq.Valid, Slot, OwnPages, Valid;
      BlankAll();
      var idle := InitProcess([73, 100, 108, 101], 0);
      if idle.Panic? { return Panic; }
      processes[0] := processes[0].(state := RUNNABLE);
      sched.Init();
      OnlyIdle();
      r := Ok(());
    }

    /** A table with nothing but the idle process agrees with a scheduler that has nothing to run. */
    lemma OnlyIdle()
      requires processes.Length == MAX_PROCESSES && pmem.Valid() && sched.Valid() && Separate()
      requires sched.state.queues == Empty.queues
      requires processes[0].state != UNUSED && processes[0].pid == 0 && processes[0].memoryStart != 0
      requires processes[0].memoryStart in pmem.UsedPages()
      requires forall i :: 0 < i < MAX_PROCESSES ==> processes[i].state == UNUSED && processes[i].pid == i && processes[i].memoryStart == 0
      ensures Valid() && Size(sched.state) == 0
    {
      hide Pmem.PagesOf, Pmem.PageAllocator.UsedPages, Mlfq.Valid, Sched.Scheduler.Valid;
    }

    /** sched_addpid with its check that the process exists. */
    method SchedAddPid(pid: nat) returns (r: Result<()>)
      requires processes.Length == MAX_PROCESSES && sched.Valid() && !Scheduled(sched.state, pid)
      modifies sched, sched.procList, sched.heads
      ensures r.Ok? <==> 0 < pid < MAX_PROCESSES && processes[pid].state != UNUSED
      ensures r.Ok? ==> sched.Valid() && sched.state == Arrive(old(sched.state), pid)
      ensures r.Panic? ==> sched.Valid() && sched.state == old(sched.state)
    {
      var ptr := Get(pid);
      if ptr == None { return Panic; }
      sched.AddPid(pid);
      r := Ok(());
    }

    /** Everything agrees except that slot pid, which has its page, is not yet scheduled. */
    ghost predicate Loaded(pid: nat)
      reads processes, sched, sched.procList, sched.heads, pmem, pmem.ram
    {
      && processes.Length == MAX_PROCESSES && 0 < pid < MAX_PROCESSES
      && sched.Valid() && pmem.Valid() && Separate() && OwnPages()
      && processes[0].state != UNUSED && !Scheduled(sched.state, pid)
      && (forall i :: 0 <= i < MAX_PROCESSES && i != pid ==> Slot(i))
      && processes[pid].pid == StoredPid(processes[pid].name, pid) && processes[pid].memoryStart != 0 && processes[pid].memoryStart in pmem.UsedPages()
    }

    /** The end of process_execve: mark the process runnable and schedule it. */
    method Start(pid: nat, readResult: int)
      requires Loaded(pid)
      modifies processes, sched, sched.procList, sched.heads
      ensures Valid() && sched.state == Arrive(old(sched.state), pid)
      ensures processes[pid] == old(processes[pid]).(state := RUNNABLE)
      ensures forall i :: 0 <= i < MAX_PROCESSES && i != pid ==> processes[i] == old(processes[i])
    {
      hide Pmem.PagesOf, Pmem.Search, Pmem.AvailableIn, Pmem.PageAllocator.NextPage;
      if readResult != 0 {
        processes[pid] := processes[pid].(state := UNUSED);
      }
      processes[pid] := processes[pid].(state := RUNNABLE);
      var added := SchedAddPid(pid);
      if added.Panic? { assert false; }
      forall i | 0 <= i < MAX_PROCESSES ensures Slot(i) {
        if i != pid { assert old(Slot(i)); }
        ArriveKeeps(old(sched.state), pid, i);
      }
    }

    /** Slot and page bookkeeping of a successful process_execve, before scheduling. */
    method Load(name: seq<byte>, pid: nat) returns (r: Result<()>)
      requires Valid() && 0 < pid < MAX_PROCESSES && processes[pid].state == UNUSED
      modifies processes, pmem.ram, pmem`currAllocRecord
      ensures pmem.Valid() && pmem.OnlyTable()
      ensures r.Ok? <==> old(pmem.Available()) > 0
      ensures r.Ok? ==> old(pmem.NextPage()) == Some(processes[pid].memoryStart)
      ensures r.Ok? ==> pmem.UsedPages() == old(pmem.UsedPages()) + {processes[pid].memoryStart}
      ensures r.Ok? ==> Loaded(pid) && processes[pid].name == StoredName(name)
      ensures r.Ok? ==> processes[pid].memoryStart !in old(pmem.UsedPages())
      ensures forall i :: 0 <= i < MAX_PROCESSES && i != pid ==> processes[i] == old(processes[i])
    {
      hide Pmem.PagesOf, Pmem.Search, Pmem.AvailableIn, Pmem.PageAllocator.NextPage, Mlfq.Valid;
      assert Slot(pid);
      r := InitProcess(name, pid);
      if r.Ok? {
        forall i | 0 <= i < MAX_PROCESSES && i != pid && processes[i].memoryStart != 0
          ensures processes[i].memoryStart != processes[pid].memoryStart
        {
          assert old(Slot(i));
        }
        forall i | 0 <= i < MAX_PROCESSES && i != pid ensures Slot(i) { assert old(Slot(i)); }
      }
    }

    /** The least unused slot is the least pid on no list. */
    lemma FreeSlotIsFreePid(pid: int)
      requires Valid()
      requires pid == -1 || (0 < pid < MAX_PROCESSES && processes[pid].state == UNUSED)
      requires forall i :: 0 < i < MAX_PROCESSES && (pid == -1 || i < pid) ==> processes[i].state != UNUSED
      ensures FreePid(sched.state) == if pid == -1 then None else Some(pid)
    {
      forall i | 0 < i < MAX_PROCESSES ensures processes[i].state != UNUSED <==> Scheduled(sched.state, i) { assert Slot(i); }
      FreePidIs(sched.state, if pid == -1 then MAX_PROCESSES else pid);
    }

    /** The volume works on the same memory. */
    ghost predicate Shares(volume: FatVolume.Volume)
      reads volume.disk, volume.disk.ram, volume.disk.pmem, volume.disk.pmem.ram
    {
      volume.Ready() && volume.disk.pmem == pmem && volume.disk.ram == pmem.ram
    }

    /** The page at p holds the head sector of the file that the name finds, if that sector is on the disk. */
    ghost predicate HoldsFile(volume: FatVolume.Volume, fileName: seq<byte>, p: nat)
      requires |volume.disk.flat| == Fat16View.DISK_SIZE
      reads volume.disk, pmem.ram
    {
      var h := Fat16.Head(volume.Fs().root[Fat16.Exists(volume.Fs().root, fileName)]);
      && p + PAGE <= pmem.ram.Length
      && (FatVolume.OnDisk(h) ==> pmem.ram[p..p + Fat16.SECTOR] == Fat16View.SectorAt(volume.disk.flat, h))
    }

    /** Set up the slot and read the file into its page. */
    method LoadProgram(volume: FatVolume.Volume, fileName: seq<byte>, pid: nat) returns (r: Result<nat>)
      requires Valid() && Shares(volume) && 0 < pid < MAX_PROCESSES && processes[pid].state == UNUSED
      requires Fat16.Exists(volume.Fs().root, fileName) != 0
      modifies processes, pmem.ram, pmem`currAllocRecord, volume.disk`flat
      ensures r.Ok? <==> old(pmem.Available()) > 0
      ensures r.Ok? ==> old(pmem.NextPage()) == Some(processes[pid].memoryStart)
      ensures r.Ok? ==> r.value == Fat16.SUCCESS && Loaded(pid) && processes[pid].memoryStart != 0 && processes[pid].name == StoredName(fileName)
      ensures r.Ok? ==> processes[pid].pid == (if |fileName| < PROCESS_NAME_SIZE then pid else 0)
      ensures r.Ok? ==> Shares(volume) && volume.disk.flat == old(volume.disk.flat)
      ensures r.Ok? ==> HoldsFile(volume, fileName, processes[pid].memoryStart)
      ensures r.Ok? ==> pmem.UsedPages() == old(pmem.UsedPages()) + {processes[pid].memoryStart} && pmem.KeepsPages()
      ensures r.Ok? ==> processes[pid].memoryStart !in old(pmem.UsedPages())
      ensures forall i :: 0 <= i < MAX_PROCESSES && i != pid ==> processes[i] == old(processes[i])
    {
      hide Pmem.PagesOf, Pmem.AvailableIn, Pmem.PageAllocator.NextPage, Valid, Slot, Loaded, HoldsFile;
      hide Fat16.Exists, Fat16View.View, Ramdisk.FlatOf, Ramdisk.Pointers, Ramdisk.Disk.Owned, Ramdisk.Distinct;
      Basics();
      volume.disk.OwnedArePages();
      ghost var used, m := pmem.UsedPages(), pmem.ram[..];
      forall q: nat | q in used ensures pmem.IsPage(q) { pmem.UsedIsPage(q); }
      var loaded := Load(fileName, pid);
      if loaded.Panic? { return Panic; }
      LoadedBasics(pid);
      pmem.TableKeepsPages();
      volume.disk.Kept();
      pmem.UsedIsPage(processes[pid].memoryStart);
      pmem.PageInMemory(processes[pid].memoryStart);
      ghost var n := pmem.ram[..];
      var code := ReadProgram(volume, fileName, pid);
      r := Ok(code);
      PagesStillKept(used, m, n, pmem.ram[..], processes[pid].memoryStart);
    }

    lemma LoadedBasics(pid: nat)
      requires Loaded(pid)
      ensures pmem.Valid() && processes.Length == MAX_PROCESSES && pid < MAX_PROCESSES && processes[pid].memoryStart in pmem.UsedPages() && processes[pid].memoryStart != 0
      ensures processes[pid].pid == StoredPid(processes[pid].name, pid)
    {
    }

    /** Reading into page p between memory n and memory o leaves the pages used since memory m as they were. */
    lemma PagesStillKept(used: set<nat>, m: seq<byte>, n: seq<byte>, o: seq<byte>, p: nat)
      requires pmem.Valid() && p !in used && forall q: nat :: q in used ==> pmem.IsPage(q) && SamePage(m, n, q)
      requires OtherPagesSame(n, o, p)
      ensures forall q: nat :: q in used ==> SamePage(m, o, q)
    {
      forall q: nat | q in used ensures SamePage(m, o, q) { pmem.PageInMemory(q); }
    }

    /** Pages other than p are the same in n and o. */
    ghost predicate OtherPagesSame(n: seq<byte>, o: seq<byte>, p: nat) {
      forall q: nat :: Aligned(q) && q != p && q + PAGE <= U32 ==> SamePage(n, o, q)
    }

    lemma SpliceOthers(m: seq<byte>, p: nat, d: seq<byte>)
      requires |m| == U32 && Aligned(p) && p + PAGE <= U32 && |d| <= PAGE
      ensures OtherPagesSame(m, Ramdisk.Splice(m, p, d), p)
    {
    }

    /** The call of fs_file_read in process_execve. */
    method ReadProgram(volume: FatVolume.Volume, fileName: seq<byte>, pid: nat) returns (code: nat)
      requires Loaded(pid) && Shares(volume) && volume.disk.Outside(processes[pid].memoryStart)
      requires processes[pid].memoryStart + PAGE <= U32 && Fat16.Exists(volume.Fs().root, fileName) != 0
      modifies pmem.ram, volume.disk`flat
      ensures code == Fat16.SUCCESS && Loaded(pid) && Shares(volume) && volume.disk.flat == old(volume.disk.flat)
      ensures HoldsFile(volume, fileName, processes[pid].memoryStart)
      ensures pmem.Records() == old(pmem.Records())
      ensures OtherPagesSame(old(pmem.ram[..]), pmem.ram[..], processes[pid].memoryStart)
    {
      hide Pmem.PagesOf, Mlfq.Valid, Fat16.Exists, Fat16View.View, Ramdisk.Disk.Valid, Ramdisk.Disk.Owned, Fat16View.SectorAt;
      var p := processes[pid].memoryStart;
      ghost var h := Fat16.Head(volume.Fs().root[Fat16.Exists(volume.Fs().root, fileName)]);
      if FatVolume.OnDisk(h) { SpliceOthers(pmem.ram[..], p, Fat16View.SectorAt(volume.disk.flat, h)); }
      code := volume.FileReadInto(fileName, p, 0);
      forall i | 0 <= i < MAX_PROCESSES && i != pid ensures Slot(i) { assert old(Slot(i)); }
    }

    /** process_execve */
    method Execve(volume: FatVolume.Volume, fileName: seq<byte>) returns (r: Result<nat>, ghost picked: Option<nat>)
      requires Valid() && Shares(volume)
      modifies processes, pmem.ram, pmem`currAllocRecord, sched, sched.procList, sched.heads, volume.disk`flat
      ensures picked == if Fat16.Exists(old(volume.Fs()).root, fileName) != 0 then FreePid(old(sched.state)) else None
      ensures r.Ok? <==> picked == None || old(pmem.Available()) > 0
      ensures r.Ok? ==> Valid() && Shares(volume) && volume.disk.flat == old(volume.disk.flat)
      ensures r.Ok? ==> pmem.KeepsPages()
      ensures picked == None ==>
        r == Ok(0) && sched.state == old(sched.state) && processes[..] == old(processes[..]) && unchanged(pmem.ram)
      ensures picked.Some? && r.Ok? ==>
        r.value == 1 && sched.state == Arrive(old(sched.state), picked.value)
        && processes[picked.value].state == RUNNABLE && processes[picked.value].name == fileName[..Min(|fileName|, 16)]
        && processes[picked.value].pid == (if |fileName| < 16 then picked.value else 0)
      ensures picked.Some? && r.Ok? ==>
        var p := processes[picked.value].memoryStart;
        && old(pmem.NextPage()) == Some(p) && p !in old(pmem.UsedPages())
        && pmem.UsedPages() == old(pmem.UsedPages()) + {p} && HoldsFile(volume, fileName, p)
      ensures forall i :: 0 <= i < MAX_PROCESSES && picked != Some(i) ==> processes[i] == old(processes[i])
    {
      hide Pmem.PagesOf, Pmem.Search, Pmem.AvailableIn, Pmem.PageAllocator.NextPage, Mlfq.Valid, Arrive, Slot, Valid;
      hide Fat16.Exists, Fat16View.View, HoldsFile, Loaded, Ramdisk.Disk.Valid;
      Basics();
      picked := None;
      ghost var m := pmem.ram[..];
      var slot := volume.FileExists(fileName);
      assert pmem.ram[..] == m;
      Kept();
      pmem.TableKeepsPages();
      if slot == 0 { r := Ok(0); return; }
      var pid := GetNextFreePid();
      FreeSlotIsFreePid(pid);
      if pid <= 0 { r := Ok(0); return; }
      picked := Some(pid);
      var loaded := LoadProgram(volume, fileName, pid);
      if loaded.Panic? { r := Panic; return; }
      if processes[pid].memoryStart == 0 { assert false; }
      Start(pid, loaded.value);
      r := Ok(1);
    }

    /** A timer tick as seen by the process table. */
    method Tick()
      requires Valid()
      modifies sched, sched.procList, sched.heads
      ensures Valid() && sched.state == Update(old(sched.state))
    {
      hide Pmem.PagesOf, Mlfq.Valid, Mlfq.Update;
      sched.Update();
      forall i | 0 <= i < MAX_PROCESSES ensures Slot(i) {
        assert old(Slot(i));
        UpdateKeeps(old(sched.state), i);
      }
    }
  }
}
