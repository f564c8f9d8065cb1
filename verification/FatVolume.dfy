/**
 * The FAT16 driver on the ramdisk.  Every method works through ramdisk transfers and
 * is proved to compute the corresponding function of Fat16.dfy on the volume's view.
 */
module FatVolume {
  import opened Common
  import opened Memory
  import opened Pmem
  import opened Ramdisk
  import opened Fat16
  import opened Fat16Chains
  import opened Fat16View
  import opened Fat16Runs

  lemma FreeFromIs(fat: seq<u16>, i: nat)
    requires i <= |fat| && (forall k :: 0 <= k < i ==> fat[k] != 0) && (i < |fat| ==> fat[i] == 0)
    ensures FreeFrom(fat, 0) == i
  {
  }

  lemma EmptyFromIs(root: seq<slot>, i: nat)
    requires 1 <= i <= |root| && (forall k :: 1 <= k < i ==> root[k][0] != 0) && (i < |root| ==> root[i][0] == 0)
    ensures EmptyFrom(root, 1) == i
  {
  }

  lemma MatchFromIs(root: seq<slot>, native: seq<byte>, i: nat)
    requires 1 <= i <= |root| && |native| == 11
    requires (forall k :: 1 <= k < i ==> !Matches(native, root[k])) && (i < |root| ==> Matches(native, root[i]))
    ensures MatchFrom(root, native, 1) == i
  {
  }

  lemma FullSector(s: sector, d: seq<byte>)
    requires |d| == SECTOR
    ensures Overwrite(s, d) == d
  {
  }

  lemma FirstFreeInRange(fat: seq<u16>)
    requires |fat| == CLUSTERS
    ensures FirstFree(fat) < CLUSTERS
  {
  }

  lemma FirstFreeIsFree(fat: seq<u16>)
    requires FirstFree(fat) != 0
    ensures FirstFree(fat) < |fat| && fat[FirstFree(fat)] == 0
  {
  }

  lemma FatIs(flat: seq<byte>, c: nat)
    requires |flat| == DISK_SIZE && c < CLUSTERS
    ensures View(flat).fat[c] == FatAt(flat, c)
  {
  }

  lemma NothingTaken(f: seq<byte>, c: nat)
    requires |f| == DISK_SIZE
    ensures OnlyTaken(f, f, c)
  {
  }

  /** A cluster found free was free from the start. */
  lemma NextIsFree(f: seq<byte>, g: seq<byte>, c: nat, next: nat)
    requires |f| == |g| == DISK_SIZE && OnlyTaken(f, g, c)
    requires next == FirstFree(View(g).fat) && next != 0
    ensures next < CLUSTERS && FatAt(f, next) == 0
  {
    hide FatAt;
    FirstFreeIsFree(View(g).fat);
    FatIs(g, next);
  }

  /** A cluster taken stays so when its sector is written. */
  lemma TakenKept(f: seq<byte>, g: seq<byte>, c: nat, d: seq<byte>)
    requires |f| == |g| == DISK_SIZE && Taken(f, g, c, c) && |d| <= SECTOR
    ensures c < CLUSTERS && Taken(f, Splice(g, DATA + SECTOR * c, d), c, c)
  {
  }

  lemma NothingLeft(fs: Fs, c: nat, d: seq<byte>)
    requires Fat16.Valid(fs) && c < CLUSTERS && d == []
    ensures fs.(data := fs.data[c := Overwrite(fs.data[c], d)]) == fs
  {
    assert Overwrite(fs.data[c], d) == fs.data[c];
  }

  lemma EmptyNoMatch(native: seq<byte>, e: slot)
    requires |native| == 11 && e[0] == 0
    ensures !Matches(native, e)
  {
  }

  /** What the two FAT writes at the end of formatting leave, seen as a volume. */
  lemma FormatView(flat: seq<byte>, zero: seq<byte>, s: seq<byte>)
    requires |flat| == |zero| == DISK_SIZE && |s| == SECTOR
    requires s[0] == 0xF8 && s[1] == 0xFF && s[2] == 0xFF && s[3] == 0xFF
    requires forall a :: FIRST_FAT <= a < DATA ==> zero[a] == 0
    requires forall a :: DATA <= a < DISK_SIZE ==> zero[a] == flat[a]
    ensures var g := View(Splice(Splice(zero, FIRST_FAT, s), 33 * SECTOR, s));
      && Formatted(g) && g.data == View(flat).data
      && (forall a :: DATA <= a < DISK_SIZE ==> Splice(Splice(zero, FIRST_FAT, s), 33 * SECTOR, s)[a] == flat[a])
      && forall c :: 256 <= c < CLUSTERS ==> g.fat[c] == 0
  {
    var one := Splice(zero, FIRST_FAT, s);
    var two := Splice(one, 33 * SECTOR, s);
    assert forall a :: FIRST_FAT <= a < FIRST_FAT + SECTOR ==> two[a] == s[a - FIRST_FAT];
    assert forall a :: ROOT <= a < DISK_SIZE ==> two[a] == zero[a];
    assert forall a :: FIRST_FAT + SECTOR <= a < 33 * SECTOR ==> two[a] == zero[a];
    forall c | 0 <= c < CLUSTERS ensures SectorAt(two, c) == SectorAt(flat, c) {}
    assert View(two).data == View(flat).data;
    forall c | 256 <= c < CLUSTERS ensures FatAt(two, c) == 0 {}
  }

  /**
   * Up to the data area the disk is as formatted: the boot record in sector 0, the start of a FAT in
   * sectors 1 and 33, zeros elsewhere.
   */
  ghost predicate Laid(flat: seq<byte>, bootRecord: sector, stack: seq<byte>) {
    && |flat| == DISK_SIZE && flat[..512] == bootRecord
    && flat[512..1024] == flat[33 * 512..34 * 512] == [0xF8, 0xFF, 0xFF, 0xFF] + stack
    && forall a :: 1024 <= a < 97 * 512 && !(33 * 512 <= a < 34 * 512) ==> flat[a] == 0
  }

  lemma LaidOut(zero: seq<byte>, bootRecord: sector, stack: seq<byte>)
    requires |zero| == DISK_SIZE && zero[..512] == bootRecord && |stack| == 508
    requires forall a :: FIRST_FAT <= a < DATA ==> zero[a] == 0
    ensures var s := [0xF8, 0xFF, 0xFF, 0xFF] + stack;
      Laid(Splice(Splice(zero, FIRST_FAT, s), 33 * SECTOR, s), bootRecord, stack)
  {
    var s := [0xF8, 0xFF, 0xFF, 0xFF] + stack;
    var one := Splice(zero, FIRST_FAT, s);
    var two := Splice(one, 33 * SECTOR, s);
    assert two[..512] == one[..512] == zero[..512];
    assert two[512..1024] == one[512..1024] == s;
    assert two[33 * 512..34 * 512] == s;
  }

  /** The sector of a cluster, scanned or not, lies on the disk. */
  predicate OnDisk(cluster: nat) {
    DATA + SECTOR * cluster + SECTOR <= DISK_SIZE
  }

  class Volume {
    const disk: Disk

    ghost predicate Ready()
      reads disk, disk.ram, disk.pmem, disk.pmem.ram
    {
      disk.Valid() && |disk.flat| == DISK_SIZE
    }

    ghost function Fs(): Fs
      requires |disk.flat| == DISK_SIZE
      reads disk
    {
      View(disk.flat)
    }

    constructor (disk: Disk)
      ensures this.disk == disk
    {
      this.disk := disk;
    }

    /** ramdisk_read into a local variable of `size` bytes. */
    method ReadAt(start: u32, size: u32) returns (b: seq<byte>)
      requires Ready() && start + size <= DISK_SIZE
      modifies disk.ram, disk`flat
      ensures Ready() && disk.OnlyBlocks() && unchanged(disk.ram) && disk.flat == old(disk.flat)
      ensures b == disk.flat[start..start + size]
    {
      hide Disk.InBlocks, Disk.Valid, PagesOf, IoCode;
      disk.Sizes();
      var local := new byte[size](_ => 0);
      var code := disk.InternalIo(false, start, local, 0, size);
      b := local[..];
    }

    /** ramdisk_write from a local variable. */
    method WriteAt(start: u32, b: seq<byte>)
      requires Ready() && start + |b| <= DISK_SIZE
      modifies disk.ram, disk`flat
      ensures Ready() && disk.OnlyBlocks() && disk.flat == Splice(old(disk.flat), start, b)
    {
      hide Disk.InBlocks, Disk.Valid, PagesOf, IoCode;
      disk.Sizes();
      var local := new byte[|b|](i requires 0 <= i < |b| => b[i]);
      assert local[..] == b;
      var code := disk.InternalIo(true, start, local, 0, |b|);
    }

    method ReadLink(cluster: nat) returns (v: u16)
      requires Ready() && cluster < CLUSTERS
      modifies disk.ram, disk`flat
      ensures Ready() && disk.OnlyBlocks() && disk.flat == old(disk.flat)
      ensures v == Fs().fat[cluster]
    {
      var local := ReadAt(FIRST_FAT + 2 * cluster, 2);
      v := Le16(local);
    }

    method ReadSlot(i: nat) returns (e: slot)
      requires Ready() && i < SLOTS
      modifies disk.ram, disk`flat
      ensures Ready() && disk.OnlyBlocks() && unchanged(disk.ram) && disk.flat == old(disk.flat)
      ensures e == Fs().root[i]
    {
      e := ReadAt(ROOT + ENTRY * i, ENTRY);
    }

    method FindNextFreeCluster() returns (cluster: u16)
      requires Ready()
      modifies disk.ram, disk`flat
      ensures Ready() && disk.OnlyBlocks() && disk.flat == old(disk.flat)
      ensures cluster == FirstFree(Fs().fat)
    {
      hide View, Disk.InBlocks, Disk.Valid;
      ghost var fat := Fs().fat;
      for i := 0 to CLUSTERS
        invariant Ready() && disk.OnlyBlocks() && disk.flat == old(disk.flat)
        invariant forall k :: 0 <= k < i ==> fat[k] != 0
      {
        var currentCluster := ReadLink(i);
        if currentCluster == 0 {
          FreeFromIs(fat, i);
          return i;
        }
      }
      FreeFromIs(fat, CLUSTERS);
      cluster := 0;
    }

    method FindNextFreeRootEntry() returns (entry: nat)
      requires Ready()
      modifies disk.ram, disk`flat
      ensures Ready() && disk.OnlyBlocks() && disk.flat == old(disk.flat)
      ensures entry == FreeSlot(Fs().root)
    {
      hide View, Disk.InBlocks, Disk.Valid;
      ghost var root := Fs().root;
      for i := 1 to SLOTS
        invariant Ready() && disk.OnlyBlocks() && disk.flat == old(disk.flat)
        invariant forall k :: 1 <= k < i ==> root[k][0] != 0
      {
        var curRootEntry := ReadSlot(i);
        if curRootEntry[0] == 0 {
          EmptyFromIs(root, i);
          return i;
        }
      }
      EmptyFromIs(root, SLOTS);
      entry := 0;
    }

    /** ramdisk_fat16_filename_to_native; the raw name is a C string without its terminator. */
    static method FilenameToNative(nativeFileName: array<byte>, raw: seq<byte>)
      requires nativeFileName.Length == 11
      modifies nativeFileName
      ensures nativeFileName[..] == Native(raw)
      ensures exists d: nat :: IsNative(raw, d, nativeFileName[..])
    {
      hide Stem, IsNative;
      NativeBytes(raw);
      var fileNameBuffer := new byte[8](_ => BLANK);
      var fileExtBuffer := new byte[3](_ => BLANK);
      var procFileName := true;
      var i, j := 0, 0;
      while i < |raw|
        invariant 0 <= i <= |raw|
        invariant procFileName ==> i <= |Stem(raw)| && j == (if i < 8 then i else 8)
        invariant !procFileName ==> |Stem(raw)| < i && j == (if i - |Stem(raw)| - 1 < 3 then i - |Stem(raw)| - 1 else 3)
        invariant forall k :: 0 <= k < 8 ==>
          fileNameBuffer[k] == if k < |Stem(raw)| && k < i then raw[k] else BLANK
        invariant forall k :: 0 <= k < 3 ==>
          fileExtBuffer[k] == if !procFileName && |Stem(raw)| + 1 + k < i then raw[|Stem(raw)| + 1 + k] else BLANK
      {
        if procFileName {
          if raw[i] == DOT {
            procFileName := false;
            j := 0;
            i := i + 1;
            continue;
          }
          if j < 8 {
            fileNameBuffer[j] := raw[i];
            j := j + 1;
          }
        } else {
          if j < 3 {
            fileExtBuffer[j] := raw[i];
            j := j + 1;
          }
        }
        i := i + 1;
      }
      forall k | 0 <= k < 8 { nativeFileName[k] := fileNameBuffer[k]; }
      forall k | 0 <= k < 3 { nativeFileName[8 + k] := fileExtBuffer[k]; }
    }

    /** memcmp of kernel/libc/string.c */
    static method Compare(a: seq<byte>, b: seq<byte>) returns (r: int)
      requires |a| == |b|
      ensures r == Memcmp(a, b)
    {
      var i := 0;
      while i < |a|
        invariant i <= |a| && Memcmp(a, b) == Memcmp(a[i..], b[i..])
      {
        if a[i] < b[i] { return -1; }
        if b[i] > a[i] { return 1; }
        i := i + 1;
      }
      r := 0;
    }

    static method HasName(name: seq<byte>, entry: slot) returns (same: bool)
      requires entry[0] != 0
      ensures same <==> Matches(Native(name), entry)
    {
      var nativeFileName := new byte[11](_ => 0);
      FilenameToNative(nativeFileName, name);
      var difference := Compare(nativeFileName[..], entry[..11]);
      same := difference == 0;
    }

    /** ramdisk_fat16_file_exists */
    method FileExists(name: seq<byte>) returns (slot: nat)
      requires Ready()
      modifies disk.ram, disk`flat
      ensures Ready() && disk.OnlyBlocks() && unchanged(disk.ram) && disk.flat == old(disk.flat)
      ensures slot == Exists(Fs().root, name) && slot < SLOTS
    {
      hide Native, Matches, View, MatchFrom, Disk.InBlocks, Disk.Valid;
      ghost var root := Fs().root;
      for i := 1 to SLOTS
        invariant Ready() && disk.OnlyBlocks() && unchanged(disk.ram) && disk.flat == old(disk.flat)
        invariant forall k :: 1 <= k < i ==> !Matches(Native(name), root[k])
      {
        var curRootEntry := ReadSlot(i);
        if curRootEntry[0] != 0 {
          var same := HasName(name, curRootEntry);
          if same {
            MatchFromIs(root, Native(name), i);
            return i;
          }
        } else {
          EmptyNoMatch(Native(name), curRootEntry);
        }
      }
      MatchFromIs(root, Native(name), SLOTS);
      slot := 0;
    }

    /** read_sector of a data cluster; a number past the end of the disk leaves the buffer alone. */
    method LoadSector(cluster: u16, buffer: array<byte>)
      requires Ready() && buffer.Length >= SECTOR && buffer != disk.ram
      modifies disk.ram, disk`flat, buffer
      ensures Ready() && disk.OnlyBlocks() && unchanged(disk.ram) && disk.flat == old(disk.flat)
      ensures buffer[..] == if OnDisk(cluster) then SectorAt(disk.flat, cluster) + old(buffer[SECTOR..]) else old(buffer[..])
    {
      hide IoCode, Disk.InBlocks, Disk.Valid, PagesOf;
      disk.Sizes();
      var io := disk.InternalIo(false, DATA + SECTOR * cluster, buffer, 0, SECTOR);
    }

    /** Read the head sector of the file in a slot. */
    method LoadHead(slot: nat, buffer: array<byte>)
      requires Ready() && buffer.Length >= SECTOR && buffer != disk.ram && slot < SLOTS
      modifies disk.ram, disk`flat, buffer
      ensures Ready() && disk.OnlyBlocks() && unchanged(disk.ram) && disk.flat == old(disk.flat)
      ensures var h := Head(Fs().root[slot]);
        buffer[..] == if OnDisk(h) then SectorAt(disk.flat, h) + old(buffer[SECTOR..]) else old(buffer[..])
    {
      hide View, FlatOf, Pointers, PagesOf, Disk.InBlocks, Disk.Valid, Head, SectorAt;
      var entry := ReadSlot(slot);
      var currentSector := Head(entry);
      LoadSector(currentSector, buffer);
    }

    /** ramdisk_fat16_file_read into a buffer of at least one sector. */
    method FileRead(name: seq<byte>, buffer: array<byte>, index: u16) returns (code: nat)
      requires Ready() && buffer.Length >= SECTOR && buffer != disk.ram
      modifies disk.ram, disk`flat, buffer
      ensures Ready() && disk.OnlyBlocks() && unchanged(disk.ram) && disk.flat == old(disk.flat)
      ensures code == Fat16.FileRead(Fs(), name, index).0
      ensures code == if Exists(Fs().root, name) == 0 then 3 else if index == 0 then 0 else 5
      ensures var i := Exists(Fs().root, name);
        buffer[..] == if i != 0 && OnDisk(Head(Fs().root[i]))
          then SectorAt(disk.flat, Head(Fs().root[i])) + old(buffer[SECTOR..]) else old(buffer[..])
      ensures var found := Fat16.FileRead(Fs(), name, index).1; found.Some? ==> buffer[..SECTOR] == found.value
    {
      hide Exists, FatAt, FlatOf, Pointers, PagesOf, Disk.InBlocks, Disk.Valid, Head;
      var slot := FileExists(name);
      if slot == 0 { return DOESNT_EXIST; }
      LoadHead(slot, buffer);
      if index != 0 { return NO_MULTICLUSTER; }
      code := SUCCESS;
    }

    /** ramdisk_fat16_file_read into the page at p. */
    method FileReadInto(name: seq<byte>, p: nat, index: u16) returns (code: nat)
      requires Ready() && disk.Outside(p) && p + PAGE <= U32
      modifies disk.ram, disk`flat
      ensures Ready() && disk.flat == old(disk.flat) && disk.pmem.Records() == old(disk.pmem.Records())
      ensures code == Fat16.FileRead(Fs(), name, index).0
      ensures var i := Exists(Fs().root, name);
        disk.ram[..] == if i != 0 && OnDisk(Head(Fs().root[i]))
          then Splice(old(disk.ram[..]), p, SectorAt(disk.flat, Head(Fs().root[i]))) else old(disk.ram[..])
    {
      hide Exists, FatAt, Disk.InBlocks, Disk.Valid, PagesOf, Head, Splice, SectorAt, Disk.Outside;
      disk.Sizes();
      ghost var m := disk.ram[..];
      var slot := FileExists(name);
      assert disk.ram[..] == m;
      if slot == 0 { return DOESNT_EXIST; }
      LoadHeadInto(slot, p);
      if index != 0 { return NO_MULTICLUSTER; }
      code := SUCCESS;
    }

    /** Read the head sector of the file in a slot into the page at p. */
    method LoadHeadInto(slot: nat, p: nat)
      requires Ready() && disk.Outside(p) && p + PAGE <= U32 && slot < SLOTS
      modifies disk.ram, disk`flat
      ensures Ready() && disk.flat == old(disk.flat) && disk.pmem.Records() == old(disk.pmem.Records())
      ensures var h := Head(Fs().root[slot]);
        disk.ram[..] == if OnDisk(h) then Splice(old(disk.ram[..]), p, SectorAt(disk.flat, h)) else old(disk.ram[..])
    {
      hide View, Disk.InBlocks, Disk.Valid, PagesOf, Head, Splice, IoCode, Disk.Outside;
      disk.Sizes();
      ghost var m := disk.ram[..];
      var entry := ReadSlot(slot);
      assert disk.ram[..] == m;
      var currentSector := Head(entry);
      var io := disk.ReadInto(DATA + SECTOR * currentSector, p, SECTOR);
    }

    /** Store a link in the first FAT, and at the address taken for the second one. */
    method WriteLink(cluster: nat, swapped: u16)
      requires Ready() && cluster < CLUSTERS
      modifies disk.ram, disk`flat
      ensures Ready() && disk.OnlyBlocks()
      ensures disk.flat == Linked(old(disk.flat), cluster, swapped)
      ensures Fs() == old(Fs()).(fat := old(Fs()).fat[cluster := swapped])
    {
      hide View, Disk.InBlocks, Disk.Valid, PagesOf, Splice;
      ghost var flat := disk.flat;
      WriteAt(FIRST_FAT + cluster * 2, Bytes16(swapped));
      PutFat(flat, cluster, swapped);
      flat := disk.flat;
      WriteAt(SECOND_FAT + cluster * 2, Bytes16(swapped));
      PutSecondFat(flat, cluster, Bytes16(swapped));
    }

    /** Write part of the caller's data to the front of a cluster. */
    method WriteCluster(cluster: nat, data: array<byte>, off: nat, len: nat)
      requires Ready() && cluster < CLUSTERS && len <= SECTOR && off + len <= data.Length && data != disk.ram
      modifies disk.ram, disk`flat, data
      ensures Ready() && disk.OnlyBlocks() && data[..] == old(data[..])
      ensures disk.flat == Splice(old(disk.flat), DATA + SECTOR * cluster, old(data[off..off + len]))
      ensures Fs() == old(Fs()).(data := old(Fs()).data[cluster := Overwrite(old(Fs()).data[cluster], old(data[off..off + len]))])
    {
      hide View, IoCode, Disk.InBlocks, Disk.Valid;
      disk.Sizes();
      PutSector(disk.flat, cluster, data[off..off + len]);
      var io := disk.InternalIo(true, DATA + SECTOR * cluster, data, off, len);
    }

    /** The loop of ramdisk_fat16_file_write. */
    method WriteSectors(head: nat, data: array<byte>, size: u32) returns (r: Result<(nat, nat)>)
      requires Ready() && head < CLUSTERS && size <= data.Length && data != disk.ram && Fs().fat[head] == 0
      modifies disk.ram, disk`flat, data
      ensures Ready() && disk.OnlyBlocks() && data[..] == old(data[..])
      ensures var spec := WriteLoop(old(Fs()), head, old(data[..size]));
        if spec.Panic? then r.Panic?
        else r.Ok? && r.value.1 <= size && spec.value == Progress(Fs(), r.value.0, data[r.value.1..size])
      ensures r.Ok? ==> OnlyTaken(old(disk.flat), disk.flat, r.value.0) && Taken(old(disk.flat), disk.flat, r.value.0, r.value.0)
    {
      hide View, FirstFree, Overwrite, Disk.InBlocks, Disk.Valid, OnlyTaken, Linked, Splice, FatAt;
      ghost var f := disk.flat;
      FatIs(f, head);
      NothingTaken(f, head);
      ghost var d := data[..size];
      var currentSector: nat := head;
      var currentDataPointer: nat := 0;
      var bytesLeftToWrite: nat := size;
      while bytesLeftToWrite > SECTOR
        invariant Ready() && disk.OnlyBlocks() && data[..] == old(data[..]) && currentSector < CLUSTERS
        invariant bytesLeftToWrite + currentDataPointer == size && data[..size] == d
        invariant WriteLoop(old(Fs()), head, d) == WriteLoop(Fs(), currentSector, d[currentDataPointer..])
        invariant OnlyTaken(f, disk.flat, currentSector) && FatAt(f, currentSector) == 0
        decreases bytesLeftToWrite
      {
        ghost var before, rest := Fs(), d[currentDataPointer..];
        assert data[currentDataPointer..currentDataPointer + SECTOR] == data[..size][currentDataPointer..][..SECTOR];
        SectorStep(f, disk.flat, currentSector, data[currentDataPointer..currentDataPointer + SECTOR]);
        WriteCluster(currentSector, data, currentDataPointer, SECTOR);
        FullSector(before.data[currentSector], rest[..SECTOR]);
        var lastSector := currentSector;
        currentSector := FindNextFreeCluster();
        if currentSector == 0 { return Panic; }
        FirstFreeInRange(Fs().fat);
        NextIsFree(f, disk.flat, lastSector, currentSector);
        LinkStep(f, disk.flat, lastSector, Swap(currentSector), currentSector);
        WriteLink(lastSector, Swap(currentSector));
        currentDataPointer := currentDataPointer + SECTOR;
        bytesLeftToWrite := bytesLeftToWrite - SECTOR;
        assert rest[SECTOR..] == d[currentDataPointer..];
      }
      assert data[currentDataPointer..size] == d[currentDataPointer..];
      r := Ok((currentSector, currentDataPointer));
    }

    /** Write what is left of the data and the end-of-chain mark. */
    method FinishChain(currentSector: nat, data: array<byte>, off: nat, len: nat, ghost f: seq<byte>)
      requires |f| == |disk.flat| == DISK_SIZE && OnlyTaken(f, disk.flat, currentSector) && Taken(f, disk.flat, currentSector, currentSector)
      requires Ready() && currentSector < CLUSTERS && len <= SECTOR && off + len <= data.Length && data != disk.ram
      modifies disk.ram, disk`flat, data
      ensures Ready() && disk.OnlyBlocks() && data[..] == old(data[..])
      ensures Fs() == Finish(Progress(old(Fs()), currentSector, old(data[off..off + len])))
      ensures OnlyTaken(f, disk.flat, CLUSTERS) && Fs().root == old(Fs()).root
    {
      hide View, Overwrite, Disk.InBlocks, Disk.Valid, OnlyTaken, Taken, Linked, Splice;
      TakenKept(f, disk.flat, currentSector, data[off..off + len]);
      if len > 0 {
        SectorStep(f, disk.flat, currentSector, data[off..off + len]);
        WriteCluster(currentSector, data, off, len);
      } else {
        NothingLeft(Fs(), currentSector, data[off..off + len]);
      }
      LinkStep(f, disk.flat, currentSector, Swap(END_OF_CHAIN), CLUSTERS);
      WriteLink(currentSector, Swap(END_OF_CHAIN));
    }

    /** Put a new entry in the directory. */
    method EnterFile(newEntry: slot)
      requires Ready()
      modifies disk.ram, disk`flat
      ensures Ready() && disk.OnlyBlocks()
      ensures disk.flat == Splice(old(disk.flat), ROOT + ENTRY * FreeSlot(old(Fs()).root), newEntry)
      ensures Fs() == old(Fs()).(root := old(Fs()).root[FreeSlot(old(Fs()).root) := newEntry])
    {
      hide View, FreeSlot, Disk.InBlocks, Disk.Valid;
      var newRootEntry := FindNextFreeRootEntry();
      PutSlot(disk.flat, newRootEntry, newEntry);
      WriteAt(ROOT + ENTRY * newRootEntry, newEntry);
    }

    /** ramdisk_fat16_file_write; junk is what the uninitialised entry on the stack holds. */
    method FileWrite(name: seq<byte>, data: array<byte>, size: u32, junk: seq<byte>) returns (r: Result<nat>)
      requires Ready() && size <= data.Length && data != disk.ram && |junk| == 13
      modifies disk.ram, disk`flat, data
      ensures Ready() && disk.OnlyBlocks() && data[..] == old(data[..])
      ensures var spec := Fat16.FileWrite(old(Fs()), name, old(data[..size]), junk);
        if spec.Panic? then r.Panic? else r == Ok(spec.value.code) && Fs() == spec.value.fs
      ensures r.Ok? && r.value != SUCCESS ==> disk.flat == old(disk.flat)
      ensures r == Ok(SUCCESS) ==> WrittenOnly(old(disk.flat), disk.flat, FreeSlot(old(Fs()).root))
    {
      hide View, FirstFree, Exists, FreeSlot, WriteLoop, MakeEntry, Native, Finish, Disk.InBlocks, Disk.Valid, Distinct;
      hide OnlyTaken, Taken, WrittenOnly, Splice, IsNative;
      ghost var f := disk.flat;
      var nativeFileName := new byte[11](_ => 0);
      FilenameToNative(nativeFileName, name);
      var native := nativeFileName[..];
      var found := FileExists(name);
      if found != 0 { return Ok(FILE_EXISTS); }
      var headSector := FindNextFreeCluster();
      if headSector == 0 { return Ok(NO_FREE_SPACE); }
      FirstFreeInRange(Fs().fat);
      FirstFreeIsFree(Fs().fat);
      var loop := WriteSectors(headSector, data, size);
      if loop.Panic? { return Panic; }
      var (currentSector, currentDataPointer) := loop.value;
      assert data[currentDataPointer..currentDataPointer + (size - currentDataPointer)] == data[currentDataPointer..size];
      FinishChain(currentSector, data, currentDataPointer, size - currentDataPointer, f);
      SlotStep(f, disk.flat, FreeSlot(Fs().root), MakeEntry(native, junk, headSector, size));
      EnterFile(MakeEntry(native, junk, headSector, size));
      r := Ok(SUCCESS);
    }

    /** The bytes of [lo, hi) are zero. */
    ghost predicate Zeroed(lo: nat, hi: nat)
      requires hi <= |disk.flat|
      reads disk
    {
      forall a :: lo <= a < hi ==> disk.flat[a] == 0
    }

    method ZeroSector(sec: nat)
      requires Ready() && (sec + 1) * SECTOR <= DISK_SIZE
      modifies disk.ram, disk`flat
      ensures Ready() && disk.OnlyBlocks() && Zeroed(sec * SECTOR, (sec + 1) * SECTOR)
      ensures forall a :: 0 <= a < DISK_SIZE && !(sec * SECTOR <= a < (sec + 1) * SECTOR) ==> disk.flat[a] == old(disk.flat)[a]
    {
      hide Disk.InBlocks, Disk.Valid;
      WriteAt(sec * SECTOR, seq(SECTOR, _ => 0));
    }

    /** The boot record, then the loops of ramdisk_fat16_format: both FATs, then the root directory. */
    method ZeroTables(bootRecord: sector)
      requires Ready()
      modifies disk.ram, disk`flat
      ensures Ready() && disk.OnlyBlocks() && disk.flat[..512] == bootRecord && Zeroed(FIRST_FAT, DATA)
      ensures forall a :: DATA <= a < DISK_SIZE ==> disk.flat[a] == old(disk.flat)[a]
    {
      hide Disk.InBlocks, Disk.Valid;
      WriteAt(0, bootRecord);
      ghost var start := disk.flat;
      assert start[..512] == bootRecord;
      for i := 0 to 32
        invariant Ready() && disk.OnlyBlocks() && Zeroed(SECTOR, (1 + i) * SECTOR) && Zeroed(33 * SECTOR, (33 + i) * SECTOR)
        invariant forall a :: DATA <= a < DISK_SIZE ==> disk.flat[a] == old(disk.flat)[a]
        invariant disk.flat[..512] == start[..512]
      {
        ZeroSector(1 + i);
        ZeroSector(33 + i);
      }
      for i := 0 to 32
        invariant Ready() && disk.OnlyBlocks() && Zeroed(FIRST_FAT, (65 + i) * SECTOR)
        invariant forall a :: DATA <= a < DISK_SIZE ==> disk.flat[a] == old(disk.flat)[a]
        invariant disk.flat[..512] == start[..512]
      {
        ZeroSector(65 + i);
      }
    }

    /** Write the start of both FATs. */
    method StartFats(startingSectors: sector)
      requires Ready()
      modifies disk.ram, disk`flat
      ensures Ready() && disk.OnlyBlocks()
      ensures disk.flat == Splice(Splice(old(disk.flat), FIRST_FAT, startingSectors), 33 * SECTOR, startingSectors)
    {
      hide Disk.InBlocks, Disk.Valid, Splice;
      WriteAt(FIRST_FAT, startingSectors);
      WriteAt(33 * SECTOR, startingSectors);
    }

    /** ramdisk_fat16_format; stack stands for the bytes that follow the four-byte array on the stack. */
    method Format(bootRecord: sector, stack: seq<byte>)
      requires Ready() && |stack| == 508
      modifies disk.ram, disk`flat
      ensures Ready() && disk.OnlyBlocks() && Formatted(Fs()) && Fs().data == old(Fs()).data
      ensures Laid(disk.flat, bootRecord, stack)
      ensures forall a :: 97 * 512 <= a < DISK_SIZE ==> disk.flat[a] == old(disk.flat)[a]
      ensures FreeCount(Fs().fat) >= 159
    {
      hide Disk.InBlocks, Disk.Valid, View, Formatted, Splice, FreeCount, Laid;
      ghost var flat := disk.flat;
      ZeroTables(bootRecord);
      ghost var zero := disk.flat;
      var startingSectors: seq<byte> := [0xF8, 0xFF, 0xFF, 0xFF] + stack;
      StartFats(startingSectors);
      FormatView(flat, zero, startingSectors);
      LaidOut(zero, bootRecord, stack);
      FreeCountTail(Fs().fat, 256);
    }

    /** Formatting leaves the pages of the others alone. */
    twostate lemma OldPagesKept(used: set<nat>)
      requires disk.pmem.Valid() && used !! disk.Owned() && forall p :: p in used ==> disk.pmem.IsPage(p)
      requires forall p: nat :: Aligned(p) && p + PAGE <= U32 && p !in disk.pages ==> SamePage(old(disk.ram[..]), disk.ram[..], p)
      ensures forall p :: p in used ==> SamePage(old(disk.ram[..]), disk.ram[..], p)
    {
      hide SamePage, Disk.Owned;
      disk.OwnedAre();
      forall p | p in used ensures SamePage(old(disk.ram[..]), disk.ram[..], p) { disk.pmem.PageInMemory(p); }
    }

    /** ramdisk_fat16_init: check the boot record, mount the ramdisk and format it. */
    method Init(bootRecord: sector, stack: seq<byte>) returns (r: Result<()>)
      requires disk.Valid() && |stack| == 508
      modifies disk, disk.ram, disk.pmem`currAllocRecord
      ensures r.Ok? ==> Ready() && Formatted(Fs()) && Laid(disk.flat, bootRecord, stack)
      ensures r.Ok? <==> bootRecord[510] == 0x55 && bootRecord[511] == 0xAA && old(disk.blockSize) == 0 && old(disk.pmem.Available()) >= 1025
      ensures r.Ok? ==> disk.pmem.Available() == old(disk.pmem.Available()) - 1025
      ensures r.Ok? ==> FreeCount(Fs().fat) >= 159
      ensures r.Ok? ==> disk.Owned() !! old(disk.pmem.UsedPages())
      ensures r.Ok? ==> disk.pmem.UsedPages() == old(disk.pmem.UsedPages()) + disk.Owned() && disk.pmem.KeepsPages()
    {
      hide PagesOf, AvailableIn, FlatOf, Pointers, Disk.InBlocks, PageSet, View, Formatted, FreeCount, Disk.Owned, Laid;
      if !(bootRecord[510] == 0x55 && bootRecord[511] == 0xAA) { return Panic; }
      forall p | p in disk.pmem.UsedPages() ensures disk.pmem.IsPage(p) { disk.pmem.UsedIsPage(p); }
      var mounted := disk.Init(DISK_SIZE);
      if mounted.Panic? { return Panic; }
      label Mounted:
      Format(bootRecord, stack);
      disk.Confined@Mounted();
      OldPagesKept@Mounted(old(disk.pmem.UsedPages()));
      r := Ok(());
    }
  }
}
