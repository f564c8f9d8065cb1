/** The ramdisk over sequences of transfers, and over a whole mount and unmount. */
module RamdiskRuns {
  import opened Common
  import opened Pmem
  import opened Ramdisk

  datatype Transfer = Transfer(write: bool, start: u32, d: seq<byte>)

  type Io = t: Transfer | |t.d| < U32 witness Transfer(false, 0, [])

  /** What one transfer does to the flat disk; a refused one does nothing. */
  function Apply(flat: seq<byte>, t: Io): (r: seq<byte>)
    ensures |r| == |flat|
  {
    if t.write && t.start + |t.d| <= |flat| then Splice(flat, t.start, t.d) else flat
  }

  function ApplyAll(flat: seq<byte>, ops: seq<Io>): (r: seq<byte>)
    ensures |r| == |flat|
    decreases |ops|
  {
    if ops == [] then flat else Apply(ApplyAll(flat, ops[..|ops| - 1]), ops[|ops| - 1])
  }

  /** The transfer writes byte a of a disk of the given size. */
  predicate Covers(t: Io, size: nat, a: nat) {
    t.write && t.start + |t.d| <= size && t.start <= a < t.start + |t.d|
  }

  /** Every byte reads as the last successful write to it left it, and otherwise as it was. */
  lemma {:induction false} LastWriteWins(flat: seq<byte>, ops: seq<Io>, a: nat)
    requires a < |flat|
    ensures var g := ApplyAll(flat, ops);
      || (g[a] == flat[a] && forall i :: 0 <= i < |ops| ==> !Covers(ops[i], |flat|, a))
      || (exists i :: 0 <= i < |ops| && Covers(ops[i], |flat|, a) && g[a] == ops[i].d[a - ops[i].start]
            && forall j :: i < j < |ops| ==> !Covers(ops[j], |flat|, a))
    decreases |ops|
  {
    if ops != [] {
      var last, rest := ops[|ops| - 1], ops[..|ops| - 1];
      LastWriteWins(flat, rest, a);
      assert forall i :: 0 <= i < |rest| ==> rest[i] == ops[i];
    }
  }

  /** ramdisk_init followed by ramdisk_destroy gives every page back, whatever was in use. */
  method MountAndUnmount(disk: Disk, size: u32) returns (r: Result<()>)
    requires disk.Valid()
    modifies disk, disk.ram, disk.pmem`currAllocRecord
    ensures r.Ok? ==> disk.Valid() && disk.blockSize == 0 && disk.pmem.UsedPages() == old(disk.pmem.UsedPages())
    ensures r.Ok? <==> old(disk.Mountable(size)) && old(disk.pmem.Available()) >= 1 + size / PAGE
  {
    hide PagesOf, AvailableIn, FlatOf, Pointers, PageSet;
    var mounted := disk.Init(size);
    if mounted.Panic? { return Panic; }
    var unmounted := disk.Destroy();
    if unmounted.Panic? { assert false; }
    r := Ok(());
  }
}
