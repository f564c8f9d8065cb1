/**
 * The FAT16 volume as a value: the scanned entries of the first FAT, the scanned
 * slots of the root directory and the data clusters.  Every operation makes the
 * choices of the driver, including its memcmp and its order of cluster allocation.
 */
module Fat16 {
  import opened Common

  const SECTOR: nat := 512
  const CLUSTERS: nat := 415
  const SLOTS: nat := 32
  const ENTRY: nat := 32
  const END_OF_CHAIN: u16 := 0xFFF8

  const SUCCESS := 0
  const NO_FREE_SPACE := 2
  const DOESNT_EXIST := 3
  const FILE_EXISTS := 4
  const NO_MULTICLUSTER := 5

  type sector = s: seq<byte> | |s| == 512 witness seq(512, _ => 0)
  type slot = s: seq<byte> | |s| == 32 witness seq(32, _ => 0)

  datatype Fs = Fs(fat: seq<u16>, root: seq<slot>, data: seq<sector>)

  ghost predicate Valid(fs: Fs) {
    |fs.fat| == CLUSTERS && |fs.root| == SLOTS && |fs.data| == CLUSTERS
  }

  // ----- byte order -----------------------------------------------------------

  /** eswap_uint16 */
  function Swap(v: u16): (r: u16)
    ensures r != 0 <==> v != 0
  {
    v % 0x100 * 0x100 + v / 0x100
  }

  lemma SwapTwice(v: u16)
    ensures Swap(Swap(v)) == v
  {
  }

  /** The two bytes change places. */
  lemma SwapBytes(low: byte, high: byte)
    ensures Swap(high * 256 + low) == low * 256 + high
    ensures Bytes16(high * 256 + low) == [low, high]
  {
  }

  function Le16(b: seq<byte>): u16
    requires |b| == 2
  {
    b[0] as int + 0x100 * b[1] as int
  }

  function Bytes16(v: u16): (b: seq<byte>)
    ensures |b| == 2 && Le16(b) == v
  {
    [v % 0x100, v / 0x100]
  }

  function Le32(b: seq<byte>): u32
    requires |b| == 4
  {
    b[0] as int + 0x100 * b[1] as int + 0x1_0000 * b[2] as int + 0x100_0000 * b[3] as int
  }

  function Bytes32(v: u32): (b: seq<byte>)
    ensures |b| == 4 && Le32(b) == v
  {
    var b: seq<byte> := [v % 0x100, v / 0x100 % 0x100, v / 0x1_0000 % 0x100, v / 0x100_0000];
    assert v / 0x100 == v / 0x1_0000 * 0x100 + v / 0x100 % 0x100;
    assert v / 0x1_0000 == v / 0x100_0000 * 0x100 + v / 0x1_0000 % 0x100;
    b
  }

  // ----- names ----------------------------------------------------------------

  const DOT: byte := 0x2E
  const BLANK: byte := 0x20

  /** The first n bytes of s, padded with blanks. */
  function Field(s: seq<byte>, n: nat): (r: seq<byte>)
    ensures |r| == n
  {
    seq(n, i requires 0 <= i => if i < |s| then s[i] else BLANK)
  }

  /** What stands before the first dot. */
  function Stem(name: seq<byte>): (r: seq<byte>)
    ensures r <= name && DOT !in r
    ensures |r| < |name| ==> name[|r|] == DOT
  {
    if name == [] || name[0] == DOT then [] else [name[0]] + Stem(name[1..])
  }

  /** What stands after the first dot, later dots included. */
  function Extension(name: seq<byte>): seq<byte> {
    if |Stem(name)| < |name| then name[|Stem(name)| + 1..] else []
  }

  function Native(name: seq<byte>): (r: seq<byte>)
    ensures |r| == 11
  {
    Field(Stem(name), 8) + Field(Extension(name), 3)
  }

  /**
   * n is the native form of a raw name with d bytes before its first dot: those as far as eight
   * go, then three of those after the dot, with blanks wherever there are none.
   */
  ghost predicate IsNative(raw: seq<byte>, d: nat, n: seq<byte>) {
    && |n| == 11 && d <= |raw| && (forall i :: 0 <= i < d ==> raw[i] != 0x2E) && (d < |raw| ==> raw[d] == 0x2E)
    && (forall i :: 0 <= i < 8 ==> n[i] == if i < d then raw[i] else 0x20)
    && (forall i :: 8 <= i < 11 ==> n[i] == if d + i - 7 < |raw| then raw[d + i - 7] else 0x20)
  }

  lemma NativeBytes(raw: seq<byte>)
    ensures IsNative(raw, |Stem(raw)|, Native(raw))
  {
  }

  /** A raw name has one native form, the one computed. */
  lemma NativeExact(raw: seq<byte>, n: seq<byte>)
    ensures n == Native(raw) <==> exists d: nat :: IsNative(raw, d, n)
  {
    NativeBytes(raw);
    if d: nat :| IsNative(raw, d, n) {
      var e := |Stem(raw)|;
      assert forall i :: 0 <= i < e ==> raw[i] == Stem(raw)[i];
      assert d == e;
      hide Native;
      assert forall i :: 0 <= i < 11 ==> n[i] == Native(raw)[i];
    }
  }

  /** The name is stem and extension around its first dot, or a stem without a dot. */
  ghost predicate Splits(name: seq<byte>, stem: seq<byte>, ext: seq<byte>) {
    0x2E !in stem && (name == stem + [0x2E] + ext || (name == stem && ext == []))
  }

  /** Byte i of a padded field. */
  function Padded(s: seq<byte>, i: nat): byte {
    if i < |s| then s[i] else 0x20
  }

  /** Every byte of a native form. */
  lemma NativeOf(name: seq<byte>, stem: seq<byte>, ext: seq<byte>)
    requires Splits(name, stem, ext)
    ensures forall i :: 0 <= i < 8 ==> Native(name)[i] == if i < |stem| then stem[i] else 0x20
    ensures forall i :: 8 <= i < 11 ==> Native(name)[i] == if i - 8 < |ext| then ext[i - 8] else 0x20
  {
    var n: seq<byte> := seq(11, i requires 0 <= i < 11 => if i < 8 then Padded(stem, i) else Padded(ext, i - 8));
    var d := |stem|;
    assert name[..d] == stem;
    if name != stem { assert name[d] == 0x2E && name[d + 1..] == ext; }
    assert |name| <= d + 1 + |ext| && (name != stem ==> |name| == d + 1 + |ext|);
    forall i | 8 <= i < 11 ensures n[i] == if d + i - 7 < |name| then name[d + i - 7] else 0x20 {
      assert n[i] == Padded(ext, i - 8);
      if name != stem && i - 8 < |ext| { assert name[d + 1..][i - 8] == name[d + 1 + (i - 8)]; }
    }
    assert IsNative(name, d, n);
    NativeExact(name, n);
  }

  /** Two names have the same native form exactly when the padded stems and the padded extensions agree. */
  lemma SameNative(a: seq<byte>, stem: seq<byte>, ext: seq<byte>, b: seq<byte>, stem': seq<byte>, ext': seq<byte>)
    requires Splits(a, stem, ext) && Splits(b, stem', ext')
    ensures Native(a) == Native(b) <==>
      && (forall i :: 0 <= i < 8 ==> Padded(stem, i) == Padded(stem', i))
      && (forall i :: 0 <= i < 3 ==> Padded(ext, i) == Padded(ext', i))
  {
    NativeOf(a, stem, ext);
    NativeOf(b, stem', ext');
    hide Native;
    var m, n := Native(a), Native(b);
    if m == n {
      assert forall i :: 0 <= i < 8 ==> Padded(stem, i) == m[i] && Padded(stem', i) == n[i];
      forall i | 0 <= i < 3 ensures Padded(ext, i) == Padded(ext', i) { assert m[8 + i] == n[8 + i]; }
    } else if (forall i :: 0 <= i < 8 ==> Padded(stem, i) == Padded(stem', i)) && forall i :: 0 <= i < 3 ==> Padded(ext, i) == Padded(ext', i) {
      assert forall i :: 0 <= i < 8 ==> m[i] == Padded(stem, i) && n[i] == Padded(stem', i);
      assert forall i :: 8 <= i < 11 ==> m[i] == Padded(ext, i - 8) && n[i] == Padded(ext', i - 8);
    }
  }

  /** A C string has no zero byte, so neither has its native form. */
  lemma NativeNonZero(name: seq<byte>)
    requires 0 !in name
    ensures 0 !in Native(name)
  {
  }

  /** memcmp as written: its second test repeats the first. */
  function Memcmp(a: seq<byte>, b: seq<byte>): int
    requires |a| == |b|
  {
    if a == [] then 0
    else if a[0] < b[0] then -1
    else if b[0] > a[0] then 1
    else Memcmp(a[1..], b[1..])
  }

  /** So it finds two byte strings "equal" when no byte of the first is below its counterpart. */
  lemma {:induction false} MemcmpMeans(a: seq<byte>, b: seq<byte>)
    requires |a| == |b|
    ensures Memcmp(a, b) == 0 <==> forall i :: 0 <= i < |a| ==> a[i] >= b[i]
    ensures Memcmp(a, b) != 0 ==> Memcmp(a, b) == -1
  {
    if a != [] {
      MemcmpMeans(a[1..], b[1..]);
      assert forall i :: 0 < i < |a| ==> a[i] == a[1..][i - 1] && b[i] == b[1..][i - 1];
    }
  }

  // ----- scans ----------------------------------------------------------------

  /** The least i >= from with fat[i] free, or |fat|. */
  function FreeFrom(fat: seq<u16>, from: nat): (i: nat)
    requires from <= |fat|
    ensures from <= i <= |fat|
    ensures forall k :: from <= k < i ==> fat[k] != 0
    ensures i < |fat| ==> fat[i] == 0
    decreases |fat| - from
  {
    if from == |fat| || fat[from] == 0 then from else FreeFrom(fat, from + 1)
  }

  /** find_next_free_cluster: zero when no entry is free. */
  function FirstFree(fat: seq<u16>): nat {
    if FreeFrom(fat, 0) < |fat| then FreeFrom(fat, 0) else 0
  }

  /** The least slot >= from whose first byte is zero, or |root|. */
  function EmptyFrom(root: seq<slot>, from: nat): (i: nat)
    requires from <= |root|
    ensures from <= i <= |root|
    ensures forall k :: from <= k < i ==> root[k][0] != 0
    ensures i < |root| ==> root[i][0] == 0
    decreases |root| - from
  {
    if from == |root| || root[from][0] == 0 then from else EmptyFrom(root, from + 1)
  }

  /** find_next_free_root_entry: slot 0 is not scanned, and stands for a full directory. */
  function FreeSlot(root: seq<slot>): (i: nat)
    requires |root| >= 1
    ensures i < |root|
  {
    if EmptyFrom(root, 1) < |root| then EmptyFrom(root, 1) else 0
  }

  predicate Matches(native: seq<byte>, e: slot)
    requires |native| == 11
  {
    e[0] != 0 && Memcmp(native, e[..11]) == 0
  }

  function MatchFrom(root: seq<slot>, native: seq<byte>, from: nat): (i: nat)
    requires from <= |root| && |native| == 11
    ensures from <= i <= |root|
    ensures forall k :: from <= k < i ==> !Matches(native, root[k])
    ensures i < |root| ==> Matches(native, root[i])
    decreases |root| - from
  {
    if from == |root| || Matches(native, root[from]) then from else MatchFrom(root, native, from + 1)
  }

  /** ramdisk_fat16_file_exists: the slot found, or zero. */
  function Exists(root: seq<slot>, name: seq<byte>): (i: nat)
    requires |root| >= 1
    ensures i < |root|
  {
    if MatchFrom(root, Native(name), 1) < |root| then MatchFrom(root, Native(name), 1) else 0
  }

  // ----- directory entries ------------------------------------------------------

  /** The entry written for a file; junk stands for the fields the driver leaves unset. */
  function MakeEntry(native: seq<byte>, junk: seq<byte>, head: u16, size: u32): (e: slot)
    requires |native| == 11 && |junk| == 13
    ensures e[..11] == native && Head(e) == head && FileSize(e) == size
    ensures e[11] == e[12] == 0 && e[13..26] == junk && e[27] as int * 256 + e[26] as int == head
    ensures ((e[31] as int * 256 + e[30] as int) * 256 + e[29] as int) * 256 + e[28] as int == size
  {
    var e := native + [0, 0] + junk + Bytes16(head) + Bytes32(size);
    assert e[26..28] == Bytes16(head) && e[28..32] == Bytes32(size);
    assert e[26] == Bytes16(head)[0] && e[27] == Bytes16(head)[1];
    assert forall i :: 0 <= i < 4 ==> e[28 + i] == e[28..32][i];
    assert e[28] == Bytes32(size)[0] && e[29] == Bytes32(size)[1] && e[30] == Bytes32(size)[2] && e[31] == Bytes32(size)[3];
    e
  }

  /** file_size */
  function FileSize(e: slot): (n: u32)
    ensures n == ((e[31] as int * 256 + e[30] as int) * 256 + e[29] as int) * 256 + e[28] as int
  {
    Le32(e[28..32])
  }

  /** entry_low_cluster_number */
  function Head(e: slot): (h: u16)
    ensures h == e[27] as int * 256 + e[26] as int
  {
    Le16(e[26..28])
  }

  // ----- writing a file -----------------------------------------------------------

  /** Sector s after its first |d| bytes were overwritten. */
  function Overwrite(s: sector, d: seq<byte>): sector
    requires |d| <= SECTOR
  {
    d + s[|d|..]
  }

  datatype Progress = Progress(fs: Fs, current: nat, d: seq<byte>)

  /** The loop of ramdisk_fat16_file_write: d is what is left to write. */
  function WriteLoop(fs: Fs, current: nat, d: seq<byte>): (r: Result<Progress>)
    requires Valid(fs) && current < CLUSTERS
    ensures r.Ok? ==> Valid(r.value.fs) && r.value.current < CLUSTERS && |r.value.d| <= SECTOR && r.value.fs.root == fs.root
    decreases |d|
  {
    if |d| <= SECTOR then Ok(Progress(fs, current, d))
    else
      var stored := fs.(data := fs.data[current := d[..SECTOR]]);
      var next := FirstFree(stored.fat);
      if next == 0 then Panic
      else WriteLoop(stored.(fat := stored.fat[current := Swap(next)]), next, d[SECTOR..])
  }

  /** The last, partial cluster and the end-of-chain mark. */
  function Finish(p: Progress): Fs
    requires Valid(p.fs) && p.current < CLUSTERS && |p.d| <= SECTOR
  {
    p.fs.(data := p.fs.data[p.current := Overwrite(p.fs.data[p.current], p.d)],
          fat := p.fs.fat[p.current := Swap(END_OF_CHAIN)])
  }

  datatype Outcome = Outcome(code: nat, fs: Fs)

  /** ramdisk_fat16_file_write */
  function FileWrite(fs: Fs, name: seq<byte>, d: seq<byte>, junk: seq<byte>): (r: Result<Outcome>)
    requires Valid(fs) && |junk| == 13 && |d| < U32
    ensures r.Ok? ==> Valid(r.value.fs)
  {
    if Exists(fs.root, name) != 0 then Ok(Outcome(FILE_EXISTS, fs))
    else if FirstFree(fs.fat) == 0 then Ok(Outcome(NO_FREE_SPACE, fs))
    else
      var head := FirstFree(fs.fat);
      var loop := WriteLoop(fs, head, d);
      if loop.Panic? then Panic
      else
        var done := Finish(loop.value);
        var e := MakeEntry(Native(name), junk, head, |d|);
        Ok(Outcome(SUCCESS, done.(root := done.root[FreeSlot(done.root) := e])))
  }

  /** ramdisk_fat16_file_read: the code and, when a file is found, the sector of its head cluster. */
  function FileRead(fs: Fs, name: seq<byte>, index: u16): (nat, Option<sector>)
    requires Valid(fs)
  {
    var i := Exists(fs.root, name);
    if i == 0 then (DOESNT_EXIST, None)
    else
      var h := Head(fs.root[i]);
      (if index != 0 then NO_MULTICLUSTER else SUCCESS, if h < CLUSTERS then Some(fs.data[h]) else None)
  }
}
