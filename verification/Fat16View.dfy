/**
 * Where the parts of the volume lie on the disk, and what a disk write to one of
 * them does to the others.
 */
module Fat16View {
  import opened Common
  import opened Fat16
  import opened Fat16Chains
  import opened Ramdisk

  const DISK_SIZE: nat := 4096 * 1024

  const FIRST_FAT: nat := 512
  /** The driver computes 1 + 32 * 512 for the start of the second FAT. */
  const SECOND_FAT: nat := 1 + 32 * 512
  const ROOT: nat := 65 * 512
  const DATA: nat := 97 * 512

  function FatAt(flat: seq<byte>, c: nat): u16
    requires FIRST_FAT + 2 * c + 2 <= |flat|
  {
    Le16(flat[FIRST_FAT + 2 * c..FIRST_FAT + 2 * c + 2])
  }

  function SlotAt(flat: seq<byte>, i: nat): slot
    requires ROOT + ENTRY * i + ENTRY <= |flat|
  {
    flat[ROOT + ENTRY * i..ROOT + ENTRY * i + ENTRY]
  }

  function SectorAt(flat: seq<byte>, c: nat): sector
    requires DATA + SECTOR * c + SECTOR <= |flat|
  {
    flat[DATA + SECTOR * c..DATA + SECTOR * c + SECTOR]
  }

  ghost function View(flat: seq<byte>): (fs: Fs)
    requires |flat| == DISK_SIZE
    ensures Valid(fs)
  {
    Fs(seq(CLUSTERS, c requires 0 <= c < CLUSTERS => FatAt(flat, c)),
       seq(SLOTS, i requires 0 <= i < SLOTS => SlotAt(flat, i)),
       seq(CLUSTERS, c requires 0 <= c < CLUSTERS => SectorAt(flat, c)))
  }

  lemma SpliceWithin(s: seq<byte>, start: nat, d: seq<byte>, hi: nat)
    requires start + |d| <= hi <= |s|
    ensures Splice(s, start, d)[start..hi] == d + s[start + |d|..hi]
  {
  }

  /** A write that stays outside a region leaves every FAT entry, slot or sector of it alone. */
  lemma FatApart(flat: seq<byte>, start: nat, d: seq<byte>, c: nat)
    requires |flat| == DISK_SIZE && start + |d| <= |flat| && c < CLUSTERS
    requires start + |d| <= FIRST_FAT + 2 * c || FIRST_FAT + 2 * c + 2 <= start
    ensures FatAt(Splice(flat, start, d), c) == FatAt(flat, c)
  {
  }

  lemma SlotApart(flat: seq<byte>, start: nat, d: seq<byte>, i: nat)
    requires |flat| == DISK_SIZE && start + |d| <= |flat| && i < SLOTS
    requires start + |d| <= ROOT + ENTRY * i || ROOT + ENTRY * i + ENTRY <= start
    ensures SlotAt(Splice(flat, start, d), i) == SlotAt(flat, i)
  {
  }

  lemma SectorApart(flat: seq<byte>, start: nat, d: seq<byte>, c: nat)
    requires |flat| == DISK_SIZE && start + |d| <= |flat| && c < CLUSTERS
    requires start + |d| <= DATA + SECTOR * c || DATA + SECTOR * c + SECTOR <= start
    ensures SectorAt(Splice(flat, start, d), c) == SectorAt(flat, c)
  {
  }

  /** Storing a link changes that FAT entry only. */
  lemma PutFat(flat: seq<byte>, c: nat, v: u16)
    requires |flat| == DISK_SIZE && c < CLUSTERS
    ensures var g := View(Splice(flat, FIRST_FAT + 2 * c, Bytes16(v)));
      g == View(flat).(fat := View(flat).fat[c := v])
  {
    var start, d := FIRST_FAT + 2 * c, Bytes16(v);
    SpliceWithin(flat, start, d, start + 2);
    assert Splice(flat, start, d)[start..start + 2] == d;
    forall k | 0 <= k < CLUSTERS && k != c ensures FatAt(Splice(flat, start, d), k) == FatAt(flat, k) { FatApart(flat, start, d, k); }
    forall k | 0 <= k < SLOTS ensures SlotAt(Splice(flat, start, d), k) == SlotAt(flat, k) { SlotApart(flat, start, d, k); }
    forall k | 0 <= k < CLUSTERS ensures SectorAt(Splice(flat, start, d), k) == SectorAt(flat, k) { SectorApart(flat, start, d, k); }
  }

  /** The write meant for the second FAT touches nothing the driver ever reads. */
  lemma PutSecondFat(flat: seq<byte>, c: nat, d: seq<byte>)
    requires |flat| == DISK_SIZE && c < CLUSTERS && |d| == 2
    ensures View(Splice(flat, SECOND_FAT + 2 * c, d)) == View(flat)
  {
    var start := SECOND_FAT + 2 * c;
    forall k | 0 <= k < CLUSTERS ensures FatAt(Splice(flat, start, d), k) == FatAt(flat, k) { FatApart(flat, start, d, k); }
    forall k | 0 <= k < SLOTS ensures SlotAt(Splice(flat, start, d), k) == SlotAt(flat, k) { SlotApart(flat, start, d, k); }
    forall k | 0 <= k < CLUSTERS ensures SectorAt(Splice(flat, start, d), k) == SectorAt(flat, k) { SectorApart(flat, start, d, k); }
  }

  /** Entry c of the second FAT, which formatting puts at sector 33. */
  function SecondAt(flat: seq<byte>, c: nat): u16
    requires 33 * SECTOR + 2 * c + 2 <= |flat|
  {
    Le16(flat[33 * SECTOR + 2 * c..33 * SECTOR + 2 * c + 2])
  }

  /** The disk after the two writes that store link v of cluster c. */
  function Linked(flat: seq<byte>, c: nat, v: u16): (r: seq<byte>)
    requires |flat| == DISK_SIZE && c < CLUSTERS
    ensures |r| == |flat|
  {
    Splice(Splice(flat, FIRST_FAT + 2 * c, Bytes16(v)), SECOND_FAT + 2 * c, Bytes16(v))
  }

  /** What storing link v of cluster c makes of entry e of the second FAT, which held w. */
  function Smeared(e: nat, w: u16, c: nat, v: u16): u16 {
    if e + 255 == c then w / 0x100 * 0x100 + v / 0x100
    else if e + 256 == c then v % 0x100 * 0x100 + w % 0x100
    else w
  }

  /** The second write straddles two entries 255 and 256 places before the one it is meant for. */
  lemma SecondFatMissed(flat: seq<byte>, c: nat, v: u16, e: nat)
    requires |flat| == DISK_SIZE && c < CLUSTERS && e < CLUSTERS
    ensures SecondAt(Linked(flat, c, v), e) == Smeared(e, SecondAt(flat, e), c, v)
    ensures FatAt(Linked(flat, c, v), e) == if e == c then v else FatAt(flat, e)
  {
    hide Linked;
    LinkBytes(flat, c, v);
    EntryBytes(flat, e);
    EntryBytes(Linked(flat, c, v), e);
  }

  /** Entry e of either FAT in bytes. */
  lemma EntryBytes(flat: seq<byte>, e: nat)
    requires |flat| == DISK_SIZE && e < CLUSTERS
    ensures FatAt(flat, e) == flat[512 + 2 * e] as int + 256 * flat[513 + 2 * e] as int
    ensures SecondAt(flat, e) == flat[16896 + 2 * e] as int + 256 * flat[16897 + 2 * e] as int
  {
  }

  /** Both FATs agree on every scanned entry. */
  ghost predicate Mirrored(flat: seq<byte>)
    requires |flat| == DISK_SIZE
  {
    forall c :: 0 <= c < CLUSTERS ==> SecondAt(flat, c) == FatAt(flat, c)
  }

  /**
   * Storing a link keeps the second FAT a copy of the first exactly when it changes nothing: the
   * entry already held the link, and the two entries hit by mistake already held those bytes.
   */
  lemma MirrorExact(flat: seq<byte>, c: nat, v: u16)
    requires |flat| == DISK_SIZE && c < CLUSTERS && Mirrored(flat)
    ensures Mirrored(Linked(flat, c, v)) <==>
      && FatAt(flat, c) == v
      && (c >= 255 ==> FatAt(flat, c - 255) % 0x100 == v / 0x100)
      && (c >= 256 ==> FatAt(flat, c - 256) / 0x100 == v % 0x100)
  {
    hide FatAt, SecondAt, Linked;
    forall e: nat | e < CLUSTERS
      ensures SecondAt(Linked(flat, c, v), e) == Smeared(e, FatAt(flat, e), c, v)
      ensures FatAt(Linked(flat, c, v), e) == if e == c then v else FatAt(flat, e)
    {
      SecondFatMissed(flat, c, v, e);
    }
  }

  lemma PutSector(flat: seq<byte>, c: nat, d: seq<byte>)
    requires |flat| == DISK_SIZE && c < CLUSTERS && |d| <= SECTOR
    ensures View(Splice(flat, DATA + SECTOR * c, d))
      == View(flat).(data := View(flat).data[c := Overwrite(View(flat).data[c], d)])
  {
    var start := DATA + SECTOR * c;
    SpliceWithin(flat, start, d, start + SECTOR);
    assert Overwrite(View(flat).data[c], d) == d + flat[start + |d|..start + SECTOR];
    forall k | 0 <= k < CLUSTERS ensures FatAt(Splice(flat, start, d), k) == FatAt(flat, k) { FatApart(flat, start, d, k); }
    forall k | 0 <= k < SLOTS ensures SlotAt(Splice(flat, start, d), k) == SlotAt(flat, k) { SlotApart(flat, start, d, k); }
    forall k | 0 <= k < CLUSTERS && k != c ensures SectorAt(Splice(flat, start, d), k) == SectorAt(flat, k) { SectorApart(flat, start, d, k); }
  }

  lemma PutSlot(flat: seq<byte>, i: nat, e: slot)
    requires |flat| == DISK_SIZE && i < SLOTS
    ensures View(Splice(flat, ROOT + ENTRY * i, e)) == View(flat).(root := View(flat).root[i := e])
  {
    var start := ROOT + ENTRY * i;
    SpliceWithin(flat, start, e, start + ENTRY);
    assert Splice(flat, start, e)[start..start + ENTRY] == e;
    forall k | 0 <= k < CLUSTERS ensures FatAt(Splice(flat, start, e), k) == FatAt(flat, k) { FatApart(flat, start, e, k); }
    forall k | 0 <= k < SLOTS && k != i ensures SlotAt(Splice(flat, start, e), k) == SlotAt(flat, k) { SlotApart(flat, start, e, k); }
    forall k | 0 <= k < CLUSTERS ensures SectorAt(Splice(flat, start, e), k) == SectorAt(flat, k) { SectorApart(flat, start, e, k); }
  }

  // ----- which bytes of the disk a file write may change --------------------------------------

  /** Byte a belongs to cluster c: to its link, to the place the driver takes for the copy of the link, or to its sector. */
  ghost predicate OfCluster(a: int, c: nat) {
    || 512 + 2 * c <= a < 514 + 2 * c
    || 16385 + 2 * c <= a < 16387 + 2 * c
    || 49664 + 512 * c <= a < 50176 + 512 * c
  }

  /** Cluster c was free in f, and is marked in g or the one at hand. */
  ghost predicate Taken(f: seq<byte>, g: seq<byte>, current: nat, c: nat)
    requires |f| == |g| == DISK_SIZE
  {
    c < CLUSTERS && FatAt(f, c) == 0 && (c == current || FatAt(g, c) != 0)
  }

  ghost predicate CopyAt(g: seq<byte>, c: nat)
    requires |g| == DISK_SIZE && c < CLUSTERS
  {
    g[16385 + 2 * c] == g[512 + 2 * c] && g[16386 + 2 * c] == g[513 + 2 * c]
  }

  /** From f to g only bytes of clusters taken changed; each link stored has its copy at the place taken for it. */
  ghost predicate OnlyTaken(f: seq<byte>, g: seq<byte>, current: nat)
    requires |f| == |g| == DISK_SIZE
  {
    && (forall c: nat :: c < CLUSTERS && FatAt(f, c) != 0 ==> FatAt(g, c) != 0)
    && (forall c: nat :: c < CLUSTERS && FatAt(f, c) == 0 && FatAt(g, c) != 0 ==> CopyAt(g, c))
    && (forall a :: 0 <= a < DISK_SIZE && g[a] != f[a] ==> exists c: nat :: Taken(f, g, current, c) && OfCluster(a, c))
  }

  /** Writing to the sector of the cluster at hand. */
  lemma SectorStep(f: seq<byte>, g: seq<byte>, c: nat, d: seq<byte>)
    requires |f| == |g| == DISK_SIZE && OnlyTaken(f, g, c) && Taken(f, g, c, c) && |d| <= SECTOR
    ensures OnlyTaken(f, Splice(g, DATA + SECTOR * c, d), c)
  {
    hide FatAt;
    var h := Splice(g, DATA + SECTOR * c, d);
    forall e: nat | e < CLUSTERS ensures FatAt(h, e) == FatAt(g, e) { FatApart(g, DATA + SECTOR * c, d, e); }
    forall e: nat | e < CLUSTERS && FatAt(f, e) == 0 && FatAt(h, e) != 0 ensures CopyAt(h, e) { assert CopyAt(g, e); }
    forall a | 0 <= a < DISK_SIZE && h[a] != f[a] ensures exists e: nat :: Taken(f, h, c, e) && OfCluster(a, e) {
      if h[a] != g[a] {
        assert Taken(f, h, c, c) && OfCluster(a, c);
      } else {
        var e: nat :| Taken(f, g, c, e) && OfCluster(a, e);
        assert Taken(f, h, c, e);
      }
    }
  }

  /** Storing the link of the cluster at hand, and going on to another free one. */
  lemma LinkStep(f: seq<byte>, g: seq<byte>, c: nat, v: u16, next: nat)
    requires |f| == |g| == DISK_SIZE && OnlyTaken(f, g, c) && Taken(f, g, c, c) && v != 0
    ensures OnlyTaken(f, Linked(g, c, v), next)
  {
    hide FatAt, SecondAt;
    var h := Linked(g, c, v);
    forall e: nat | e < CLUSTERS ensures FatAt(h, e) == if e == c then v else FatAt(g, e) { SecondFatMissed(g, c, v, e); }
    LinkBytes(g, c, v);
    forall e: nat | e < CLUSTERS && FatAt(f, e) == 0 && FatAt(h, e) != 0 ensures CopyAt(h, e) {
      if e != c { assert CopyAt(g, e); }
    }
    forall a | 0 <= a < DISK_SIZE && h[a] != f[a] ensures exists e: nat :: Taken(f, h, next, e) && OfCluster(a, e) {
      if h[a] != g[a] {
        assert Taken(f, h, next, c) && OfCluster(a, c);
      } else {
        var e: nat :| Taken(f, g, c, e) && OfCluster(a, e);
        assert Taken(f, h, next, e);
      }
    }
  }

  /** The four bytes that store a link. */
  lemma LinkBytes(g: seq<byte>, c: nat, v: u16)
    requires |g| == DISK_SIZE && c < CLUSTERS
    ensures var h := Linked(g, c, v);
      && h[512 + 2 * c] == h[16385 + 2 * c] == v % 256 && h[513 + 2 * c] == h[16386 + 2 * c] == v / 256
      && forall a :: 0 <= a < DISK_SIZE && !(512 + 2 * c <= a < 514 + 2 * c) && !(16385 + 2 * c <= a < 16387 + 2 * c) ==> h[a] == g[a]
  {
    var one := Splice(g, FIRST_FAT + 2 * c, Bytes16(v));
    assert one[512 + 2 * c] == Bytes16(v)[0] && one[513 + 2 * c] == Bytes16(v)[1];
    assert Linked(g, c, v)[16385 + 2 * c] == Bytes16(v)[0] && Linked(g, c, v)[16386 + 2 * c] == Bytes16(v)[1];
  }

  /** A stored link lies byte-swapped on the disk, high byte first, in both places. */
  lemma StoredHighFirst(g: seq<byte>, c: nat, next: u16)
    requires |g| == DISK_SIZE && c < CLUSTERS
    ensures var h := Linked(g, c, Swap(next));
      h[512 + 2 * c] == h[16385 + 2 * c] == next / 256 && h[513 + 2 * c] == h[16386 + 2 * c] == next % 256
  {
    LinkBytes(g, c, Swap(next));
    SwapBytes(next % 256, next / 256);
  }

  /** A chain as it lies on the disk: two bytes per cluster, high byte first, give the next one, and FF F8 the end. */
  lemma ChainBytes(flat: seq<byte>, ch: seq<nat>, i: nat)
    requires |flat| == DISK_SIZE && IsChain(View(flat).fat, ch) && i < |ch|
    ensures ch[i] < CLUSTERS
    ensures flat[512 + 2 * ch[i]] as int * 256 + flat[513 + 2 * ch[i]] as int == if i + 1 < |ch| then ch[i + 1] else 0xFFF8
  {
    assert LinkedAt(View(flat).fat, ch, i);
    var c := ch[i];
    EntryBytes(flat, c);
    SwapBytes(flat[512 + 2 * c], flat[513 + 2 * c]);
  }

  /**
   * What a successful file write may change: bytes of clusters that were free and are marked now, and
   * the 32 bytes of one slot; each new link has its copy at the place taken for it.
   */
  ghost predicate WrittenOnly(f: seq<byte>, g: seq<byte>, slot: nat)
    requires |f| == |g| == DISK_SIZE
  {
    && (forall c: nat :: c < CLUSTERS && FatAt(f, c) == 0 && FatAt(g, c) != 0 ==> CopyAt(g, c))
    && forall a :: 0 <= a < DISK_SIZE && g[a] != f[a] ==>
      || 33280 + 32 * slot <= a < 33312 + 32 * slot
      || exists c: nat :: c < CLUSTERS && FatAt(f, c) == 0 && FatAt(g, c) != 0 && OfCluster(a, c)
  }

  lemma SlotStep(f: seq<byte>, g: seq<byte>, slot: nat, e: slot)
    requires |f| == |g| == DISK_SIZE && OnlyTaken(f, g, CLUSTERS) && slot < SLOTS
    ensures WrittenOnly(f, Splice(g, ROOT + ENTRY * slot, e), slot)
  {
    hide FatAt;
    var h := Splice(g, ROOT + ENTRY * slot, e);
    forall c: nat | c < CLUSTERS ensures FatAt(h, c) == FatAt(g, c) { FatApart(g, ROOT + ENTRY * slot, e, c); }
    forall c: nat | c < CLUSTERS && FatAt(f, c) == 0 && FatAt(h, c) != 0 ensures CopyAt(h, c) { assert CopyAt(g, c); }
    forall a | 0 <= a < DISK_SIZE && h[a] != f[a] && !(33280 + 32 * slot <= a < 33312 + 32 * slot)
      ensures exists c: nat :: c < CLUSTERS && FatAt(f, c) == 0 && FatAt(h, c) != 0 && OfCluster(a, c)
    {
      assert h[a] == g[a];
      var c: nat :| Taken(f, g, CLUSTERS, c) && OfCluster(a, c);
      assert FatAt(h, c) != 0;
    }
  }

  /** So the boot sector and what lies behind the scanned clusters survive every write. */
  lemma BootSectorKept(f: seq<byte>, g: seq<byte>, slot: nat)
    requires |f| == |g| == DISK_SIZE && slot < SLOTS && WrittenOnly(f, g, slot)
    ensures g[..512] == f[..512] && g[262144..] == f[262144..]
  {
    hide FatAt;
  }
}
