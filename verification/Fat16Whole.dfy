/**
 * Whole files: what a reader who follows the links of a file collects, when that is what was
 * written, and a run that fills the directory.
 */
module Fat16Whole {
  import opened Common
  import opened Fat16
  import opened Fat16Chains
  import opened Fat16Runs
  import opened Fat16Names

  // ----- the sectors of a chain ----------------------------------------------------

  /** The given clusters, one after the other. */
  function Sectors(data: seq<sector>, ch: seq<nat>): (r: seq<byte>)
    requires forall i :: 0 <= i < |ch| ==> ch[i] < |data|
    ensures |r| == SECTOR * |ch|
  {
    if ch == [] then [] else data[ch[0]] + Sectors(data, ch[1..])
  }

  /** What following the links from a head cluster collects. */
  function Contents(fs: Fs, head: nat): seq<byte>
    requires Valid(fs)
  {
    Sectors(fs.data, Follow(fs.fat, head, CLUSTERS))
  }

  /** Found under its name, of the size written, with the bytes written. */
  ghost predicate ReadsWhole(g: Fs, w: FileOp)
    requires Valid(g)
  {
    var i := Exists(g.root, w.name);
    i != 0 && FileSize(g.root[i]) == |w.d| && w.d <= Contents(g, Head(g.root[i]))
  }

  /** A longer file is spread over fewer sectors than it has. */
  lemma ClustersShort(size: nat)
    requires size > SECTOR
    ensures SECTOR * ClustersFor(size) < size
  {
  }

  lemma {:induction false} AscendingBound(ch: seq<nat>, i: nat)
    requires Ascending(ch) && i < |ch|
    ensures i <= ch[i]
  {
    if i > 0 { AscendingBound(ch, i - 1); }
  }

  /** A chain of a volume that was written to since is still there, with what it holds. */
  lemma ChainStays(h: Fs, g: Fs, ch: seq<nat>)
    requires Keeps(h, g) && IsChain(h.fat, ch)
    ensures Follow(g.fat, ch[0], CLUSTERS) == ch && forall c :: c in ch ==> c < CLUSTERS && g.data[c] == h.data[c]
  {
    forall c | c in ch ensures c < CLUSTERS && h.fat[c] == g.fat[c] && g.data[c] == h.data[c] { ChainMarked(h.fat, ch, c); }
    ChainFrame(h.fat, g.fat, ch);
    AscendingBound(ch, |ch| - 1);
    assert LinkedAt(h.fat, ch, |ch| - 1);
    FollowChain(g.fat, ch, CLUSTERS);
  }

  lemma SectorsOne(data: seq<sector>, c: nat)
    requires c < |data|
    ensures Sectors(data, [c]) == data[c]
  {
  }

  /** The chain written for a file gives the file back exactly when it fits one sector. */
  lemma ContentsExact(fs: Fs, h: Fs, g: Fs, w: FileOp, ch: seq<nat>)
    requires Wrote(fs, h, w.name, w.d, w.junk, ch) && Keeps(h, g)
    ensures w.d <= Contents(g, ch[0]) <==> |w.d| <= SECTOR
  {
    hide Native, FreeCount, FreeSlot, MakeEntry, Follow, FirstFree;
    assert h.(root := fs.root).fat == h.fat;
    ChainStays(h, g, ch);
    if |w.d| <= SECTOR {
      ClustersForOne(|w.d|);
      assert ch == [ch[0]];
      SectorsOne(g.data, ch[0]);
      assert ClusterHolds(fs, h, ch, w.d, 0);
      assert w.d[0..] == w.d;
    } else {
      ClustersShort(|w.d|);
    }
  }

  /** The directory entry a write made in a free slot is still the one its name finds. */
  lemma EntryStays(fs: Fs, h: Fs, g: Fs, w: FileOp, ch: seq<nat>)
    requires Wrote(fs, h, w.name, w.d, w.junk, ch) && Keeps(h, g)
    requires fs.fat[0] != 0 && Exists(fs.root, w.name) == 0 && FreeSlot(fs.root) != 0
    ensures var i := Exists(g.root, w.name); i != 0 && Head(g.root[i]) == ch[0] && FileSize(g.root[i]) == |w.d|
  {
    hide Native, FreeCount, ClustersFor, Kept, Extends;
    var s := FreeSlot(fs.root);
    NativeNonZero(w.name);
    assert h.root[s][..11] == Native(w.name);
    assert h.root[s][0] == Native(w.name)[0];
    FoundInSlot(fs, g, w.name, s);
  }

  /**
   * The whole file, exactly: whatever is written later, following the chain of a file gives back
   * all its bytes if and only if the directory had a free slot and the file fits one sector.
   */
  lemma WholeFileExact(fs: Fs, w: FileOp, h: Fs, ops: seq<FileOp>, g: Fs)
    requires Succeeds(fs, w, h) && Valid(h) && Run(h, ops) == Ok(g)
    ensures Valid(g)
    ensures ReadsWhole(g, w) <==> FreeSlot(fs.root) != 0 && |w.d| <= SECTOR
  {
    hide FileWrite, FreeCount, ClustersFor, Contents, Exists, Native, FreeSlot;
    var ch := WriteOutcome(fs, w.name, w.d, w.junk);
    WriteKeeps(fs, w);
    RunKeeps(h, ops);
    if FreeSlot(fs.root) == 0 {
      FullDirectoryLosesFile(fs, w, h, ops, g);
    } else {
      EntryStays(fs, h, g, w, ch);
      ContentsExact(fs, h, g, w, ch);
    }
  }

  /** A freshly formatted volume stores a file of two differing sectors with success, and reads back neither it nor its first sector. */
  lemma TwoSectorsLost(fs: Fs, w: FileOp)
    requires Formatted(fs) && FreeCount(fs.fat) > 0
    requires |w.d| == 2 * SECTOR && w.d[..SECTOR] != w.d[SECTOR..]
    ensures var r := FileWrite(fs, w.name, w.d, w.junk);
      r.Ok? && r.value.code == SUCCESS && !ReadsBack(r.value.fs, w) && !ReadsWhole(r.value.fs, w)
  {
    hide FileWrite, FreeCount, Native, Wrote, ReadsBack, ReadsWhole, Below;
    assert forall i :: !InUse(fs.root, i);
    ExistsIsFirstBelow(fs.root, w.name);
    ClustersForOne(|w.d|);
    var ch := WriteOutcome(fs, w.name, w.d, w.junk);
    var h := FileWrite(fs, w.name, w.d, w.junk).value.fs;
    RoundTripExact(fs, w, h, [], h);
    WholeFileExact(fs, w, h, [], h);
  }

  // ----- a run that fills the directory ------------------------------------------------

  lemma {:induction false} RunMore(fs: Fs, ops: seq<FileOp>, w: FileOp)
    requires Valid(fs) && Run(fs, ops).Ok?
    ensures var last := FileWrite(Run(fs, ops).value, w.name, w.d, w.junk);
      Run(fs, ops + [w]) == if last.Panic? then Panic else Ok(last.value.fs)
    decreases |ops|
  {
    hide FileWrite;
    if ops == [] {
      assert ops + [w] == [w] && [w][1..] == [];
    } else {
      assert (ops + [w])[1..] == ops[1..] + [w];
      RunMore(FileWrite(fs, ops[0].name, ops[0].d, ops[0].junk).value.fs, ops[1..], w);
    }
  }

  /** Empty files with one-letter names, each below the one before. */
  function Fill(k: nat): seq<FileOp>
    requires k <= 31
  {
    if k == 0 then [] else Fill(k - 1) + [Write([0x80 - k], [], seq(13, _ => 0))]
  }

  /** Slots 1 to k hold such names and the rest of the directory is free. */
  ghost predicate Filled(root: seq<slot>, k: nat) {
    |root| == SLOTS && forall i :: 0 < i < SLOTS ==> root[i][0] as int == if i <= k then 0x80 - i else 0
  }

  lemma NextName(root: seq<slot>, name: seq<byte>, k: nat)
    requires Filled(root, k) && k < SLOTS && |name| == 1 && name[0] != DOT && name[0] < 0x80 - k
    ensures Exists(root, name) == 0 && FreeSlot(root) == (if k < 31 then k + 1 else 0) && Native(name)[0] == name[0]
  {
    ExistsIsFirstBelow(root, name);
    assert Native(name)[0] == name[0];
    assert k < 31 ==> root[k + 1][0] == 0;
    assert forall i :: 1 <= i <= k ==> root[i][0] != 0;
  }

  /** One more such file goes to the next slot and takes one cluster. */
  lemma FillStep(g: Fs, w: FileOp, k: nat)
    requires Valid(g) && g.fat[0] != 0 && 0 < k <= 31 && Filled(g.root, k - 1) && FreeCount(g.fat) > 0
    requires w.d == [] && w.name == [0x80 - k]
    ensures var r := FileWrite(g, w.name, w.d, w.junk);
      r.Ok? && Filled(r.value.fs.root, k) && FreeCount(r.value.fs.fat) == FreeCount(g.fat) - 1 && r.value.fs.fat[0] != 0
  {
    hide FreeCount, Native, Exists, FreeSlot, FileWrite, ClustersFor, ClusterHolds, Extends, FirstFree;
    NextName(g.root, w.name, k - 1);
    ClustersForOne(0);
    var ch := WriteOutcome(g, w.name, w.d, w.junk);
    WriteKeeps(g, w);
    assert FileWrite(g, w.name, w.d, w.junk).value.fs.root[k][..11] == Native(w.name);
  }

  lemma {:induction false} FillRuns(fs: Fs, k: nat)
    requires Formatted(fs) && k <= 31 <= FreeCount(fs.fat)
    ensures Run(fs, Fill(k)).Ok?
    ensures var g := Run(fs, Fill(k)).value;
      Filled(g.root, k) && FreeCount(g.fat) == FreeCount(fs.fat) - k && g.fat[0] != 0
  {
    hide FreeCount, FileWrite;
    if k > 0 {
      hide Filled;
      FillRuns(fs, k - 1);
      var w: FileOp := Write([0x80 - k], [], seq(13, _ => 0));
      RunMore(fs, Fill(k - 1), w);
      FillStep(Run(fs, Fill(k - 1)).value, w, k);
    }
  }

  /** After 31 files the directory is full: the next write returns success, and its file is not found. */
  lemma FullDirectoryReached(fs: Fs, w: FileOp)
    requires Formatted(fs) && FreeCount(fs.fat) >= 31 + ClustersFor(|w.d|) && w.name == [0x41]
    ensures Run(fs, Fill(31)).Ok?
    ensures var g := Run(fs, Fill(31)).value;
      var r := FileWrite(g, w.name, w.d, w.junk);
      && FreeSlot(g.root) == 0 && r.Ok? && r.value.code == SUCCESS
      && FileRead(r.value.fs, w.name, 0) == (DOESNT_EXIST, None)
  {
    hide FreeCount, Native, Exists, FreeSlot, FileWrite, FileRead, ClustersFor, Wrote;
    FillRuns(fs, 31);
    var g := Run(fs, Fill(31)).value;
    NextName(g.root, w.name, 31);
    ClustersForOne(|w.d|);
    var ch := WriteOutcome(g, w.name, w.d, w.junk);
    FullDirectoryLosesFile(g, w, FileWrite(g, w.name, w.d, w.junk).value.fs, [], FileWrite(g, w.name, w.d, w.junk).value.fs);
  }
}
