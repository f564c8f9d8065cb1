/** What any sequence of file writes keeps: readable files stay readable and the FAT stays well formed. */
module Fat16Runs {
  import opened Common
  import opened Fat16
  import opened Fat16Chains

  // ----- one write -----------------------------------------------------------------

  /** The m-th cluster of the chain holds what the m-th pair of sectors leaves on it. */
  ghost predicate ClusterHolds(fs: Fs, g: Fs, ch: seq<nat>, d: seq<byte>, m: nat) {
    && Valid(fs) && Valid(g) && m < |ch| && ch[m] < CLUSTERS && 2 * m * SECTOR <= |d|
    && g.data[ch[m]] == Kept(fs.data[ch[m]], d[2 * m * SECTOR..])
  }

  /** g is fs after storing d under name on the chain ch and entering it in the directory. */
  ghost predicate Wrote(fs: Fs, g: Fs, name: seq<byte>, d: seq<byte>, junk: seq<byte>, ch: seq<nat>) {
    && Valid(fs) && Valid(g) && |junk| == 13 && |d| < U32
    && Extends(fs, g.(root := fs.root), ch) && ch[0] == FirstFree(fs.fat)
    && |ch| == ClustersFor(|d|) && FreeCount(g.fat) == FreeCount(fs.fat) - |ch|
    && g.root == fs.root[FreeSlot(fs.root) := MakeEntry(Native(name), junk, ch[0], |d|)]
    && forall m :: 0 <= m < |ch| ==> ClusterHolds(fs, g, ch, d, m)
  }

  lemma StoreWrote(fs: Fs, name: seq<byte>, d: seq<byte>, junk: seq<byte>) returns (ch: seq<nat>)
    requires Valid(fs) && fs.fat[0] != 0 && |junk| == 13 && |d| < U32
    requires Lowest(fs.fat, FirstFree(fs.fat)) && Store(fs, FirstFree(fs.fat), d).Ok?
    ensures var (g, c) := Store(fs, FirstFree(fs.fat), d).value;
      && c == ch && g.root == fs.root
      && Wrote(fs, g.(root := g.root[FreeSlot(g.root) := MakeEntry(Native(name), junk, FirstFree(fs.fat), |d|)]), name, d, junk, ch)
  {
    hide Store, Kept, ClustersFor, FreeCount, FirstFree, FreeSlot, MakeEntry, Native;
    var head := FirstFree(fs.fat);
    StoreSpace(fs, head, d);
    StoreExtends(fs, head, d);
    var (g, c) := Store(fs, head, d).value;
    ch := c;
    forall m | 0 <= m < |ch| ensures ClusterHolds(fs, g, ch, d, m) {
      StoreHolds(fs, head, d, m);
    }
    var h := g.(root := g.root[FreeSlot(g.root) := MakeEntry(Native(name), junk, head, |d|)]);
    assert h.(root := fs.root) == g;
    forall m | 0 <= m < |ch| ensures ClusterHolds(fs, h, ch, d, m) {
      assert ClusterHolds(fs, g, ch, d, m);
    }
  }

  /** A complete account of a write on a volume whose cluster 0 is marked. */
  lemma WriteOutcome(fs: Fs, name: seq<byte>, d: seq<byte>, junk: seq<byte>) returns (ch: seq<nat>)
    requires Valid(fs) && fs.fat[0] != 0 && |junk| == 13 && |d| < U32
    ensures var r := FileWrite(fs, name, d, junk);
      if Exists(fs.root, name) != 0 then r == Ok(Outcome(FILE_EXISTS, fs))
      else if FreeCount(fs.fat) == 0 then r == Ok(Outcome(NO_FREE_SPACE, fs))
      else if FreeCount(fs.fat) < ClustersFor(|d|) then r == Panic
      else r.Ok? && r.value.code == SUCCESS && Wrote(fs, r.value.fs, name, d, junk, ch)
  {
    hide Store, WriteLoop, Kept, ClustersFor, FreeCount, Wrote, Finish, MakeEntry, FirstFree, FreeSlot, Exists;
    ch := [];
    FreeCountZero(fs.fat);
    NoneFree(fs.fat);
    var head := FirstFree(fs.fat);
    if Exists(fs.root, name) == 0 && head != 0 {
      LowestIsFirstFree(fs.fat, head);
      LoopIsStore(fs, head, d);
      StoreSpace(fs, head, d);
      if Store(fs, head, d).Ok? {
        ch := StoreWrote(fs, name, d, junk);
      }
    }
  }

  // ----- persistence -----------------------------------------------------------------

  datatype Write = Write(name: seq<byte>, d: seq<byte>, junk: seq<byte>)

  /** File names are C strings. */
  type FileOp = w: Write | 0 !in w.name && |w.junk| == 13 && |w.d| < U32
    witness Write([], [], seq(13, _ => 0))

  /** The volume after a sequence of writes, successful or refused, unless one of them panics. */
  ghost function Run(fs: Fs, ops: seq<FileOp>): (r: Result<Fs>)
    requires Valid(fs)
    ensures r.Ok? ==> Valid(r.value)
    decreases |ops|
  {
    if ops == [] then Ok(fs) else
      var first := FileWrite(fs, ops[0].name, ops[0].d, ops[0].junk);
      if first.Panic? then Panic else Run(first.value.fs, ops[1..])
  }

  /** Marked clusters and occupied slots of fs are untouched in g. */
  ghost predicate Keeps(fs: Fs, g: Fs) {
    && Valid(fs) && Valid(g)
    && (forall c :: 0 <= c < CLUSTERS && fs.fat[c] != 0 ==> g.fat[c] == fs.fat[c] && g.data[c] == fs.data[c])
    && (forall i :: 0 < i < SLOTS && fs.root[i][0] != 0 ==> g.root[i] == fs.root[i])
  }

  lemma WriteKeeps(fs: Fs, w: FileOp)
    requires Valid(fs) && fs.fat[0] != 0
    ensures var r := FileWrite(fs, w.name, w.d, w.junk); r.Ok? ==> Keeps(fs, r.value.fs)
  {
    hide FileWrite, ClusterHolds, MakeEntry, Native;
    var ch := WriteOutcome(fs, w.name, w.d, w.junk);
  }

  lemma {:induction false} RunKeeps(fs: Fs, ops: seq<FileOp>)
    requires Valid(fs) && fs.fat[0] != 0
    ensures Run(fs, ops).Ok? ==> Keeps(fs, Run(fs, ops).value)
    decreases |ops|
  {
    hide FileWrite;
    if ops != [] {
      WriteKeeps(fs, ops[0]);
      var first := FileWrite(fs, ops[0].name, ops[0].d, ops[0].junk);
      if first.Ok? { RunKeeps(first.value.fs, ops[1..]); }
    }
  }

  /** The name entered in a free slot is found there as long as the slots before it stay. */
  lemma FoundInSlot(fs: Fs, g: Fs, name: seq<byte>, s: nat)
    requires Valid(fs) && Valid(g) && 0 !in name && Exists(fs.root, name) == 0
    requires FreeSlot(fs.root) == s > 0
    requires g.root[s][..11] == Native(name)
    requires forall i :: 0 < i < s ==> g.root[i] == fs.root[i]
    ensures Exists(g.root, name) == s
  {
    NativeNonZero(name);
    MemcmpMeans(Native(name), g.root[s][..11]);
    assert g.root[s][0] == Native(name)[0];
    assert Matches(Native(name), g.root[s]);
    forall i | 0 < i < s ensures !Matches(Native(name), g.root[i]) {
      assert g.root[i] == fs.root[i];
    }
  }

  /** The write stored its file: it took fs to h and returned success. */
  ghost predicate Succeeds(fs: Fs, w: FileOp, h: Fs) {
    Valid(fs) && fs.fat[0] != 0 && FileWrite(fs, w.name, w.d, w.junk) == Ok(Outcome(SUCCESS, h))
  }

  /**
   * Persistence over whole runs: once a write has returned success and found a free
   * slot, every later state g of the volume still reads the same head sector for that name.
   */
  lemma Persistence(fs: Fs, w: FileOp, h: Fs, ops: seq<FileOp>, g: Fs)
    requires Succeeds(fs, w, h) && Valid(h) && Run(h, ops) == Ok(g) && FreeSlot(fs.root) != 0
    ensures Valid(g) && FileRead(g, w.name, 0) == (SUCCESS, Some(Kept(fs.data[FirstFree(fs.fat)], w.d)))
  {
    hide FileWrite, Native, Kept, MakeEntry, Exists, FreeSlot, FirstFree, FreeCount, ClustersFor, Extends;
    var ch := WriteOutcome(fs, w.name, w.d, w.junk);
    WriteKeeps(fs, w);
    RunKeeps(h, ops);
    EnteredFile(fs, h, g, w, ch);
  }

  lemma EnteredFile(fs: Fs, h: Fs, g: Fs, w: FileOp, ch: seq<nat>)
    requires Wrote(fs, h, w.name, w.d, w.junk, ch) && Keeps(h, g)
    requires fs.fat[0] != 0 && Exists(fs.root, w.name) == 0 && FreeSlot(fs.root) != 0
    ensures FileRead(g, w.name, 0) == (SUCCESS, Some(Kept(fs.data[FirstFree(fs.fat)], w.d)))
  {
    hide Native, Kept, FreeCount, ClustersFor;
    var s := FreeSlot(fs.root);
    NativeNonZero(w.name);
    assert h.root[s][..11] == Native(w.name);
    assert h.root[s][0] == Native(w.name)[0];
    FoundInSlot(fs, g, w.name, s);
    assert ClusterHolds(fs, h, ch, w.d, 0);
    assert w.d[0..] == w.d;
    ChainMarked(h.fat, ch, ch[0]);
  }

  /**
   * The head sector holds the first bytes written exactly when the file fits one sector,
   * or its second sector, which lands on the same cluster, repeats the first.
   */
  lemma ReadBackExact(s: sector, d: seq<byte>)
    ensures var n := Min(|d|, SECTOR);
      Kept(s, d)[..n] == d[..n] <==> |d| <= SECTOR || d[SECTOR..Min(|d|, 2 * SECTOR)] == d[..Min(|d|, 2 * SECTOR) - SECTOR]
  {
  }

  /** With the directory full a write still reports success, and the file is never found. */
  lemma FullDirectoryLosesFile(fs: Fs, w: FileOp, h: Fs, ops: seq<FileOp>, g: Fs)
    requires Succeeds(fs, w, h) && Valid(h) && Run(h, ops) == Ok(g) && FreeSlot(fs.root) == 0
    ensures Valid(g) && FileRead(g, w.name, 0) == (DOESNT_EXIST, None)
  {
    hide FileWrite, FreeCount, ClustersFor, Native, MakeEntry, Kept;
    var ch := WriteOutcome(fs, w.name, w.d, w.junk);
    WriteKeeps(fs, w);
    RunKeeps(h, ops);
    forall i | 0 < i < SLOTS ensures !Matches(Native(w.name), g.root[i]) {
      assert h.root[i] == fs.root[i];
    }
  }

  /** Reading the name gives the first bytes that were written. */
  ghost predicate ReadsBack(g: Fs, w: FileOp)
    requires Valid(g)
  {
    var (code, found) := FileRead(g, w.name, 0);
    var n := Min(|w.d|, SECTOR);
    code == SUCCESS && found.Some? && found.value[..n] == w.d[..n]
  }

  /** The second sector, as far as the file has one, repeats the first. */
  ghost predicate SecondRepeatsFirst(d: seq<byte>) {
    |d| > SECTOR && var n := Min(|d|, 2 * SECTOR); d[SECTOR..n] == d[..n - SECTOR]
  }

  /**
   * The round trip of the first sector, exactly: whatever is written later, it reads back as
   * written if and only if the directory had a free slot and the file fits one sector or its
   * second sector repeats the first.
   */
  lemma RoundTripExact(fs: Fs, w: FileOp, h: Fs, ops: seq<FileOp>, g: Fs)
    requires Succeeds(fs, w, h) && Valid(h) && Run(h, ops) == Ok(g)
    ensures Valid(g)
    ensures ReadsBack(g, w) <==> FreeSlot(fs.root) != 0 && (|w.d| <= SECTOR || SecondRepeatsFirst(w.d))
  {
    hide FileRead, Kept, FreeSlot, Run, FirstFree, Succeeds;
    InDataArea(fs, w, h);
    if FreeSlot(fs.root) == 0 {
      FullDirectoryLosesFile(fs, w, h, ops, g);
    } else {
      Persistence(fs, w, h, ops, g);
      ReadBackExact(fs.data[FirstFree(fs.fat)], w.d);
    }
  }

  lemma InDataArea(fs: Fs, w: FileOp, h: Fs)
    requires Succeeds(fs, w, h)
    ensures Valid(fs) && FirstFree(fs.fat) < CLUSTERS
  {
  }

  // ----- well-formedness of the FAT over runs ----------------------------------------

  /** The file whose chain is chains[s] has slot s + 1; chains past the scanned slots have none. */
  ghost predicate Entered(fs: Fs, chains: seq<seq<nat>>, s: int)
    requires Valid(fs)
  {
    && 0 <= s < |chains| && IsChain(fs.fat, chains[s])
    && (s + 1 < SLOTS ==> fs.root[s + 1][0] != 0 && Head(fs.root[s + 1]) == chains[s][0])
  }

  ghost predicate OnChain(chains: seq<seq<nat>>, c: nat, s: int) {
    0 <= s < |chains| && c in chains[s]
  }

  /**
   * fat0 is the FAT at format time.  Every file has an ascending chain, no cluster is on two
   * chains, and the entries marked since the format are exactly those on the chains.
   */
  ghost predicate WellFormed(fat0: seq<u16>, fs: Fs, chains: seq<seq<nat>>) {
    && Valid(fs) && |fat0| == CLUSTERS && fat0[0] != 0
    && (forall s :: 0 <= s < |chains| ==> Entered(fs, chains, s))
    && (forall i :: |chains| < i < SLOTS ==> fs.root[i][0] == 0)
    && (forall c, s, t :: OnChain(chains, c, s) && OnChain(chains, c, t) ==> s == t)
    && (forall c :: 0 <= c < CLUSTERS && fat0[c] != 0 ==> fs.fat[c] == fat0[c] && forall s :: !OnChain(chains, c, s))
    && (forall c :: 0 <= c < CLUSTERS && fat0[c] == 0 ==> (fs.fat[c] != 0 <==> exists s :: OnChain(chains, c, s)))
  }

  lemma ChainMarked(fat: seq<u16>, ch: seq<nat>, c: nat)
    requires IsChain(fat, ch) && c in ch
    ensures c < |fat| && fat[c] != 0
  {
    var i :| 0 <= i < |ch| && ch[i] == c;
    assert LinkedAt(fat, ch, i);
    assert i + 1 < |ch| ==> LinkedAt(fat, ch, i + 1);
  }

  lemma ChainFrame(fat: seq<u16>, g: seq<u16>, ch: seq<nat>)
    requires IsChain(fat, ch) && |fat| == |g| && forall c :: c in ch ==> 0 <= c < |fat| && fat[c] == g[c]
    ensures IsChain(g, ch)
  {
    forall i | 0 <= i < |ch| ensures LinkedAt(g, ch, i) { assert LinkedAt(fat, ch, i); }
  }

  ghost function Total(chains: seq<seq<nat>>): nat {
    if chains == [] then 0 else |chains[|chains| - 1]| + Total(chains[..|chains| - 1])
  }

  lemma WriteWellFormed(fat0: seq<u16>, fs: Fs, chains: seq<seq<nat>>, w: FileOp) returns (after: seq<seq<nat>>)
    requires WellFormed(fat0, fs, chains)
    ensures chains <= after
    ensures var r := FileWrite(fs, w.name, w.d, w.junk); r.Ok? ==>
      && WellFormed(fat0, r.value.fs, after) && |after| == |chains| + (if r.value.code == SUCCESS then 1 else 0)
      && FreeCount(r.value.fs.fat) + Total(after) == FreeCount(fs.fat) + Total(chains)
  {
    hide FileWrite, FreeCount, ClustersFor, Native, Kept, FirstFree;
    var ch := WriteOutcome(fs, w.name, w.d, w.junk);
    var r := FileWrite(fs, w.name, w.d, w.junk);
    after := chains;
    if r.Ok? && r.value.code == SUCCESS {
      after := chains + [ch];
      assert after[..|chains|] == chains;
      NewChain(fat0, fs, chains, r.value.fs, w, ch);
    }
  }

  lemma NewChain(fat0: seq<u16>, fs: Fs, chains: seq<seq<nat>>, g: Fs, w: FileOp, ch: seq<nat>)
    requires WellFormed(fat0, fs, chains)
    requires Wrote(fs, g, w.name, w.d, w.junk, ch)
    ensures WellFormed(fat0, g, chains + [ch])
  {
    hide FreeCount, ClustersFor, Native, Kept, FirstFree, ClusterHolds;
    var n, after := |chains|, chains + [ch];
    NativeNonZero(w.name);
    forall i | 0 < i <= n && i < SLOTS ensures fs.root[i][0] != 0 { assert Entered(fs, chains, i - 1); }
    if n + 1 < SLOTS { assert fs.root[n + 1][0] == 0; }
    assert FreeSlot(fs.root) == if n + 1 < SLOTS then n + 1 else 0;
    forall c: nat, s | OnChain(chains, c, s) ensures c < CLUSTERS && fs.fat[c] != 0 && c !in ch {
      assert Entered(fs, chains, s);
      ChainMarked(fs.fat, chains[s], c);
    }
    forall s | 0 <= s < |after| ensures Entered(g, after, s) {
      if s < n {
        assert Entered(fs, chains, s);
        forall c | c in chains[s] ensures 0 <= c < CLUSTERS && fs.fat[c] == g.fat[c] { assert OnChain(chains, c, s); }
        ChainFrame(fs.fat, g.fat, chains[s]);
      }
    }
    forall c: nat, s ensures OnChain(after, c, s) <==> OnChain(chains, c, s) || (s == n && c in ch) {}
    forall c | 0 <= c < CLUSTERS && fat0[c] == 0 ensures g.fat[c] != 0 <==> exists s :: OnChain(after, c, s) {
      if c in ch { ChainMarked(g.fat, ch, c); assert OnChain(after, c, n); }
    }
  }

  /** The state format leaves: reserved entries set, the directory empty. */
  ghost predicate Formatted(fs: Fs) {
    Valid(fs) && fs.fat[0] == END_OF_CHAIN && fs.fat[1] == 0xFFFF && forall i :: 0 <= i < SLOTS ==> fs.root[i][0] == 0
  }

  lemma {:induction false} RunFrom(fat0: seq<u16>, fs: Fs, chains: seq<seq<nat>>, ops: seq<FileOp>) returns (after: seq<seq<nat>>)
    requires WellFormed(fat0, fs, chains) && Run(fs, ops).Ok?
    ensures WellFormed(fat0, Run(fs, ops).value, after)
    ensures FreeCount(Run(fs, ops).value.fat) + Total(after) == FreeCount(fs.fat) + Total(chains)
    decreases |ops|
  {
    hide FileWrite, WellFormed, FreeCount, Total;
    after := chains;
    if ops != [] {
      ValidOf(fat0, fs, chains);
      after := WriteWellFormed(fat0, fs, chains, ops[0]);
      after := RunFrom(fat0, FileWrite(fs, ops[0].name, ops[0].d, ops[0].junk).value.fs, after, ops[1..]);
    }
  }

  lemma ValidOf(fat0: seq<u16>, fs: Fs, chains: seq<seq<nat>>)
    requires WellFormed(fat0, fs, chains)
    ensures Valid(fs)
  {
  }

  /** The chains make g well formed, and the clusters no longer free are theirs. */
  ghost predicate Accounted(fs: Fs, g: Fs, chains: seq<seq<nat>>) {
    WellFormed(fs.fat, g, chains) && FreeCount(g.fat) + Total(chains) == FreeCount(fs.fat)
  }

  /** From format on, every run without a panic leaves a well-formed FAT, and the clusters taken are accounted for. */
  lemma WellFormedAlways(fs: Fs, ops: seq<FileOp>, g: Fs)
    requires Formatted(fs) && Run(fs, ops) == Ok(g)
    ensures exists chains :: Accounted(fs, g, chains)
  {
    var chains := RunFrom(fs.fat, fs, [], ops);
    assert Accounted(fs, g, chains);
  }

  /** The clusters met by following links from c, as a reader of the volume would. */
  function Follow(fat: seq<u16>, c: nat, fuel: nat): (r: seq<nat>)
    ensures forall i :: 0 <= i < |r| ==> r[i] < |fat|
    decreases fuel
  {
    if fuel == 0 || c >= |fat| then [] else [c] + Follow(fat, Swap(fat[c]), fuel - 1)
  }

  /** Following the links from the head of a chain visits exactly the chain and stops at the end mark. */
  lemma {:induction false} FollowChain(fat: seq<u16>, ch: seq<nat>, fuel: nat)
    requires IsChain(fat, ch) && |fat| == CLUSTERS && fuel >= |ch|
    ensures Follow(fat, ch[0], fuel) == ch
    decreases |ch|
  {
    assert LinkedAt(fat, ch, 0);
    if |ch| > 1 {
      var rest := ch[1..];
      forall i | 0 <= i < |rest| ensures LinkedAt(fat, rest, i) { assert LinkedAt(fat, ch, i + 1); }
      FollowChain(fat, rest, fuel - 1);
    } else {
      assert Follow(fat, END_OF_CHAIN, fuel - 1) == [];
    }
  }
}
