/**
 * When the directory search finds the right file.  memcmp as written accepts any entry whose
 * name is nowhere above the name sought, so an earlier entry of another name can answer for it.
 */
module Fat16Names {
  import opened Common
  import opened Fat16
  import opened Fat16Chains
  import opened Fat16Runs

  // ----- one directory ---------------------------------------------------------------

  /** Slot i is scanned and in use. */
  ghost predicate InUse(root: seq<slot>, i: int) {
    0 < i < |root| && root[i][0] != 0
  }

  /** Slot i holds exactly this name. */
  ghost predicate Holds(root: seq<slot>, native: seq<byte>, i: int) {
    InUse(root, i) && root[i][..11] == native
  }

  /** Slot i is in use and no byte of its name exceeds its counterpart in this one. */
  ghost predicate Below(root: seq<slot>, native: seq<byte>, i: int)
    requires |native| == 11
  {
    InUse(root, i) && forall b :: 0 <= b < 11 ==> root[i][b] <= native[b]
  }

  /** The search answers with the slot of this very name, and with 0 when there is none. */
  ghost predicate RightAnswer(root: seq<slot>, name: seq<byte>, answer: nat) {
    if exists i :: Holds(root, Native(name), i) then Holds(root, Native(name), answer) else answer == 0
  }

  lemma MatchesIsBelow(root: seq<slot>, native: seq<byte>, i: nat)
    requires |native| == 11 && 0 < i < |root|
    ensures Matches(native, root[i]) <==> Below(root, native, i)
  {
    MemcmpMeans(native, root[i][..11]);
  }

  /** A slot that holds the name is not above it. */
  lemma HoldsIsBelow(root: seq<slot>, native: seq<byte>, i: int)
    requires |native| == 11 && Holds(root, native, i)
    ensures Below(root, native, i)
  {
    assert forall b :: 0 <= b < 11 ==> root[i][b] == root[i][..11][b];
  }

  /** The search stops at the first slot that is not above the name. */
  lemma ExistsIsFirstBelow(root: seq<slot>, name: seq<byte>)
    requires |root| >= 1
    ensures var r := Exists(root, name);
      if r == 0 then forall i :: !Below(root, Native(name), i)
      else Below(root, Native(name), r) && forall i :: 0 < i < r ==> !Below(root, Native(name), i)
  {
    hide Native, Matches, Below;
    forall i: nat | 0 < i < |root| ensures Matches(Native(name), root[i]) <==> Below(root, Native(name), i) {
      MatchesIsBelow(root, Native(name), i);
    }
    forall i | Below(root, Native(name), i) ensures 0 < i < |root| { BelowInUse(root, Native(name), i); }
  }

  lemma BelowInUse(root: seq<slot>, native: seq<byte>, i: int)
    requires |native| == 11 && Below(root, native, i)
    ensures InUse(root, i)
  {
  }

  /**
   * The search is right for a name if and only if every used slot whose name is nowhere above it
   * has, at or before it, a slot that holds the name itself.
   */
  lemma LookupExact(root: seq<slot>, name: seq<byte>)
    requires |root| >= 1
    ensures RightAnswer(root, name, Exists(root, name)) <==>
      forall i :: Below(root, Native(name), i) ==> exists j :: j <= i && Holds(root, Native(name), j)
  {
    hide Native, Below, Exists;
    var r := Exists(root, name);
    ExistsIsFirstBelow(root, name);
    forall j | Holds(root, Native(name), j) ensures Below(root, Native(name), j) { HoldsIsBelow(root, Native(name), j); }
    forall i | Below(root, Native(name), i) ensures i > 0 { BelowInUse(root, Native(name), i); }
    if RightAnswer(root, name, r) {
      forall i | Below(root, Native(name), i) ensures exists j :: j <= i && Holds(root, Native(name), j) {
        assert r <= i && Holds(root, Native(name), r);
      }
    }
  }

  /** A write is refused exactly when a used slot's name is nowhere above the new one, whatever that name is. */
  lemma RefusedExact(fs: Fs, name: seq<byte>, d: seq<byte>, junk: seq<byte>)
    requires Valid(fs) && fs.fat[0] != 0 && |junk| == 13 && |d| < U32
    ensures FileWrite(fs, name, d, junk) == Ok(Outcome(FILE_EXISTS, fs)) <==> exists i :: Below(fs.root, Native(name), i)
  {
    hide FileWrite, Exists, Below, Native, Wrote, FreeCount, ClustersFor;
    ExistsIsFirstBelow(fs.root, name);
    var ch := WriteOutcome(fs, name, d, junk);
  }

  // ----- over runs -------------------------------------------------------------------

  /** Slots are filled in order, and no name was entered while one nowhere above it was there. */
  ghost predicate Ordered(root: seq<slot>) {
    forall i: nat, j: nat {:trigger InUse(root, i), InUse(root, j)} ::
      0 < i < j && InUse(root, j) ==> InUse(root, i) && !Below(root, root[j][..11], i)
  }

  /** In such a directory the search is wrong only for a name not there with one nowhere above it that is. */
  lemma LookupInOrder(root: seq<slot>, name: seq<byte>)
    requires |root| >= 1 && Ordered(root)
    ensures RightAnswer(root, name, Exists(root, name)) <==>
      (exists j :: Holds(root, Native(name), j)) || (forall i :: !Below(root, Native(name), i))
  {
    hide Native, Below, Exists;
    LookupExact(root, name);
    if j :| Holds(root, Native(name), j) {
      forall i | Below(root, Native(name), i) ensures j <= i {
        BelowInUse(root, Native(name), i);
        assert InUse(root, j);
      }
    }
  }

  lemma WriteOrdered(fs: Fs, w: FileOp)
    requires Valid(fs) && fs.fat[0] != 0 && Ordered(fs.root)
    ensures var r := FileWrite(fs, w.name, w.d, w.junk); r.Ok? ==> Ordered(r.value.fs.root)
  {
    hide FileWrite, Exists, Below, Native, FreeCount, ClustersFor, Extends, ClusterHolds;
    ExistsIsFirstBelow(fs.root, w.name);
    var ch := WriteOutcome(fs, w.name, w.d, w.junk);
    var r := FileWrite(fs, w.name, w.d, w.junk);
    if r.Ok? && r.value.code == SUCCESS { EntryOrdered(fs.root, w.name, r.value.fs.root); }
  }

  /** Entering a name that no used slot answers for, in the first free slot, keeps the order. */
  lemma EntryOrdered(root: seq<slot>, name: seq<byte>, after: seq<slot>)
    requires |root| == |after| == SLOTS && Ordered(root) && 0 !in name
    requires forall i :: !Below(root, Native(name), i)
    requires after[FreeSlot(root)][..11] == Native(name) && after == root[FreeSlot(root) := after[FreeSlot(root)]]
    ensures Ordered(after)
  {
    hide Native;
    var s := FreeSlot(root);
    NativeNonZero(name);
    assert s > 0 ==> !InUse(root, s) && forall j: nat :: j > s ==> !InUse(root, j);
    forall i: nat, j: nat | 0 < i < j && InUse(after, j) ensures InUse(after, i) && !Below(after, after[j][..11], i) {
      assert InUse(root, j) || j == s;
      assert InUse(root, i);
      assert !Below(root, Native(name), i);
    }
  }

  lemma {:induction false} RunOrdered(fs: Fs, ops: seq<FileOp>)
    requires Valid(fs) && fs.fat[0] != 0 && Ordered(fs.root)
    ensures Run(fs, ops).Ok? ==> Ordered(Run(fs, ops).value.root)
    decreases |ops|
  {
    hide FileWrite, Ordered;
    if ops != [] {
      WriteOrdered(fs, ops[0]);
      WriteKeeps(fs, ops[0]);
      var first := FileWrite(fs, ops[0].name, ops[0].d, ops[0].junk);
      if first.Ok? { RunOrdered(first.value.fs, ops[1..]); }
    }
  }

  /**
   * On every volume reached from a format, the search answers rightly for a name if and only if
   * the name is in the directory or no name in it is nowhere above this one.
   */
  lemma LookupAlways(fs: Fs, ops: seq<FileOp>, g: Fs, name: seq<byte>)
    requires Formatted(fs) && Run(fs, ops) == Ok(g)
    ensures RightAnswer(g.root, name, Exists(g.root, name)) <==>
      (exists j :: Holds(g.root, Native(name), j)) || (forall i :: !Below(g.root, Native(name), i))
  {
    hide Below, Exists, Native, RightAnswer, Run;
    assert forall i :: !InUse(fs.root, i);
    RunOrdered(fs, ops);
    LookupInOrder(g.root, name);
  }

  /** Once "A" is stored, "B" is refused, and reading "B", which was never written, gives the sector of "A". */
  lemma OtherNameAnswers(fs: Fs, a: FileOp, b: FileOp)
    requires Formatted(fs) && FreeCount(fs.fat) >= ClustersFor(|a.d|)
    requires a.name == [0x41] && b.name == [0x42]
    ensures var r := FileWrite(fs, a.name, a.d, a.junk);
      && r.Ok? && r.value.code == SUCCESS
      && FileWrite(r.value.fs, b.name, b.d, b.junk) == Ok(Outcome(FILE_EXISTS, r.value.fs))
      && FileRead(r.value.fs, a.name, 0) == (SUCCESS, Some(Kept(fs.data[FirstFree(fs.fat)], a.d)))
      && FileRead(r.value.fs, b.name, 0) == FileRead(r.value.fs, a.name, 0)
  {
    hide FileWrite, Kept, FreeCount, ClustersFor, FirstFree;
    assert forall i :: !InUse(fs.root, i);
    ExistsIsFirstBelow(fs.root, a.name);
    ClustersForOne(|a.d|);
    var ch := WriteOutcome(fs, a.name, a.d, a.junk);
    var h := FileWrite(fs, a.name, a.d, a.junk).value.fs;
    Persistence(fs, a, h, [], h);
    assert h.root[1][..11] == Native(a.name);
    assert forall k :: 0 <= k < 11 ==> Native(a.name)[k] <= Native(b.name)[k];
    assert forall k :: 0 <= k < 11 ==> h.root[1][k] == h.root[1][..11][k];
    assert Below(h.root, Native(a.name), 1) && Below(h.root, Native(b.name), 1);
    ExistsIsFirstBelow(h.root, a.name);
    RefusedExact(h, b.name, b.d, b.junk);
    ExistsIsFirstBelow(h.root, b.name);
  }

  const TestBin: seq<byte> := [0x74, 0x65, 0x73, 0x74, 0x2E, 0x62, 0x69, 0x6E]
  const TestAsm: seq<byte> := [0x74, 0x65, 0x73, 0x74, 0x2E, 0x61, 0x73, 0x6D]

  lemma TestNatives()
    ensures Native(TestBin) == [0x74, 0x65, 0x73, 0x74, 0x20, 0x20, 0x20, 0x20, 0x62, 0x69, 0x6E]
    ensures Native(TestAsm) == [0x74, 0x65, 0x73, 0x74, 0x20, 0x20, 0x20, 0x20, 0x61, 0x73, 0x6D]
  {
    hide Native;
    var stem: seq<byte> := [0x74, 0x65, 0x73, 0x74];
    NativeOf(TestBin, stem, [0x62, 0x69, 0x6E]);
    NativeOf(TestAsm, stem, [0x61, 0x73, 0x6D]);
  }

  /** Names that differ in the extension alone may still be told apart: "test.asm" is not found, nor refused, once "test.bin" is stored. */
  lemma ExtensionTold(fs: Fs, w: FileOp, d: seq<byte>, junk: seq<byte>)
    requires Formatted(fs) && FreeCount(fs.fat) >= ClustersFor(|w.d|) && w.name == TestBin && |junk| == 13 && |d| < U32
    ensures var r := FileWrite(fs, w.name, w.d, w.junk);
      && r.Ok? && r.value.code == SUCCESS
      && Exists(r.value.fs.root, TestBin) == 1 && Exists(r.value.fs.root, TestAsm) == 0
      && FileRead(r.value.fs, TestAsm, 0) == (DOESNT_EXIST, None)
      && FileWrite(r.value.fs, TestAsm, d, junk) != Ok(Outcome(FILE_EXISTS, r.value.fs))
  {
    hide FileWrite, Kept, FreeCount, ClustersFor, FirstFree, Native, Exists;
    assert forall i :: !InUse(fs.root, i);
    ExistsIsFirstBelow(fs.root, w.name);
    ClustersForOne(|w.d|);
    var ch := WriteOutcome(fs, w.name, w.d, w.junk);
    var h := FileWrite(fs, w.name, w.d, w.junk).value.fs;
    TestNatives();
    assert h.root[1][..11] == Native(TestBin);
    assert forall k :: 0 <= k < 11 ==> h.root[1][k] == h.root[1][..11][k];
    assert forall i :: InUse(h.root, i) ==> i == 1;
    assert h.root[1][8] == 0x62 && Native(TestAsm)[8] == 0x61;
    assert Below(h.root, Native(TestBin), 1) && !Below(h.root, Native(TestAsm), 1);
    ExistsIsFirstBelow(h.root, TestBin);
    ExistsIsFirstBelow(h.root, TestAsm);
    WriteKeeps(fs, w);
    RefusedExact(h, TestAsm, d, junk);
  }
}
