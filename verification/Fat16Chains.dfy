/**
 * What one file write does to the FAT and the data area.  The loop picks the next
 * cluster before the current one is marked, so it visits every cluster twice; the
 * file ends up on a proper chain, but each cluster keeps only its second sector.
 */
module Fat16Chains {
  import opened Common
  import opened Fat16

  /** cluster is the lowest free one. */
  ghost predicate Lowest(fat: seq<u16>, cluster: nat) {
    0 < cluster < |fat| && fat[cluster] == 0 && forall k :: 0 <= k < cluster ==> fat[k] != 0
  }

  lemma LowestIsFirstFree(fat: seq<u16>, c: nat)
    requires |fat| > 0 && fat[0] != 0
    ensures Lowest(fat, c) <==> c == FirstFree(fat) && c != 0
  {
  }

  /** The sector a pair of visits leaves on a cluster that held s, when d is all that is left to write. */
  function Kept(s: sector, d: seq<byte>): sector {
    if |d| <= SECTOR then Overwrite(s, d)
    else if |d| <= 2 * SECTOR then Overwrite(d[..SECTOR], d[SECTOR..])
    else d[SECTOR..2 * SECTOR]
  }

  /** The volume and the chain after writing d from cluster `current` on, two sectors at a time. */
  function Store(fs: Fs, current: nat, d: seq<byte>): (r: Result<(Fs, seq<nat>)>)
    requires Valid(fs) && current < CLUSTERS
    ensures r.Ok? ==> Valid(r.value.0) && r.value.1 != [] && r.value.1[0] == current
    decreases |d|
  {
    var filled := fs.(data := fs.data[current := Kept(fs.data[current], d)]);
    if |d| <= 2 * SECTOR then
      Ok((filled.(fat := fs.fat[current := Swap(END_OF_CHAIN)]), [current]))
    else
      var next := FirstFree(fs.fat[current := Swap(current)]);
      if next == 0 then Panic
      else
        var rest := Store(filled.(fat := fs.fat[current := Swap(next)]), next, d[2 * SECTOR..]);
        if rest.Panic? then Panic else Ok((rest.value.0, [current] + rest.value.1))
  }

  lemma NoneFree(fat: seq<u16>)
    requires |fat| > 0 && fat[0] != 0
    ensures FirstFree(fat) == 0 <==> forall c :: 0 <= c < |fat| ==> fat[c] != 0
  {
  }

  /** After the first visit the cluster is linked to itself and the next search starts behind it. */
  lemma SelfLink(fs: Fs, current: nat, d: seq<byte>)
    requires Valid(fs) && fs.fat[0] != 0 && Lowest(fs.fat, current) && |d| > SECTOR
    ensures WriteLoop(fs, current, d)
      == WriteLoop(Fs(fs.fat[current := Swap(current)], fs.root, fs.data[current := d[..SECTOR]]), current, d[SECTOR..])
  {
  }

  lemma StillLowest(fat: seq<u16>, current: nat)
    requires |fat| == CLUSTERS && fat[0] != 0 && Lowest(fat, current)
    ensures var next := FirstFree(fat[current := Swap(current)]);
      next == 0 || (current < next && fat[next] == 0 && Lowest(fat[current := Swap(next)], next))
  {
    var marked := fat[current := Swap(current)];
    var next := FirstFree(marked);
    LowestIsFirstFree(marked, next);
    if next != 0 {
      assert marked[next] == 0;
      var linked := fat[current := Swap(next)];
      forall k | 0 <= k < next ensures linked[k] != 0 {
        assert marked[k] != 0;
      }
    }
  }

  lemma SecondVisit(fs: Fs, current: nat, d: seq<byte>)
    requires Valid(fs) && fs.fat[0] != 0 && Lowest(fs.fat, current) && |d| > 2 * SECTOR
    ensures var next := FirstFree(fs.fat[current := Swap(current)]);
      WriteLoop(fs, current, d) == if next == 0 then Panic else
        WriteLoop(Fs(fs.fat[current := Swap(next)], fs.root, fs.data[current := d[SECTOR..2 * SECTOR]]), next, d[2 * SECTOR..])
  {
    SelfLink(fs, current, d);
    var mid := Fs(fs.fat[current := Swap(current)], fs.root, fs.data[current := d[..SECTOR]]);
    var e := d[SECTOR..];
    var next := FirstFree(mid.fat);
    assert e[..SECTOR] == d[SECTOR..2 * SECTOR];
    assert mid.data[current := e[..SECTOR]] == fs.data[current := d[SECTOR..2 * SECTOR]];
    assert mid.fat[current := Swap(next)] == fs.fat[current := Swap(next)];
    assert e[SECTOR..] == d[2 * SECTOR..];
  }

  /** The loop followed by the last cluster is the two-sector recursion. */
  lemma {:induction false} LoopIsStore(fs: Fs, current: nat, d: seq<byte>)
    requires Valid(fs) && fs.fat[0] != 0 && Lowest(fs.fat, current)
    ensures var loop := WriteLoop(fs, current, d);
      if loop.Panic? then Store(fs, current, d).Panic?
      else Store(fs, current, d).Ok? && Finish(loop.value) == Store(fs, current, d).value.0
    decreases |d|
  {
    if |d| > 2 * SECTOR {
      SecondVisit(fs, current, d);
      var next := FirstFree(fs.fat[current := Swap(current)]);
      if next != 0 {
        StillLowest(fs.fat, current);
        LoopIsStore(Fs(fs.fat[current := Swap(next)], fs.root, fs.data[current := d[SECTOR..2 * SECTOR]]), next, d[2 * SECTOR..]);
      }
    } else if |d| > SECTOR {
      SelfLink(fs, current, d);
      var mid := Fs(fs.fat[current := Swap(current)], fs.root, fs.data[current := d[..SECTOR]]);
      var last := Finish(WriteLoop(mid, current, d[SECTOR..]).value);
      assert last.fat == fs.fat[current := Swap(END_OF_CHAIN)];
      assert last.data == fs.data[current := Kept(fs.data[current], d)];
    }
  }

  // ----- chains -------------------------------------------------------------------

  ghost predicate Ascending(ch: seq<nat>) {
    forall i, j :: 0 <= i < j < |ch| ==> ch[i] < ch[j]
  }

  ghost predicate LinkedAt(fat: seq<u16>, ch: seq<nat>, i: int) {
    && 0 <= i < |ch| && 0 < ch[i] < |fat|
    && Swap(fat[ch[i]]) == if i + 1 < |ch| then ch[i + 1] else END_OF_CHAIN
  }

  /** Following byte-swapped links from ch[0] visits ch in ascending order and ends at 0xFFF8. */
  ghost predicate IsChain(fat: seq<u16>, ch: seq<nat>) {
    ch != [] && Ascending(ch) && forall i :: 0 <= i < |ch| ==> LinkedAt(fat, ch, i)
  }

  /** fs became g by putting the chain ch on clusters that were free, and nothing else changed. */
  ghost predicate Extends(fs: Fs, g: Fs, ch: seq<nat>) {
    && Valid(fs) && Valid(g) && g.root == fs.root
    && IsChain(g.fat, ch)
    && (forall i :: 0 <= i < |ch| ==> ch[i] < CLUSTERS && fs.fat[ch[i]] == 0)
    && (forall c :: 0 <= c < CLUSTERS && c !in ch ==> g.fat[c] == fs.fat[c] && g.data[c] == fs.data[c])
  }

  lemma ChainCons(fat: seq<u16>, c: nat, rest: seq<nat>)
    requires IsChain(fat, rest) && 0 < c < rest[0] && c < |fat| && Swap(fat[c]) == rest[0]
    ensures IsChain(fat, [c] + rest)
  {
    var ch := [c] + rest;
    forall i | 0 <= i < |ch| ensures LinkedAt(fat, ch, i) {
      if i > 0 { assert LinkedAt(fat, rest, i - 1); }
    }
  }

  lemma {:induction false} StoreExtends(fs: Fs, current: nat, d: seq<byte>)
    requires Valid(fs) && fs.fat[0] != 0 && Lowest(fs.fat, current)
    requires Store(fs, current, d).Ok?
    ensures var (g, ch) := Store(fs, current, d).value; Extends(fs, g, ch)
    decreases |d|
  {
    hide Kept;
    var (g, ch) := Store(fs, current, d).value;
    if |d| <= 2 * SECTOR {
      SwapTwice(END_OF_CHAIN);
      assert LinkedAt(g.fat, ch, 0);
    } else {
      var next := FirstFree(fs.fat[current := Swap(current)]);
      StillLowest(fs.fat, current);
      SwapTwice(next);
      var mid := Fs(fs.fat[current := Swap(next)], fs.root, fs.data[current := Kept(fs.data[current], d)]);
      StoreExtends(mid, next, d[2 * SECTOR..]);
      var rest := Store(mid, next, d[2 * SECTOR..]).value.1;
      assert ch == [current] + rest;
      assert forall i :: 0 <= i < |rest| ==> rest[i] >= next;
      assert current !in rest;
      ChainCons(g.fat, current, rest);
    }
  }

  /** What each cluster of the chain ends up holding. */
  lemma {:induction false} StoreHolds(fs: Fs, current: nat, d: seq<byte>, m: nat)
    requires Valid(fs) && fs.fat[0] != 0 && Lowest(fs.fat, current)
    requires Store(fs, current, d).Ok? && m < |Store(fs, current, d).value.1|
    ensures 2 * m * SECTOR <= |d|
    ensures var (g, ch) := Store(fs, current, d).value;
      ch[m] < CLUSTERS && g.data[ch[m]] == Kept(fs.data[ch[m]], d[2 * m * SECTOR..])
    decreases |d|
  {
    StoreExtends(fs, current, d);
    if |d| > 2 * SECTOR {
      var (g, ch) := Store(fs, current, d).value;
      var next := FirstFree(fs.fat[current := Swap(current)]);
      StillLowest(fs.fat, current);
      var mid := Fs(fs.fat[current := Swap(next)], fs.root, fs.data[current := Kept(fs.data[current], d)]);
      StoreExtends(mid, next, d[2 * SECTOR..]);
      var rest := Store(mid, next, d[2 * SECTOR..]).value.1;
      assert ch == [current] + rest;
      if m > 0 {
        StoreHolds(mid, next, d[2 * SECTOR..], m - 1);
        assert d[2 * SECTOR..][2 * (m - 1) * SECTOR..] == d[2 * m * SECTOR..];
      } else {
        assert current !in rest;
        assert d[0..] == d;
      }
    } else {
      assert d[0..] == d;
    }
  }

  // ----- space ----------------------------------------------------------------------

  ghost function FreeCount(fat: seq<u16>): nat {
    if fat == [] then 0 else (if fat[|fat| - 1] == 0 then 1 else 0) + FreeCount(fat[..|fat| - 1])
  }

  lemma {:induction false} FreeCountMark(fat: seq<u16>, c: nat, v: u16)
    requires c < |fat| && fat[c] == 0 && v != 0
    ensures FreeCount(fat[c := v]) == FreeCount(fat) - 1
  {
    if c < |fat| - 1 {
      FreeCountMark(fat[..|fat| - 1], c, v);
      assert fat[c := v][..|fat| - 1] == fat[..|fat| - 1][c := v];
    } else {
      assert fat[c := v][..|fat| - 1] == fat[..|fat| - 1];
    }
  }

  lemma {:induction false} FreeCountZero(fat: seq<u16>)
    ensures FreeCount(fat) == 0 <==> forall c :: 0 <= c < |fat| ==> fat[c] != 0
  {
    if fat != [] { FreeCountZero(fat[..|fat| - 1]); }
  }

  lemma {:induction false} FreeCountTail(fat: seq<u16>, n: nat)
    requires n <= |fat| && forall c :: n <= c < |fat| ==> fat[c] == 0
    ensures FreeCount(fat) >= |fat| - n
  {
    if n < |fat| { FreeCountTail(fat[..|fat| - 1], n); }
  }

  /** One cluster holds two sectors' worth of visits. */
  function ClustersFor(size: nat): nat {
    if size <= 2 * SECTOR then 1 else (size + 2 * SECTOR - 1) / (2 * SECTOR)
  }

  lemma ClustersForOne(size: nat)
    ensures ClustersFor(size) >= 1 && (size <= 2 * SECTOR ==> ClustersFor(size) == 1)
  {
  }

  lemma ClustersForMore(size: nat)
    requires size > 2 * SECTOR
    ensures ClustersFor(size) == 1 + ClustersFor(size - 2 * SECTOR)
  {
  }

  /** The write panics exactly when the free clusters do not suffice, and takes exactly as many as it needs. */
  lemma {:induction false} StoreSpace(fs: Fs, current: nat, d: seq<byte>)
    requires Valid(fs) && fs.fat[0] != 0 && Lowest(fs.fat, current)
    ensures Store(fs, current, d).Ok? <==> FreeCount(fs.fat) >= ClustersFor(|d|)
    ensures Store(fs, current, d).Ok? ==>
      var (g, ch) := Store(fs, current, d).value;
      |ch| == ClustersFor(|d|) && FreeCount(g.fat) == FreeCount(fs.fat) - |ch|
    decreases |d|
  {
    hide FreeCount, ClustersFor, FirstFree, Kept;
    FreeCountMark(fs.fat, current, Swap(END_OF_CHAIN));
    ClustersForOne(|d|);
    if |d| > 2 * SECTOR {
      ClustersForMore(|d|);
      var marked := fs.fat[current := Swap(current)];
      FreeCountMark(fs.fat, current, Swap(current));
      var next := FirstFree(marked);
      StillLowest(fs.fat, current);
      FreeCountZero(marked);
      NoneFree(marked);
      ClustersForOne(|d| - 2 * SECTOR);
      if next != 0 {
        FreeCountMark(fs.fat, current, Swap(next));
        var mid := Fs(fs.fat[current := Swap(next)], fs.root, fs.data[current := Kept(fs.data[current], d)]);
        StoreSpace(mid, next, d[2 * SECTOR..]);
      }
    }
  }
}
