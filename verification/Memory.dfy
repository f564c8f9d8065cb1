/** Physical memory: one array of bytes that every component of the kernel reads and writes. */
module Memory {
  import opened Common

  /** The little-endian 32-bit word at address a of memory m. */
  function Word(m: seq<byte>, a: nat): u32
    requires a + 4 <= |m|
  {
    m[a] as int + 0x100 * m[a + 1] as int + 0x1_0000 * m[a + 2] as int + 0x100_0000 * m[a + 3] as int
  }

  /** Memory m with the word w stored at address a. */
  function PutWord(m: seq<byte>, a: nat, w: u32): (r: seq<byte>)
    requires a + 4 <= |m|
    ensures |r| == |m|
  {
    m[a := w % 0x100][a + 1 := w / 0x100 % 0x100][a + 2 := w / 0x1_0000 % 0x100][a + 3 := w / 0x100_0000]
  }

  /** A word stored is the word read back, and no other byte changes. */
  lemma PutWordReads(m: seq<byte>, a: nat, w: u32)
    requires a + 4 <= |m|
    ensures Word(PutWord(m, a, w), a) == w
    ensures forall k :: 0 <= k < |m| && !(a <= k < a + 4) ==> PutWord(m, a, w)[k] == m[k]
  {
    assert w / 0x100 == w / 0x1_0000 * 0x100 + w / 0x100 % 0x100;
    assert w / 0x1_0000 == w / 0x100_0000 * 0x100 + w / 0x1_0000 % 0x100;
  }

  method ReadWord(ram: array<byte>, a: nat) returns (w: u32)
    requires a + 4 <= ram.Length
    ensures w == Word(ram[..], a)
  {
    w := ram[a] as int + 0x100 * ram[a + 1] as int + 0x1_0000 * ram[a + 2] as int + 0x100_0000 * ram[a + 3] as int;
  }

  method WriteWord(ram: array<byte>, a: nat, w: u32)
    requires a + 4 <= ram.Length
    modifies ram
    ensures ram[..] == PutWord(old(ram[..]), a, w)
  {
    ram[a] := w % 0x100;
    ram[a + 1] := w / 0x100 % 0x100;
    ram[a + 2] := w / 0x1_0000 % 0x100;
    ram[a + 3] := w / 0x100_0000;
  }

  /** x & ~0xFFF */
  function PageBase(x: u32): (r: u32)
    ensures r % PAGE == 0 && r <= x && r + PAGE <= U32
  {
    x - x % PAGE
  }

  ghost predicate Aligned(p: nat) {
    p % PAGE == 0
  }

  /** Different aligned pages have no byte in common. */
  lemma PagesApart(p: nat, q: nat, i: nat)
    requires Aligned(p) && Aligned(q) && p != q && i < PAGE
    ensures !(q <= p + i < q + PAGE)
  {
  }

  /** The page at p is the same in m and n. */
  ghost predicate SamePage(m: seq<byte>, n: seq<byte>, p: nat) {
    |m| == |n| && p + PAGE <= |m| && forall k :: p <= k < p + PAGE ==> m[k] == n[k]
  }

  /** Only the page at p may differ between m and n. */
  ghost predicate OnlyPage(m: seq<byte>, n: seq<byte>, p: nat) {
    |m| == |n| && forall k :: 0 <= k < |m| && !(p <= k < p + PAGE) ==> m[k] == n[k]
  }

  lemma OtherPageSame(m: seq<byte>, n: seq<byte>, p: nat, q: nat)
    requires OnlyPage(m, n, p) && Aligned(p) && Aligned(q) && p != q && q + PAGE <= |m|
    ensures SamePage(m, n, q)
  {
  }
}
