/** The ring buffer behind standard output, kept in a page of physical memory and flushed to the screen. */
module Stdio {
  import opened Common
  import opened Memory
  import Pmem
  import Vga

  const TEXT_COLOR: byte := 0x0F

  // ----- the ring, on the page as a value ----------------------------------------

  /** The bytes between tail and head, in the order they were placed. */
  function Ring(page: seq<byte>, tail: nat, head: nat): (r: seq<byte>)
    requires |page| == PAGE && tail < PAGE && head < PAGE
    ensures |r| == if tail <= head then head - tail else head + PAGE - tail
  {
    if tail <= head then page[tail..head] else page[tail..PAGE] + page[0..head]
  }

  /** The next place of the ring. */
  function Wrap(i: nat): nat {
    if i + 1 == PAGE then 0 else i + 1
  }

  lemma WrapIsMod(i: nat, size: nat)
    requires i < size == PAGE
    ensures (i + 1) % size == Wrap(i) < PAGE
  {
  }

  /** The ring is full exactly when the place after the head is the tail. */
  lemma RoomIs(page: seq<byte>, tail: nat, head: nat)
    requires |page| == PAGE && tail < PAGE && head < PAGE
    ensures Wrap(head) == tail <==> |Ring(page, tail, head)| == PAGE - 1
  {
  }

  /** Storing at the head and advancing it appends, unless the head runs into the tail. */
  lemma RingPush(page: seq<byte>, tail: nat, head: nat, c: byte)
    requires |page| == PAGE && tail < PAGE && head < PAGE && Wrap(head) != tail
    ensures Ring(page[head := c], tail, Wrap(head)) == Ring(page, tail, head) + [c]
  {
  }

  /** Advancing the tail drops the oldest byte. */
  lemma RingPop(page: seq<byte>, tail: nat, head: nat)
    requires |page| == PAGE && tail < PAGE && head < PAGE && tail != head
    ensures Ring(page, tail, head) == [page[tail]] + Ring(page, Wrap(tail), head)
  {
    if tail < head {
      FirstApart(page, tail, head);
    } else {
      FirstApart(page, tail, PAGE);
      var a, b := page[tail + 1..PAGE], page[0..head];
      assert ([page[tail]] + a) + b == [page[tail]] + (a + b);
      if tail + 1 == PAGE { assert a + b == b; }
    }
  }

  lemma PopNonZero(page: seq<byte>, tail: nat, head: nat)
    requires |page| == PAGE && tail < PAGE && head < PAGE && tail != head && 0 !in Ring(page, tail, head)
    ensures page[tail] != 0 && 0 !in Ring(page, Wrap(tail), head)
  {
  }

  lemma FirstApart(s: seq<byte>, i: nat, j: nat)
    requires i < j <= |s|
    ensures s[i..j] == [s[i]] + s[i + 1..j]
  {
  }

  /** How many of n bytes sent are still pending when the ring is emptied each time it holds 4095 and another comes. */
  function Rest(n: nat): (r: nat)
    ensures r <= n && r <= 4095 && (n <= 4095 ==> r == n)
  {
    if n == 0 then 0 else (n - 1) % 4095 + 1
  }

  /** The ring holds the last of all bytes sent, as many as are left of them. */
  ghost predicate Leftover(ring: seq<byte>, all: seq<byte>) {
    ring == all[|all| - Rest(|all|)..]
  }

  lemma LeftoverNext(ring: seq<byte>, all: seq<byte>, c: byte)
    requires Leftover(ring, all)
    ensures Leftover(if |ring| == 4095 then [c] else ring + [c], all + [c])
  {
    var more := all + [c];
    assert Rest(|more|) == if Rest(|all|) == 4095 then 1 else Rest(|all|) + 1;
  }

  lemma LeftoverShort(all: seq<byte>)
    requires |all| < PAGE
    ensures Leftover(all, all)
  {
  }

  function Text(s: seq<byte>): seq<Vga.Cell> {
    Vga.Colored(s, TEXT_COLOR)
  }

  lemma TextConcat(a: seq<byte>, b: seq<byte>)
    ensures Text(a + b) == Text(a) + Text(b)
  {
  }

  lemma TextNone()
    ensures Text([]) == []
  {
  }

  lemma TextOne(c: byte)
    ensures Text([c]) == [Vga.Cell(c, Vga.DefaultColor(TEXT_COLOR))]
  {
  }

  class IoBuffer {
    const pmem: Pmem.PageAllocator
    const ram: array<byte>
    const screen: Vga.Screen
    const autoflush: bool
    var isInitializing: bool
    var isInit: bool
    var bAddr: u32
    var headPtr: nat
    var tailPtr: nat
    var bSize: nat

    ghost predicate InPage()
      reads this
    {
      isInit && bSize == PAGE && bAddr + PAGE <= ram.Length && headPtr < PAGE && tailPtr < PAGE
    }

    /** What has been placed and not yet popped. */
    ghost function Pending(): seq<byte>
      reads this, ram
    {
      if InPage() then Ring(ram[bAddr..bAddr + PAGE], tailPtr, headPtr) else []
    }

    /** Everything sent to the screen so far, followed by what is still to come. */
    ghost function Sent(): seq<Vga.Cell>
      reads this, ram, screen
    {
      screen.tape.printed + Text(Pending())
    }

    ghost predicate Valid()
      reads this, ram, pmem, pmem.ram, screen, screen.vidmem
    {
      && pmem.Valid() && pmem.ram == ram && screen.Valid() && screen.vidmem != ram
      && !isInitializing
      && (isInit ==> InPage() && pmem.IsPage(bAddr) && bAddr in pmem.UsedPages())
      && (!isInit ==> headPtr == tailPtr == 0)
      && 0 !in Pending()
    }

    constructor (pmem: Pmem.PageAllocator, screen: Vga.Screen, autoflush: bool)
      requires pmem.Valid() && screen.Valid() && screen.vidmem != pmem.ram
      ensures Valid() && Pending() == [] && this.screen == screen && this.pmem == pmem && this.autoflush == autoflush && !isInit
    {
      this.pmem := pmem;
      ram := pmem.ram;
      this.screen := screen;
      this.autoflush := autoflush;
      isInitializing, isInit := false, false;
      bAddr, headPtr, tailPtr, bSize := 0, 0, 0, 0;
    }

    /** Nothing in memory but the buffer's page has changed. */
    twostate predicate OnlyBuffer()
      reads this, ram
    {
      forall a: nat :: a < ram.Length && !(bAddr <= a < bAddr + PAGE) ==> ram[a] == old(ram[a])
    }

    /** Whatever happens to other pages, the buffer keeps what is pending. */
    twostate lemma Kept()
      requires old(Valid()) && unchanged(this) && unchanged(screen) && unchanged(screen.vidmem) && pmem.Grown()
      requires isInit ==> SamePage(old(ram[..]), ram[..], bAddr)
      ensures Valid() && Pending() == old(Pending())
    {
      hide Ring, Pmem.PagesOf, Vga.Shows;
      if isInit { assert ram[bAddr..bAddr + PAGE] == old(ram[bAddr..bAddr + PAGE]); }
    }

    /** io_buffer_empty */
    method Empty() returns (b: bool)
      requires Valid()
      ensures b <==> Pending() == []
    {
      b := headPtr == tailPtr;
    }

    /** io_buffer_pop: the oldest byte, or zero when there is none. */
    method Pop() returns (c: byte)
      requires Valid()
      modifies `tailPtr
      ensures Valid()
      ensures if old(Pending()) == [] then c == 0 && Pending() == []
              else c != 0 && old(Pending()) == [c] + Pending()
    {
      hide Ring, Vga.Shows, Pmem.PagesOf;
      if !isInit { return 0; }
      var empty := Empty();
      if empty { return 0; }
      c := PopByte();
    }

    /** The part of io_buffer_pop for a buffer that is not empty. */
    method PopByte() returns (c: byte)
      requires Valid() && Pending() != []
      modifies `tailPtr
      ensures Valid() && c != 0 && old(Pending()) == [c] + Pending()
    {
      hide Ring, Wrap, Pmem.PageAllocator.Valid, Pmem.PageAllocator.IsPage, Pmem.PageAllocator.UsedPages, Vga.Screen.Valid;
      ghost var page := ram[bAddr..bAddr + PAGE];
      RingPop(page, tailPtr, headPtr);
      PopNonZero(page, tailPtr, headPtr);
      c := ram[bAddr + tailPtr];
      WrapIsMod(tailPtr, bSize);
      var next := (tailPtr + 1) % bSize;
      assert next == Wrap(tailPtr) < PAGE;
      tailPtr := next;
    }

    /** Print one byte just popped and pop the next. */
    method PrintAndPop(c: byte) returns (next: byte)
      requires Valid()
      modifies `tailPtr, screen, screen.vidmem
      ensures Valid()
      ensures screen.tape.printed == old(screen.tape.printed) + Text([c])
      ensures if old(Pending()) == [] then next == 0 && Pending() == []
              else next != 0 && old(Pending()) == [next] + Pending()
    {
      hide Ring, Vga.Shows, Pmem.PagesOf, Vga.Colored;
      TextOne(c);
      screen.PrintScreenChar(c, TEXT_COLOR);
      next := Pop();
    }

    /** io_buffer_flush_to_screen: nothing is lost, reordered or left behind. */
    method FlushToScreen()
      requires Valid()
      modifies `tailPtr, screen, screen.vidmem
      ensures Valid() && Pending() == [] && Sent() == old(Sent())
    {
      hide Ring, Vga.Shows, Text, Pmem.PagesOf, Pending, Valid;
      ghost var sent := Sent();
      TextNone();
      var nextChar := Pop();
      ghost var left := if nextChar == 0 then [] else [nextChar] + Pending();
      while nextChar != 0
        invariant Valid() && left == (if nextChar == 0 then [] else [nextChar] + Pending())
        invariant nextChar == 0 ==> Pending() == []
        invariant sent == screen.tape.printed + Text(left)
        decreases |left|
      {
        TextConcat([nextChar], left[1..]);
        ghost var printed := screen.tape.printed;
        assert (printed + Text([nextChar])) + Text(left[1..]) == printed + Text(left);
        nextChar := PrintAndPop(nextChar);
        left := left[1..];
      }
    }

    /** The lazy initialisation at the start of io_buffer_place. */
    method Prepare() returns (r: Result<()>)
      requires Valid()
      modifies this, ram, pmem`currAllocRecord
      ensures r.Ok? ==> Valid() && isInit && Pending() == old(Pending()) && pmem.OnlyTable()
      ensures old(isInit) ==> unchanged(ram) && bAddr == old(bAddr)
      ensures !old(isInit) && r.Ok? ==> bAddr !in old(pmem.UsedPages()) && pmem.UsedPages() == old(pmem.UsedPages()) + {bAddr}
      ensures r.Ok? <==> old(isInit) || old(pmem.Available()) > 0
      ensures r.Ok? ==> pmem.Available() == old(pmem.Available()) - (if old(isInit) then 0 else 1)
    {
      hide Pmem.PagesOf, Pmem.Search, Pmem.AvailableIn, Vga.Shows;
      if !isInit {
        if isInitializing { return Panic; }
        isInitializing := true;
        var alloc := pmem.Alloc();
        if alloc.Panic? { return Panic; }
        pmem.PageInMemory(alloc.value);
        bAddr := alloc.value;
        bSize := PAGE;
        isInit := true;
        isInitializing := false;
      }
      r := Ok(());
    }

    /** Store a byte at the head and advance it. */
    method Store(c: byte, next: nat)
      requires Valid() && isInit && c != 0 && next == Wrap(headPtr) && next != tailPtr
      modifies `headPtr, ram
      ensures Valid() && Pending() == old(Pending()) + [c] && headPtr == next
      ensures pmem.Records() == old(pmem.Records()) && OnlyBuffer()
    {
      hide Ring, Wrap, Pmem.PageAllocator.IsPage, Pmem.PagesOf, Vga.Screen.Valid;
      ghost var page, m, recs := ram[bAddr..bAddr + PAGE], ram[..], pmem.Records();
      var a := bAddr + headPtr;
      WrapIsMod(headPtr, bSize);
      RingPush(page, tailPtr, headPtr, c);
      ram[a] := c;
      pmem.PageWrite(m, bAddr, a, c);
      assert ram[..] == m[a := c];
      assert pmem.Records() == recs;
      assert ram[bAddr..bAddr + PAGE] == page[headPtr := c];
      headPtr := next;
    }

    /** The flush before a byte is placed in a full ring. */
    method MakeRoom(next: nat)
      requires Valid() && isInit && next == Wrap(headPtr)
      modifies `tailPtr, screen, screen.vidmem
      ensures Valid() && Sent() == old(Sent())
      ensures Pending() == if autoflush && |old(Pending())| == 4095 then [] else old(Pending())
      ensures |old(Pending())| < 4095 || !autoflush ==> screen.tape == old(screen.tape)
      ensures next == tailPtr <==> |Pending()| == 4095
    {
      hide Ring, Vga.Shows, Text, Pmem.PagesOf, Wrap;
      RoomIs(ram[bAddr..bAddr + PAGE], tailPtr, headPtr);
      if next == tailPtr {
        if autoflush {
          FlushToScreen();
          RoomIs(ram[bAddr..bAddr + PAGE], tailPtr, headPtr);
        }
      }
    }

    /** One turn of the placing loop; full tells that the byte found no room. */
    method PlaceByte(c: byte) returns (full: bool)
      requires Valid() && isInit && c != 0
      modifies `headPtr, `tailPtr, ram, screen, screen.vidmem
      ensures full <==> !autoflush && |old(Pending())| == PAGE - 1
      ensures !full ==> pmem.Records() == old(pmem.Records()) && OnlyBuffer()
      ensures !full ==> Valid() && isInit && Sent() == old(Sent()) + Text([c])
      ensures !full && |old(Pending())| < 4095 ==> Pending() == old(Pending()) + [c] && screen.tape == old(screen.tape)
      ensures !full && |old(Pending())| == 4095 ==> Pending() == [c]
    {
      hide Text, Wrap, Valid, Pending;
      PageIsThere();
      WrapIsMod(headPtr, bSize);
      var nextHeadPtr := (headPtr + 1) % bSize;
      MakeRoom(nextHeadPtr);
      if nextHeadPtr != (headPtr + 1) % bSize { assert false; }
      PageIsThere();
      ghost var pending, printed := Pending(), screen.tape.printed;
      TextConcat(pending, [c]);
      if nextHeadPtr != tailPtr {
        Store(c, nextHeadPtr);
        assert printed + Text(pending + [c]) == printed + Text(pending) + Text([c]);
        PageIsThere();
      } else {
        Overrun(c, nextHeadPtr);
      }
      full := headPtr == tailPtr;
    }

    lemma PageIsThere()
      requires Valid() && isInit
      ensures InPage() && |Pending()| < PAGE && pmem.Valid() && pmem.ram == ram != screen.vidmem
    {
    }

    /** The same store when the head catches up with the tail; the caller panics. */
    method Overrun(c: byte, next: nat)
      requires InPage()
      modifies `headPtr, ram
      ensures headPtr == next
    {
      ram[bAddr + headPtr] := c;
      headPtr := next;
    }

    lemma PendingBound()
      requires Valid()
      ensures |Pending()| < PAGE && 0 !in Pending() && pmem.Valid()
    {
    }

    /** The same turn, after the bytes of `all`. */
    method PlaceNext(c: byte, ghost all: seq<byte>) returns (full: bool)
      requires Valid() && isInit && c != 0 && Leftover(Pending(), all)
      modifies `headPtr, `tailPtr, ram, screen, screen.vidmem
      ensures full <==> !autoflush && |old(Pending())| == PAGE - 1
      ensures !full ==> pmem.Valid() && pmem.Records() == old(pmem.Records()) && OnlyBuffer()
      ensures !full ==> Valid() && isInit && Sent() == old(Sent()) + Text([c]) && |Pending()| < PAGE
      ensures !full && !autoflush ==> Pending() == old(Pending()) + [c] && screen.tape == old(screen.tape)
      ensures !full ==> Leftover(Pending(), all + [c])
    {
      hide Valid, Pending, Sent, Text, Leftover;
      PendingBound();
      LeftoverNext(Pending(), all, c);
      full := PlaceByte(c);
      if !full { PendingBound(); }
    }

    /** The loop of io_buffer_place. */
    method PlaceAll(message: seq<byte>) returns (r: Result<()>)
      requires Valid() && isInit && 0 !in message
      modifies `headPtr, `tailPtr, ram, screen, screen.vidmem
      ensures r.Ok? ==> Valid() && isInit && Sent() == old(Sent()) + Text(message)
      ensures r.Ok? ==> pmem.Records() == old(pmem.Records()) && OnlyBuffer()
      ensures r.Ok? && !autoflush ==> Pending() == old(Pending()) + message && screen.tape == old(screen.tape)
      ensures r.Ok? ==> Leftover(Pending(), old(Pending()) + message)
      ensures r.Ok? <==> autoflush || |old(Pending())| + |message| < PAGE
    {
      hide Valid, Pending, Sent, Text, Leftover;
      TextNone();
      PendingBound();
      ghost var sent, pending, tape := Sent(), Pending(), screen.tape;
      var i := 0;
      LeftoverShort(pending);
      assert pending + message[..0] == pending;
      while i < |message|
        invariant i <= |message| && Valid() && isInit && Sent() == sent + Text(message[..i])
        invariant pmem.Valid() && pmem.Records() == old(pmem.Records()) && OnlyBuffer()
        invariant !autoflush ==> Pending() == pending + message[..i] && screen.tape == tape && |Pending()| < PAGE
        invariant Leftover(Pending(), pending + message[..i])
      {
        assert (pending + message[..i]) + [message[i]] == pending + (message[..i] + [message[i]]);
        TextConcat(message[..i], [message[i]]);
        assert message[..i + 1] == message[..i] + [message[i]];
        assert message[i] in message;
        var full := PlaceNext(message[i], pending + message[..i]);
        if full { return Panic; }
        i := i + 1;
      }
      assert message[..i] == message;
      r := Ok(());
    }

    /** io_buffer_place; the message is a C string without its terminator. */
    method Place(message: seq<byte>) returns (r: Result<()>)
      requires Valid() && 0 !in message
      modifies this, ram, pmem`currAllocRecord, screen, screen.vidmem
      ensures r.Ok? ==> Valid() && isInit && Sent() == old(Sent()) + Text(message)
      ensures r.Ok? && !autoflush ==> Pending() == old(Pending()) + message && screen.tape == old(screen.tape)
      ensures r.Ok? ==> Leftover(Pending(), old(Pending()) + message)
      ensures r.Ok? <==> (old(isInit) || old(pmem.Available()) > 0) && (autoflush || |old(Pending())| + |message| < PAGE)
      ensures r.Ok? ==> pmem.Available() == old(pmem.Available()) - (if old(isInit) then 0 else 1)
      ensures r.Ok? ==> pmem.UsedPages() == old(pmem.UsedPages()) + (if old(isInit) then {} else {bAddr})
      ensures r.Ok? ==> if old(isInit) then bAddr == old(bAddr) else bAddr !in old(pmem.UsedPages())
      ensures r.Ok? ==> forall a: nat :: a < ram.Length && !pmem.InTable(a) && !(bAddr <= a < bAddr + PAGE) ==> ram[a] == old(ram[a])
    {
      hide Valid, Pending, Text, Leftover;
      var ready := Prepare();
      if ready.Panic? { return Panic; }
      r := PlaceAll(message);
    }
  }
}
