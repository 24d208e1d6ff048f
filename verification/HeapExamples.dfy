/** Sequences of calls after which the allocator does what its comments do not say. */
module HeapExamples {
  import opened Common
  import opened Powers
  import opened HeapTiles
  import opened HeapLists
  import opened HeapInv
  import opened Heap
  import opened HeapAlloc
  import opened HeapFit
  import opened Malloc
  import opened Realloc

  const END: int := PAGE_ROWS - 1

  // ----- where the first allocations go -----

  lemma {:induction false} FitsFirst(a: nat, place: nat)
    requires a <= 8000 && place <= LAST
    ensures FirstFit(16, FirstBlocks(), FirstLists(), place, a, 16) == Some(5)
    decreases LAST - place
  {
    if place < LAST {
      FitsFirst(a, place + 1);
    } else {
      NoPad(16, 5);
      assert FirstLists()[LAST] == [5];
    }
  }

  // The only free block is the one at the end.
  lemma {:induction false} FitsAtEnd(m: Mem, bs: Blocks, lists: seq<seq<int>>, x: int, a: nat, place: nat)
    requires HeapOk(m, END, bs, lists, {}, 0) && EndsAt(bs, END, x) && x % 2 == 1 && a <= ROW * bs[x].n && place <= LAST
    requires forall s | s in bs && !bs[s].alloc :: s == x
    ensures FirstFit(16, bs, lists, place, a, 16) == Some(x)
    decreases LAST - place
  {
    assert Listable(bs, {}, x) && InList(lists, LAST, x);
    NoPad(16, x);
    var fit := FirstIn(16, bs, lists[place], a, 16);
    if fit.Some? {
      assert InList(lists, place, fit.value) && Listable(bs, {}, fit.value);
    } else {
      assert place != LAST;
      FitsAtEnd(m, bs, lists, x, a, place + 1);
    }
  }

  // A free block after which nothing is allocated reaches the epilogue.
  lemma LastFree(m: Mem, e: int, bs: Blocks, lists: seq<seq<int>>, x: int)
    requires HeapOk(m, e, bs, lists, {}, 0) && x in bs && !bs[x].alloc
    requires forall s | s in bs && bs[s].alloc && s != e :: s < x
    ensures EndsAt(bs, e, x) && forall s | s in bs && s > x :: s == e
  {
    assert Tile(bs, e, x) && NoFreePair(bs, 0, x) && Tile(bs, e, x + bs[x].n);
    forall s | s in bs && s > x
      ensures s == e
    {
      assert Apart(bs, x, s) && Tile(bs, e, s);
    }
  }

  // ----- two blocks, of which the first is freed -----

  ghost predicate OnePage(h: Memory)
    reads h, h.mem, h.headNext, h.headPrev
  {
    Valid(h) && h.base == 16 && h.end == PAGE_ROWS == h.mem.Length
  }

  // One live block, of n rows, right after the prologue.
  ghost predicate FirstLive(h: Memory, n: nat)
    reads h, h.mem, h.headNext, h.headPrev
  {
    && OnePage(h) && MIN_ROWS <= n <= 1000 && n % 2 == 0
    && 5 in h.bs && h.bs[5] == Block(n, true) && h.mem[5] == Header(n, true, true)
    && (forall s | Live(h, s) :: s == 5)
  }

  // A request that takes a block of n rows.
  ghost predicate Takes(size: nat, n: nat)
  {
    size > 0 && BlockSize(size) == ROW * n && n % 2 == 0 && MIN_ROWS <= n <= 1000
  }

  method AllocateFirst(size: nat, n: nat) returns (h: Memory, p: int)
    requires Takes(size, n)
    ensures FirstLive(h, n) && p == Address(16, 6)
    ensures fresh(h) && fresh(h.mem) && fresh(h.headNext) && fresh(h.headPrev)
  {
    h := NewHeap(16, 1);
    p := StartWith(h, size, n);
  }

  method StartWith(h: Memory, size: nat, n: nat) returns (p: int)
    requires Valid(h) && h.base == 16 && h.end == 0 && h.mem.Length == PAGE_ROWS && Takes(size, n)
    modifies h.mem, h.headNext, h.headPrev, h`end, h`errno, h`bs, h`lists
    ensures FirstLive(h, n) && p == Address(16, 6)
  {
    ghost var a := ROW * n;
    FitsFirst(a, SizeClass(a, 0));
    NoPad(16, 5);
    assert !NoRoom(16, FirstBlocks(), a, 16) by { assert HasRoom(16, FirstBlocks(), 5, a, 16); }
    ghost var c;
    p, c := SfMalloc(h, size);
    assert p != NULLPTR;
    assert c == 5 && h.Epilogue() == END;
    assert h.bs[5].n == n;
    FirstHeader(h);
  }

  // The block after the prologue knows that its predecessor is allocated.
  lemma FirstHeader(h: Memory)
    requires Valid(h) && Live(h, 5)
    ensures 5 < h.mem.Length && h.mem[5] == Header(h.bs[5].n, true, true)
  {
    LiveWords(h, 5);
    assert WordOk(h.mem[..], h.bs, h.Epilogue(), 0, 1);
  }

  // The program stores into its payload.
  method StoreRow(h: Memory, c: int, i: int, v: int)
    requires Valid(h) && Live(h, c) && c < i < c + h.bs[c].n
    modifies h.mem
    ensures Valid(h) && 0 <= c < i < h.mem.Length && h.mem[..] == old(h.mem[..])[i := v]
  {
    LiveWords(h, c);
    PayloadWrite(h.Snap(), h.Epilogue(), h.bs, h.lists, c, i, v);
    h.Put(i, v);
  }

  method AllocateSecond(h: Memory, n: nat) returns (p: int)
    requires FirstLive(h, n)
    modifies h.mem, h.headNext, h.headPrev, h`end, h`errno, h`bs, h`lists
    ensures OnePage(h) && p == Address(16, 6 + n)
    ensures 5 in h.bs && h.bs[5] == Block(n, true) && 5 + n in h.bs && h.bs[5 + n] == Block(4, true)
    ensures forall s | Live(h, s) :: s == 5 || s == 5 + n
  {
    ghost var m, bs, lists := h.Snap(), h.bs, h.lists;
    RestIsFree(h, n);
    FitsAtEnd(m, bs, lists, 5 + n, 32, 0);
    NoPad(16, 5 + n);
    assert BlockSize(24) == 32 && Pow2(0) == 1 && SizeClass(32, 0) == 0;
    assert !NoRoom(16, bs, 32, 16) by { assert HasRoom(16, bs, 5 + n, 32, 16); }
    ghost var c;
    p, c := SfMalloc(h, 24);
    assert c == 5 + n;
  }

  lemma RestIsFree(h: Memory, n: nat)
    requires FirstLive(h, n)
    ensures EndsAt(h.bs, END, 5 + n) && h.bs[5 + n].n == END - 5 - n
    ensures forall s | s in h.bs && !h.bs[s].alloc :: s == 5 + n
  {
    var bs, x := h.bs, 5 + n;
    assert Tile(bs, END, 5) && Tile(bs, END, x) && Tile(bs, END, 1);
    assert !Live(h, x);
    forall s | s in bs && bs[s].alloc && s != END
      ensures s < x
    {
      assert s != 1 ==> Live(h, s);
    }
    LastFree(h.Snap(), END, bs, h.lists, x);
    forall s | s in bs && !bs[s].alloc
      ensures s == x
    {
      assert Apart(bs, s, 5) && Apart(bs, 5, s) && Apart(bs, 1, s) && Tile(bs, END, s);
    }
  }

  // A free block of n rows, a live one of four, and the rest free.
  ghost predicate FreeThenLive(h: Memory, n: nat)
    reads h, h.mem, h.headNext, h.headPrev
  {
    && OnePage(h) && MIN_ROWS <= n <= 1000
    && 5 in h.bs && h.bs[5] == Block(n, false) && 5 + n in h.bs && h.bs[5 + n] == Block(4, true)
    && h.mem[5 + n] == Header(4, false, true)
    && forall s | s in h.bs && !h.bs[s].alloc :: s == 5 || EndsAt(h.bs, END, s)
  }

  /** malloc(size), malloc(24), a zero at the end of the first block, and its free. */
  method FreeFirstOfTwo(size: nat, n: nat) returns (h: Memory, p: int)
    requires Takes(size, n)
    ensures FreeThenLive(h, n) && p == Address(16, 6 + n)
    ensures fresh(h) && fresh(h.mem) && fresh(h.headNext) && fresh(h.headPrev)
  {
    var q;
    h, q := AllocateFirst(size, n);
    p := AllocateSecond(h, n);
    StoreRow(h, 5, 4 + n, 0);
    FirstHeader(h);
    assert !LooksFree(h.mem[..], 5, n);
    assert Live(h, 5 + n);
    var aborted := SfFree(h, q, 5);
    assert !aborted;
    forall s | Live(h, s)
      ensures s == 5 + n
    {
      assert Tile(h.bs, END, s);
    }
    AfterFree(h, n);
  }

  lemma AfterFree(h: Memory, n: nat)
    requires OnePage(h) && MIN_ROWS <= n <= 1000 && InFreeBlock(h.bs, 5, n)
    requires 5 + n in h.bs && h.bs[5 + n] == Block(4, true) && forall s | Live(h, s) :: s == 5 + n
    ensures FreeThenLive(h, n)
  {
    var cs, x := h.bs, 5 + n;
    var q :| q in cs && !cs[q].alloc && q <= 5 && 5 + n <= q + cs[q].n;
    assert Tile(cs, END, 1) && Tile(cs, END, q) && Tile(cs, END, x) && Apart(cs, 1, q) && Apart(cs, q, x) && Apart(cs, q, 1);
    assert WordOk(h.mem[..], cs, END, 0, q) && WordOk(h.mem[..], cs, END, 0, x);
    forall s | s in cs && !cs[s].alloc && s != 5
      ensures EndsAt(cs, END, s)
    {
      assert Apart(cs, s, 5) && Apart(cs, 5, s) && Apart(cs, s, x) && Apart(cs, x, s) && Apart(cs, 1, s) && Tile(cs, END, s);
      forall a | a in cs && cs[a].alloc && a != END
        ensures a < s
      {
        assert a != 1 ==> Live(h, a);
      }
      LastFree(h.Snap(), END, cs, h.lists, s);
    }
  }

  // ----- the examples -----

  // The free block is the first with room, for any size that it can take.
  lemma GapFirst(m: Mem, bs: Blocks, lists: seq<seq<int>>, n: nat, a: nat)
    requires HeapOk(m, END, bs, lists, {}, 0) && n % 2 == 0 && 5 in bs && bs[5] == Block(n, false) && 5 + n != END
    requires forall s | s in bs && !bs[s].alloc :: s == 5 || EndsAt(bs, END, s)
    requires SizeClass(ROW * n, 0) < LAST && a <= ROW * n
    ensures FirstWithRoom(16, bs, lists, SizeClass(ROW * n, 0), 0, a, 16) && lists[SizeClass(ROW * n, 0)][0] == 5
  {
    var c := SizeClass(ROW * n, 0);
    assert Listable(bs, {}, 5) && InList(lists, c, 5);
    NoPad(16, 5);
    forall i, j | 0 <= i <= c && 0 <= j < |lists[i]|
      ensures i == c && lists[i][j] == 5
    {
      assert InList(lists, i, lists[i][j]) && Listable(bs, {}, lists[i][j]);
    }
  }

  // In a list below the last only a free block away from the end can be.
  lemma {:induction false} FitsGap(m: Mem, bs: Blocks, lists: seq<seq<int>>, n: nat)
    requires HeapOk(m, END, bs, lists, {}, 0) && n % 2 == 0 && 5 in bs && bs[5] == Block(n, false) && 5 + n != END
    requires forall s | s in bs && !bs[s].alloc :: s == 5 || EndsAt(bs, END, s)
    requires SizeClass(ROW * n, 0) < LAST
    ensures FirstFit(16, bs, lists, SizeClass(ROW * n, 0), ROW * n, 16) == Some(5)
  {
    var k := SizeClass(ROW * n, 0);
    GapFirst(m, bs, lists, n, ROW * n);
    FirstFitAt(16, bs, lists, k, k, 0, ROW * n, 16);
  }

  /**
   malloc(120), malloc(24), free of the first, and malloc(40): the list of the size is empty, and the
   freed block of 128 bytes, in the list above it, is divided rather than the big one in the last list.
   */
  method HigherList() returns (h: Memory, p: int)
    ensures Valid(h) && p == Address(16, 6) && 5 in h.bs && h.bs[5] == Block(6, true)
  {
    assert BlockSize(120) == 128 && BlockSize(40) == 48;
    h, p := FreeFirstOfTwo(120, 16);
    assert Pow2(0) == 1 && Pow2(1) == 2 && Pow2(2) == 4 && SizeClass(128, 0) == 2;
    ghost var bs := h.bs;
    GapFirst(h.Snap(), bs, h.lists, 16, 48);
    NoPad(16, 5);
    assert !NoRoom(16, bs, 48, 16) by { assert HasRoom(16, bs, 5, 48, 16); }
    ghost var c;
    p, c := SfMalloc(h, 40);
    assert CutFrom(16, bs, 5, 48, 16, c, h.bs[c].n);
  }

  /**
   A realloc that succeeds in all but its last step: malloc(40), malloc(24), free of the first, a
   store of 35 at the end of the second, and realloc of it to 40 bytes.  The freed block is exactly
   big enough, the flag of the live block rises, and its header then equals its last payload row,
   so that the final free aborts.
   */
  method ReallocAborts() returns (what: Realloced)
    ensures what == Aborted
  {
    assert BlockSize(40) == 48;
    var h, p := FreeFirstOfTwo(40, 6);
    StoreRow(h, 11, 14, Header(4, false, true) + 2);
    assert Pow2(0) == 1 && Pow2(1) == 2 && SizeClass(48, 0) == 1;
    FitsGap(h.Snap(), h.bs, h.lists, 6);
    assert FillsGap(16, h.bs, h.lists, 11, 48) && !NoRoom(16, h.bs, 48, 16);
    assert Accepted(h, p, 11);
    var r;
    ghost var d;
    r, what, d := SfRealloc(h, p, 40, 11);
  }

  // A realloc that moves: malloc(24), a store of zero at the end, and realloc to 100 bytes.
  method ReallocMoves() returns (h: Memory, p: int, what: Realloced)
    ensures what == Moved && Valid(h) && p != NULLPTR && !Live(h, 5) && exists d :: PointsTo(h, p, d) && ROW * (h.bs[d].n - 1) >= 100
  {
    assert BlockSize(24) == 32 && BlockSize(100) == 112;
    var q;
    h, q := AllocateFirst(24, 4);
    StoreRow(h, 5, 8, 0);
    RestIsFree(h, 4);
    NoPad(16, 9);
    assert !NoRoom(16, h.bs, 112, 16) by { assert HasRoom(16, h.bs, 9, 112, 16); }
    assert Accepted(h, q, 5) && !Refused(h, 100, 16);
    ghost var d;
    p, what, d := SfRealloc(h, q, 100, 5);
    assert PointsTo(h, p, d);
  }

  // malloc(24), a store of the header's bits at its end: a live block that sf_check_pointer rejects.
  method LiveRejected() returns (h: Memory, p: int, r: int)
    ensures Valid(h) && PointsTo(h, p, 5) && r == -1
  {
    assert BlockSize(24) == 32;
    h, p := AllocateFirst(24, 4);
    StoreRow(h, 5, 8, Header(4, true, true));
    assert LooksFree(h.mem[..], 5, 4);
    r := CheckPointer(h, p, 5);
  }

  // malloc(2056), malloc(24) and free of the first: a free block in the last list though it does
  // not touch the epilogue.
  method ListedAsLast() returns (h: Memory)
    ensures Valid(h) && InList(h.lists, LAST, 5) && 5 in h.bs && 5 + h.bs[5].n != h.Epilogue()
  {
    assert BlockSize(2056) == 2064;
    var p;
    h, p := FreeFirstOfTwo(2056, 258);
    assert Pow2(6) == 64;
    if SizeClass(2064, 0) < LAST { SizeClassBound(2064, 0, 6); }
    assert Listable(h.bs, {}, 5);
    assert InList(h.lists, ListOf(h.bs, END, 5), 5);
  }
}
