/** The allocator's interface: sf_malloc, sf_memalign and sf_free. */
module Malloc {
  import opened Common
  import opened Powers
  import opened HeapTiles
  import opened HeapLists
  import opened HeapInv
  import opened HeapSteps
  import opened HeapCoalesce
  import opened Heap
  import opened HeapAlloc
  import opened HeapFit
  import opened HeapGrow

  const NULLPTR: int := 0

  ghost predicate Valid(h: Memory)
    reads h, h.mem, h.headNext, h.headPrev
  {
    && h.Shape() && h.base > 0 && h.base % 16 == 0 && h.mem.Length >= PAGE_ROWS
    && if h.end == 0 then h.bs == map[] else Sound(h) && h.Epilogue() > 1
  }

  // The state before the first call, from which every other comes.
  method NewHeap(base: int, pages: nat) returns (h: Memory)
    requires base > 0 && base % 16 == 0 && pages > 0
    ensures Valid(h) && h.end == 0 && h.base == base && h.mem.Length == PAGE_ROWS * pages
    ensures fresh(h) && fresh(h.mem) && fresh(h.headNext) && fresh(h.headPrev)
  {
    h := new Memory(base, pages);
  }

  // A block in use by the program: allocated, and neither prologue nor epilogue.
  ghost predicate Live(h: Memory, c: int)
    reads h
  {
    c in h.bs && h.bs[c].alloc && c != 1 && c != h.Epilogue()
  }

  // Bytes of a block for a request: header, request, rounded up to 16, at least 32.
  function BlockSize(size: nat): (a: nat)
    ensures a % 16 == 0 && a >= 32 && a >= size + 8 && (a == 32 || a < size + 8 + 16)
  {
    var a := 8 + size;
    var b := if a % 16 == 0 then a else (a / 16 + 1) * 16;
    if b < 32 then 32 else b
  }

  // ----- room -----

  ghost predicate NoRoomIn(base: int, bs: Blocks, lists: seq<seq<int>>, k: int, size: int, align: int)
    requires align > 0
  {
    forall c, s {:trigger InList(lists, c, s)} | InList(lists, c, s) && c < k :: s in bs && !HasRoom(base, bs, s, size, align)
  }

  lemma {:induction false} ClassExceeds(size: int, from: nat, c: nat)
    requires from <= LAST && from <= c < SizeClass(size, from)
    ensures size > 32 * Pow2(c)
    decreases LAST - from
  {
    if from < c { ClassExceeds(size, from + 1, c); }
  }

  lemma PaddingNonNegative(address: int, align: int)
    requires align > 0
    ensures Padding(address, align) >= 0
  {
    PaddingIs(address, align);
  }

  // The lists below the class of a size hold only smaller blocks.
  lemma SmallLists(m: Mem, e: int, bs: Blocks, lists: seq<seq<int>>, base: int, size: int, align: int)
    requires HeapOk(m, e, bs, lists, {}, 0) && align > 0
    ensures NoRoomIn(base, bs, lists, SizeClass(size, 0), size, align)
  {
    forall c, s | InList(lists, c, s) && c < SizeClass(size, 0)
      ensures s in bs && !HasRoom(base, bs, s, size, align)
    {
      assert Listable(bs, {}, s) && ListOf(bs, e, s) == c;
      ClassExceeds(size, 0, c);
      SizeClassBound(ROW * bs[s].n, 0, c);
      PaddingNonNegative(Address(base, s + 1), align);
    }
  }

  // Starting at the class of the size, the search finds the first member with room over all lists.
  lemma FirstListed(m: Mem, e: int, bs: Blocks, lists: seq<seq<int>>, base: int, size: int, align: int)
    requires HeapOk(m, e, bs, lists, {}, 0) && align > 0
    ensures forall i: nat, k: nat {:trigger FirstWithRoom(base, bs, lists, i, k, size, align)} | FirstWithRoom(base, bs, lists, i, k, size, align) ::
              FirstFit(base, bs, lists, SizeClass(size, 0), size, align) == Some(lists[i][k])
  {
    SmallLists(m, e, bs, lists, base, size, align);
    forall i: nat, k: nat | FirstWithRoom(base, bs, lists, i, k, size, align)
      ensures FirstFit(base, bs, lists, SizeClass(size, 0), size, align) == Some(lists[i][k])
    {
      assert InList(lists, i, lists[i][k]);
      FirstFitAt(base, bs, lists, SizeClass(size, 0), i, k, size, align);
    }
  }

  // If a listed block has room, an allocation is cut from the first such block over all lists.
  ghost predicate FromFirst(base: int, bs: Blocks, lists: seq<seq<int>>, e: int, size: int, align: int, c: int, n: int, f: int)
    requires align > 0
  {
    forall i: nat, k: nat {:trigger FirstWithRoom(base, bs, lists, i, k, size, align)} | FirstWithRoom(base, bs, lists, i, k, size, align) ::
      f == e && CutFrom(base, bs, lists[i][k], size, align, c, n)
  }

  lemma OddAligned(base: int, x: int)
    requires base % 16 == 0 && x % 2 == 1
    ensures Address(base, x + 1) % 16 == 0
  {}

  lemma CutAt(base: int, bs: Blocks, x: int, size: int, align: int, c: int, n: int, padding: nat)
    requires align > 0 && size % 16 == 0 && x in bs && padding == Padding(Address(base, x + 1), align) && padding % 16 == 0
    requires c == x + padding / ROW && n == RowsTaken(x + bs[x].n - c, size)
    ensures CutFrom(base, bs, x, size, align, c, n)
  {
    WholeRows(padding);
    WholeRows(size);
  }

  lemma PlacedFirst(m: Mem, e: int, bs: Blocks, lists: seq<seq<int>>, base: int, size: int, align: int, c: int, n: int, f: int)
    requires HeapOk(m, e, bs, lists, {}, 0) && base % 16 == 0 && Alignment(align) && size % 16 == 0
    requires Placed(base, bs, lists, e, size, align, c, n, f)
    ensures FromFirst(base, bs, lists, e, size, align, c, n, f)
  {
    FirstListed(m, e, bs, lists, base, size, align);
    forall i: nat, k: nat | FirstWithRoom(base, bs, lists, i, k, size, align)
      ensures f == e && CutFrom(base, bs, lists[i][k], size, align, c, n)
    {
      var x := lists[i][k];
      assert InList(lists, i, x) && Listable(bs, {}, x) && Tile(bs, e, x);
      OddAligned(base, x);
      PaddingAligns(Address(base, x + 1), align);
      CutAt(base, bs, x, size, align, c, n, Padding(Address(base, x + 1), align));
    }
  }

  lemma NoRoomAnywhere(m: Mem, e: int, bs: Blocks, lists: seq<seq<int>>, base: int, size: int, align: int)
    requires HeapOk(m, e, bs, lists, {}, 0) && align > 0 && NoRoomIn(base, bs, lists, LISTS, size, align)
    ensures NoRoom(base, bs, size, align)
  {
    forall s | s in bs && !bs[s].alloc
      ensures !HasRoom(base, bs, s, size, align)
    {
      assert Listable(bs, {}, s);
      assert InList(lists, ListOf(bs, e, s), s);
    }
  }

  // ----- starting the heap -----

  ghost function FirstBlocks(): Blocks {
    map[1 := Block(4, true), 5 := Block(PAGE_ROWS - 6, false), PAGE_ROWS - 1 := Block(0, true)]
  }

  ghost function FirstLists(): seq<seq<int>> { seq(LISTS, i => if i == LAST then [5] else []) }

  // Every list head points to itself.
  method EmptyLists(h: Memory)
    requires h.Shape()
    modifies h.headNext, h.headPrev
    ensures forall j | 0 <= j < LISTS :: h.headNext[j] == Head(j) && h.headPrev[j] == Head(j)
  {
    for i := 0 to LISTS
      invariant forall j | 0 <= j < i :: h.headNext[j] == Head(j) && h.headPrev[j] == Head(j)
    {
      h.headNext[i] := Head(i);
      h.headPrev[i] := Head(i);
    }
  }

  // Prologue, epilogue, and the free block between them.
  method PutFirstPage(h: Memory, freeRow: int)
    requires h.Shape() && h.end == PAGE_ROWS && freeRow == 5
    modifies h.mem
    ensures h.mem[1] == 33 && h.mem[PAGE_ROWS - 1] == 1 && h.mem[5] == h.mem[PAGE_ROWS - 2] == ROW * PAGE_ROWS - 48 + 2
  {
    h.mem[1] := 32 + 1;
    h.mem[h.end - 1] := 0 + 1;
    h.mem[freeRow] := ROW * PAGE_ROWS - 48 + 2;
    h.mem[freeRow + SizeOf(h.mem[freeRow]) / ROW - 1] := h.mem[freeRow];
  }

  method InitializeHeap(h: Memory)
    requires Valid(h) && h.end == 0
    modifies h.mem, h.headNext, h.headPrev, h`end, h`errno, h`bs, h`lists
    ensures Valid(h) && h.end == PAGE_ROWS && h.bs == FirstBlocks() && h.lists == FirstLists() && h.errno == old(h.errno)
  {
    EmptyLists(h);
    var page := Grow(h);
    var freeRow := 5;
    PutFirstPage(h, freeRow);
    h.bs, h.lists := FirstBlocks(), seq(LISTS, i => []);
    FirstHeap(h.Snap(), h.lists);
    assert PrevOf(h.mem[5]);
    ghost var none := h.lists;
    var q := h.AddToFreeList(freeRow, {5});
    assert {5} - {5} == {};
    assert q == 5 && h.bs == FirstBlocks();
    FirstInLast(none);
  }

  lemma FirstInLast(none: seq<seq<int>>)
    requires |none| == LISTS && forall c | 0 <= c < LISTS :: none[c] == []
    ensures none[LAST := [5] + none[LAST]] == FirstLists()
  {
    assert [5] + none[LAST] == [5];
  }

  lemma FirstHeap(m: Mem, lists: seq<seq<int>>)
    requires |m.rows| >= PAGE_ROWS && |m.next| == |m.prev| == LISTS && |lists| == LISTS
    requires forall c | 0 <= c < LISTS :: lists[c] == [] && m.next[c] == Head(c) && m.prev[c] == Head(c)
    requires m.rows[1] == 33 && m.rows[PAGE_ROWS - 1] == 1 && m.rows[5] == ROW * PAGE_ROWS - 48 + 2
    ensures Opened(m, PAGE_ROWS - 1, FirstBlocks(), lists, {5}, 5)
  {
    var bs, e := FirstBlocks(), PAGE_ROWS - 1;
    assert Header(4, false, true) == 33 && Header(0, false, true) == 1;
    assert Header(PAGE_ROWS - 6, true, false) == ROW * PAGE_ROWS - 48 + 2;
    forall c | 0 <= c < LISTS
      ensures ListOk(m, lists, c)
    {
      assert LinkedAt(m, c, lists[c], 0);
    }
  }

  // ----- sf_generalize_allocation -----

  // Growing twice keeps what was live at first.
  lemma KeepsGrowing(bs: Blocks, a: seq<int>, cs: Blocks, b: seq<int>, ds: Blocks, c: seq<int>, x: int, y: int)
    requires Keeps(bs, a, cs, b, x) && Keeps(cs, b, ds, c, y) && (y in bs ==> y == x)
    ensures Keeps(bs, a, ds, c, x)
  {
    forall s, r | Payload(bs, s, r) && s != x && 0 <= r < |a|
      ensures c[r] == a[r]
    {
      assert Payload(cs, s, r);
    }
  }

  // The lists of the class and above, in order.
  method SearchLists(h: Memory, size: nat, align: int) returns (block: int)
    requires Sound(h) && h.base % 16 == 0 && Alignment(align) && size % 16 == 0 && size >= ROW * MIN_ROWS
    modifies h.mem, h.headNext, h.headPrev, h`bs, h`lists
    ensures Sound(h)
    ensures block == NULL ==> h.bs == old(h.bs) && h.lists == old(h.lists) && h.mem[..] == old(h.mem[..])
    ensures block == NULL ==> NoRoomIn(h.base, h.bs, h.lists, LISTS, size, align)
    ensures var x := FirstFit(h.base, old(h.bs), old(h.lists), SizeClass(size, 0), size, align);
            && (block == NULL <==> x.None?)
            && (x.Some? ==> Handed(h.base, old(h.bs), old(h.mem[..]), h.bs, h.mem[..], x.value, block, size, align))
    ensures forall i: nat, k: nat {:trigger FirstWithRoom(h.base, old(h.bs), old(h.lists), i, k, size, align)}
              | FirstWithRoom(h.base, old(h.bs), old(h.lists), i, k, size, align) ::
              Handed(h.base, old(h.bs), old(h.mem[..]), h.bs, h.mem[..], old(h.lists)[i][k], block, size, align)
  {
    FirstListed(h.Snap(), h.Epilogue(), h.bs, h.lists, h.base, size, align);
    var place := h.ClassFor(size, false);
    ghost var fit := FirstFit(h.base, h.bs, h.lists, place, size, align);
    SmallLists(h.Snap(), h.Epilogue(), h.bs, h.lists, h.base, size, align);
    block := NULL;
    while place < LISTS
      invariant 0 <= place <= LISTS && block == NULL
      invariant Sound(h) && h.bs == old(h.bs) && h.lists == old(h.lists) && h.mem[..] == old(h.mem[..])
      invariant NoRoomIn(h.base, h.bs, h.lists, place, size, align)
      invariant fit == FirstFit(h.base, h.bs, h.lists, place, size, align)
    {
      block := CheckFreeList(h, size, place, align);
      if block != NULL { break; }
      NoRoomFurther(h.base, h.bs, h.lists, place, size, align);
      place := place + 1;
    }
  }

  // Pages are added until the last list has room or no page is left.
  method GrowUntilRoom(h: Memory, size: nat, align: int) returns (block: int)
    requires Sound(h) && 1 < h.Epilogue() && h.base % 16 == 0 && Alignment(align) && size % 16 == 0 && size >= ROW * MIN_ROWS
    requires NoRoomIn(h.base, h.bs, h.lists, LISTS, size, align)
    modifies h.mem, h.headNext, h.headPrev, h`end, h`errno, h`bs, h`lists
    ensures Sound(h) && h.end >= old(h.end)
    ensures Keeps(old(h.bs), old(h.mem[..]), h.bs, h.mem[..], old(h.Epilogue()))
    ensures block == NULL ==>
              && h.errno == NoMemory && h.end + PAGE_ROWS > h.mem.Length && NoRoom(h.base, h.bs, size, align)
              && !FitsWith(h.base, old(h.bs), old(h.Epilogue()), PagesLeft(old(h.Epilogue()), h.mem.Length), size, align)
    ensures block != NULL ==> h.errno == old(h.errno) && GrownHanded(h, block, size, align, old(h.bs), old(h.Epilogue()))
    ensures block != NULL ==> GrownTo(h.base, old(h.bs), old(h.Epilogue()), size, align, block, h.bs[block].n, h.Epilogue())
    ensures OnlyNew(old(h.bs), old(h.Epilogue()), h.bs, h.Epilogue(), if block == NULL then 0 else block)
  {
    ghost var bs0, rows0, e0 := h.bs, h.mem[..], h.Epilogue();
    ghost var pages: nat := 0;
    block := NULL;
    NoRoomAnywhere(h.Snap(), e0, bs0, h.lists, h.base, size, align);
    NotYet(h.base, bs0, e0, size, align);
    while true
      invariant Sound(h) && block == NULL && h.errno == old(h.errno)
      invariant Searching(h.base, bs0, rows0, e0, h.bs, h.mem[..], h.Epilogue(), h.lists, pages, size, align)
      decreases h.mem.Length - h.end
    {
      ghost var e1 := h.Epilogue();
      assert Tile(bs0, e0, e1) && e1 > 1;
      var ok, found;
      ghost var bs2, rows2;
      ok, found, bs2, rows2 := GrowOnce(h, size, align, bs0, rows0, e0, pages);
      if !ok {
        NoRoomAnywhere(h.Snap(), e1, h.bs, h.lists, h.base, size, align);
        NoPageLeft(e0, pages, h.mem.Length);
        return;
      }
      block := found;
      if block != NULL {
        FromHanded(h.base, bs0, rows0, e0, bs2, rows2, h.bs, h.mem[..], h.Epilogue(), LastStart(bs0, e0), block, size, align);
        GrownBy(h.base, bs0, e0, size, align, block, h.bs[block].n, h.Epilogue(), pages);
        return;
      }
      pages := pages + 1;
    }
  }

  // One round: a page, and the last list again.
  method GrowOnce(h: Memory, size: nat, align: int, ghost bs0: Blocks, ghost rows0: seq<int>, ghost e0: int, ghost pages: nat)
    returns (ok: bool, block: int, ghost bs2: Blocks, ghost rows2: seq<int>)
    requires Sound(h) && 1 < h.Epilogue() && h.base % 16 == 0 && Alignment(align) && size % 16 == 0 && size >= ROW * MIN_ROWS
    requires Tiling(bs0, e0)
    requires Searching(h.base, bs0, rows0, e0, h.bs, h.mem[..], h.Epilogue(), h.lists, pages, size, align)
    modifies h.mem, h.headNext, h.headPrev, h`end, h`errno, h`bs, h`lists
    ensures Sound(h)
    ensures !ok ==> h.errno == NoMemory && h.end == old(h.end) && h.end + PAGE_ROWS > h.mem.Length && h.bs == old(h.bs)
                    && h.lists == old(h.lists) && h.mem[..] == old(h.mem[..])
    ensures ok ==> h.errno == old(h.errno) && h.end == old(h.end) + PAGE_ROWS
    ensures ok && block == NULL ==>
              Searching(h.base, bs0, rows0, e0, h.bs, h.mem[..], h.Epilogue(), h.lists, pages + 1, size, align)
    ensures ok && block != NULL ==>
              && Extended(bs0, rows0, e0, bs2, rows2, h.Epilogue(), pages + 1) && Tiling(bs2, h.Epilogue())
              && FitsWith(h.base, bs0, e0, pages + 1, size, align)
              && Handed(h.base, bs2, rows2, h.bs, h.mem[..], LastStart(bs0, e0), block, size, align)
              && LastStart(bs0, e0) + bs2[LastStart(bs0, e0)].n == h.Epilogue()
  {
    ghost var m1, bs1, e1, lists1 := h.Snap(), h.bs, h.Epilogue(), h.lists;
    NoRoomAnywhere(m1, e1, bs1, lists1, h.base, size, align);
    block := NULL;
    bs2, rows2 := bs1, m1.rows;
    ok := IncreaseWilderness(h);
    if !ok { return; }
    bs2, rows2 := h.bs, h.mem[..];
    ghost var m2, e2, lists2 := h.Snap(), h.Epilogue(), h.lists;
    PageAdded(bs0, rows0, e0, bs1, m1.rows, e1, bs2, m2.rows, pages);
    StillNoRoom(h.base, bs1, lists1, bs2, lists2, size, align);
    LastOrNone(h.base, bs0, e0, bs1, e1, m2, bs2, lists2, pages, size, align);
    block := CheckFreeList(h, size, LAST, align);
    if block == NULL {
      NoRoomFurther(h.base, bs2, lists2, LAST, size, align);
    }
  }

  lemma GrownBy(base: int, bs: Blocks, e: int, size: int, align: int, c: int, n: int, f: int, pages: nat)
    requires align > 0 && FitsWith(base, bs, e, pages + 1, size, align) && !FitsWith(base, bs, e, pages, size, align)
    requires f == e + PAGE_ROWS * (pages + 1) && c == Behind(base, LastStart(bs, e), align) && n == RowsTaken(f - c, size)
    ensures GrownTo(base, bs, e, size, align, c, n, f)
  {
    DivModUnique(f - e, pages + 1, 0, PAGE_ROWS);
  }

  // So many pages have been added, and still nothing has room.
  ghost predicate Searching(base: int, bs0: Blocks, rows0: seq<int>, e0: int, bs: Blocks, rows: seq<int>, e: int,
                            lists: seq<seq<int>>, pages: nat, size: int, align: int)
    requires align > 0
  {
    && Extended(bs0, rows0, e0, bs, rows, e, pages)
    && NoRoomIn(base, bs, lists, LISTS, size, align) && !FitsWith(base, bs0, e0, pages, size, align)
  }

  // From bs0 to bs so many pages were added at the end, and nothing live changed.
  ghost predicate Extended(bs0: Blocks, rows0: seq<int>, e0: int, bs: Blocks, rows: seq<int>, e: int, pages: nat)
  {
    && e == e0 + PAGE_ROWS * pages && LastStart(bs, e) == LastStart(bs0, e0)
    && Keeps(bs0, rows0, bs, rows, e0) && OnlyNew(bs0, e0, bs, e, 0)
  }

  // One more page.
  lemma PageAdded(bs0: Blocks, rows0: seq<int>, e0: int, bs1: Blocks, rows1: seq<int>, e1: int, bs2: Blocks, rows2: seq<int>, pages: nat)
    requires Extended(bs0, rows0, e0, bs1, rows1, e1, pages) && Tiling(bs0, e0) && Tiling(bs1, e1) && Tiling(bs2, e1 + PAGE_ROWS)
    requires bs2 == Grown(bs1, e1) && Keeps(bs1, rows1, bs2, rows2, e1) && OnlyNew(bs1, e1, bs2, e1 + PAGE_ROWS, 0)
    ensures Extended(bs0, rows0, e0, bs2, rows2, e1 + PAGE_ROWS, pages + 1)
  {
    assert Tile(bs1, e1, 0) && Tile(bs0, e0, e1);
    GrownEnd(bs1, e1);
    OnlyNewTwice(bs0, e0, bs1, e1, bs2, e1 + PAGE_ROWS, 0);
    KeepsGrowing(bs0, rows0, bs1, rows1, bs2, rows2, e0, e1);
  }

  lemma NoRoomFurther(base: int, bs: Blocks, lists: seq<seq<int>>, place: nat, size: int, align: int)
    requires align > 0 && place < |lists| && NoRoomIn(base, bs, lists, place, size, align)
    requires forall s | s in lists[place] :: s in bs && !HasRoom(base, bs, s, size, align)
    ensures NoRoomIn(base, bs, lists, place + 1, size, align)
  {}

  // Without room anywhere the block at the end has none either.
  lemma NotYet(base: int, bs: Blocks, e: int, size: nat, align: int)
    requires align > 0 && size > 0 && NoRoom(base, bs, size, align)
    ensures !FitsWith(base, bs, e, 0, size, align)
  {
    var w := LastStart(bs, e);
    PaddingNonNegative(Address(base, w + 1), align);
    assert EndsAt(bs, e, w) ==> !HasRoom(base, bs, w, size, align);
  }

  lemma NoPageLeft(e: int, pages: nat, rows: int)
    requires 0 <= rows - (e + PAGE_ROWS * pages + 1) < PAGE_ROWS
    ensures PagesLeft(e, rows) == pages
  {
    DivModUnique(rows - (e + 1), pages, rows - (e + PAGE_ROWS * pages + 1), PAGE_ROWS);
  }

  // In a heap that has grown for want of room, the last list has room if the block at the end
  // has.
  lemma OnlyTheLast(base: int, bs: Blocks, cs: Blocks, f: int, lists: seq<seq<int>>, w: int, size: int, align: int)
    requires align > 0 && NoRoom(base, bs, size, align) && EndsAt(cs, f, w) && |lists| == LISTS
    requires forall s | s in cs && !cs[s].alloc && s != w :: s in bs && bs[s] == cs[s]
    requires InList(lists, LAST, w) && forall s | s in lists[LAST] :: s in cs && !cs[s].alloc
    ensures FirstIn(base, cs, lists[LAST], size, align) == if HasRoom(base, cs, w, size, align) then Some(w) else None
  {
    var x := FirstIn(base, cs, lists[LAST], size, align);
    if x.Some? {
      assert x.value != w ==> !HasRoom(base, bs, x.value, size, align);
    }
  }

  // After one more page, the search of the last list finds the block at the end if that is now
  // long enough.
  lemma LastOrNone(base: int, bs0: Blocks, e0: int, bs: Blocks, e: int, m: Mem, cs: Blocks, lists: seq<seq<int>>, pages: nat, size: int, align: int)
    requires align > 0 && NoRoom(base, bs, size, align) && Tiling(bs, e) && LastStart(bs, e) == LastStart(bs0, e0) && e == e0 + PAGE_ROWS * pages
    requires cs == Grown(bs, e) && HeapOk(m, e + PAGE_ROWS, cs, lists, {}, 0)
    ensures var w := LastStart(bs0, e0);
            && w in cs && w + cs[w].n == e + PAGE_ROWS
            && FirstIn(base, cs, lists[LAST], size, align) == if FitsWith(base, bs0, e0, pages + 1, size, align) then Some(w) else None
  {
    var w := LastStart(bs0, e0);
    GrownEnd(bs, e);
    LastListed(m, e + PAGE_ROWS, cs, lists, w);
    OnlyTheLast(base, bs, cs, e + PAGE_ROWS, lists, w, size, align);
  }

  // The block at the end is in the last list, and every member of it is free.
  lemma LastListed(m: Mem, e: int, bs: Blocks, lists: seq<seq<int>>, w: int)
    requires FreeLists(m, e, bs, lists, {}) && EndsAt(bs, e, w)
    ensures InList(lists, LAST, w) && forall s | s in lists[LAST] :: s in bs && !bs[s].alloc
  {
    assert Listable(bs, {}, w) && InList(lists, ListOf(bs, e, w), w);
    forall s | s in lists[LAST]
      ensures s in bs && !bs[s].alloc
    {
      assert InList(lists, LAST, s) && Listable(bs, {}, s);
    }
  }

  lemma StillNoRoom(base: int, bs: Blocks, lists: seq<seq<int>>, cs: Blocks, lists': seq<seq<int>>, size: int, align: int)
    requires align > 0 && NoRoomIn(base, bs, lists, LISTS, size, align) && GrownAtEnd(bs, lists, cs, lists')
    ensures NoRoomIn(base, cs, lists', LAST, size, align)
  {
    forall c, s | InList(lists', c, s) && c < LAST
      ensures s in cs && !HasRoom(base, cs, s, size, align)
    {
      assert InList(lists, c, s);
    }
  }

  // The block is live, aligned, big enough, and was not live before.
  ghost predicate GrownHanded(h: Memory, c: int, size: int, align: int, bs: Blocks, e: int)
    requires align > 0
    reads h, h.mem
  {
    && Live(h, c) && size <= ROW * h.bs[c].n < size + ROW * MIN_ROWS && Address(h.base, c + 1) % align == 0
    && !(c in bs && bs[c].alloc && c != e)
  }

  lemma FromHanded(base: int, bs: Blocks, rows: seq<int>, e: int, cs: Blocks, rows': seq<int>, ds: Blocks, rows'': seq<int>, f: int,
                   x: int, c: int, size: int, align: int)
    requires align > 0 && size > 0 && Keeps(bs, rows, cs, rows', e) && Handed(base, cs, rows', ds, rows'', x, c, size, align)
    requires Tiling(bs, e) && Tiling(ds, f) && Tiling(cs, f) && OnlyNew(bs, e, cs, f, 0)
    ensures OnlyNew(bs, e, ds, f, c)
    ensures c != 1 && c != f && !(c in bs && bs[c].alloc && c != e) && Keeps(bs, rows, ds, rows'', e)
  {
    assert Tile(cs, f, 0);
    KeepsExcept(bs, rows, cs, rows', ds, rows'', e);
    assert Tile(cs, f, x) && Tile(cs, f, c) && Apart(cs, x, c) && Tile(ds, f, c) && Apart(ds, 1, c);
    assert Tile(cs, f, 1) && Apart(cs, 1, x);
  }

  const SIZE_LIMIT: int := 0x1_0000_0000_0000_0000

  // Everything live before is live after, with the same payload.
  twostate predicate KeepsLive(h: Memory)
    reads h, h.mem
  {
    Keeps(old(h.bs), old(h.mem[..]), h.bs, h.mem[..], old(h.Epilogue()))
  }

  // No block but one came alive.
  twostate predicate OnlyAdds(h: Memory, c: int)
    reads h
  {
    forall s | Live(h, s) && s != c :: old(Live(h, s))
  }

  // The heap holds no free block for the request, and no page is left.
  ghost predicate OutOfMemory(h: Memory, size: nat, align: int)
    requires align > 0
    reads h
  {
    h.errno == NoMemory && h.end + PAGE_ROWS > h.mem.Length && NoRoom(h.base, h.bs, BlockSize(size), align)
  }

  // p is the payload of block c, live, aligned and of at least size bytes, and of less than a
  // block's size more than it needs.
  ghost predicate Granted(h: Memory, p: int, c: int, size: nat, align: int)
    requires align > 0
    reads h
  {
    Live(h, c) && p == Address(h.base, c + 1) && p % align == 0 && ROW * (h.bs[c].n - 1) >= size
    && ROW * h.bs[c].n < BlockSize(size) + ROW * MIN_ROWS
  }

  // The heap as an allocation finds it, after it has been started if need be.
  ghost function StartBlocks(h: Memory): Blocks
    reads h
  {
    if h.end == 0 then FirstBlocks() else h.bs
  }

  ghost function StartLists(h: Memory): seq<seq<int>>
    reads h
  {
    if h.end == 0 then FirstLists() else h.lists
  }

  ghost function StartEpilogue(h: Memory): int
    reads h
  {
    if h.end == 0 then PAGE_ROWS - 1 else h.Epilogue()
  }

  // A request that no free block and no number of further pages can meet.
  ghost predicate Refused(h: Memory, size: nat, align: int)
    requires align > 0
    reads h
  {
    Fails(h.base, StartBlocks(h), StartEpilogue(h), h.mem.Length, BlockSize(size), align)
  }

  // Block c is where the request belongs.
  twostate predicate Chosen(h: Memory, c: int, size: nat, align: int)
    requires align > 0
    reads h
  {
    && c in h.bs
    && Placed(h.base, old(StartBlocks(h)), old(StartLists(h)), old(StartEpilogue(h)), BlockSize(size), align, c, h.bs[c].n, h.Epilogue())
    && FromFirst(h.base, old(StartBlocks(h)), old(StartLists(h)), old(StartEpilogue(h)), BlockSize(size), align, c, h.bs[c].n, h.Epilogue())
  }

  // Once started, the heap grows only if no free block has room.
  twostate predicate GrowsOnlyIfNeeded(h: Memory, size: nat, align: int)
    requires align > 0
    reads h
  {
    h.Epilogue() > old(StartEpilogue(h)) ==> NoRoom(h.base, old(StartBlocks(h)), BlockSize(size), align)
  }

  method GeneralizeAllocation(h: Memory, size: nat, align: int) returns (p: int, ghost c: int)
    requires Valid(h) && Alignment(align) && size + 32 + 2 * align < SIZE_LIMIT
    modifies h.mem, h.headNext, h.headPrev, h`end, h`errno, h`bs, h`lists
    ensures Valid(h) && KeepsLive(h) && h.end > 0
    ensures p == NULLPTR <==> size == 0 || old(Refused(h, size, align))
    ensures size > 0 && p == NULLPTR ==> OutOfMemory(h, size, align)
    ensures p != NULLPTR ==> Granted(h, p, c, size, align) && Chosen(h, c, size, align) && !old(Live(h, c))
    ensures OnlyAdds(h, if p == NULLPTR then 0 else c)
    ensures size == 0 || p != NULLPTR ==> h.errno == old(h.errno)
    ensures GrowsOnlyIfNeeded(h, size, align)
    ensures size == 0 ==> h.bs == old(StartBlocks(h)) && h.lists == old(StartLists(h)) && h.Epilogue() == old(StartEpilogue(h))
  {
    p, c := NULLPTR, 0;
    if h.end == 0 {
      InitializeHeap(h);
    }
    if size == 0 { return; }
    ghost var m, bs, e, lists := h.Snap(), h.bs, h.Epilogue(), h.lists;
    p, c := AllocateSized(h, size, align);
    if p != NULLPTR {
      PlacedFirst(m, e, bs, lists, h.base, BlockSize(size), align, c, h.bs[c].n, h.Epilogue());
    }
  }

  method AllocateSized(h: Memory, size: nat, align: int) returns (p: int, ghost c: int)
    requires Valid(h) && h.end > 0 && size > 0 && Alignment(align)
    modifies h.mem, h.headNext, h.headPrev, h`end, h`errno, h`bs, h`lists
    ensures Valid(h) && KeepsLive(h) && h.end >= old(h.end)
    ensures p == NULLPTR <==> Fails(h.base, old(h.bs), old(h.Epilogue()), h.mem.Length, BlockSize(size), align)
    ensures p == NULLPTR ==> OutOfMemory(h, size, align)
    ensures h.end > old(h.end) ==> NoRoom(h.base, old(h.bs), BlockSize(size), align)
    ensures p != NULLPTR ==> Granted(h, p, c, size, align) && !old(Live(h, c)) && h.errno == old(h.errno)
    ensures p != NULLPTR ==> Placed(h.base, old(h.bs), old(h.lists), old(h.Epilogue()), BlockSize(size), align, c, h.bs[c].n, h.Epilogue())
    ensures OnlyNew(old(h.bs), old(h.Epilogue()), h.bs, h.Epilogue(), if p == NULLPTR then 0 else c)
  {
    ghost var bs, rows, e := h.bs, h.mem[..], h.Epilogue();
    var actual := BlockSize(size);
    ghost var fit := FirstFit(h.base, bs, h.lists, SizeClass(actual, 0), actual, align);
    var block := SearchLists(h, actual, align);
    if block != NULL {
      SameKeeps(bs, rows, e);
      FromHanded(h.base, bs, rows, e, bs, rows, h.bs, h.mem[..], e, fit.value, block, actual, align);
      assert !NoRoom(h.base, bs, actual, align);
    } else {
      NoRoomAnywhere(h.Snap(), e, h.bs, h.lists, h.base, actual, align);
      block := GrowUntilRoom(h, actual, align);
      if block == NULL { return NULLPTR, 0; }
      GrownNotFailed(h.base, bs, e, h.mem.Length, actual, align, block, h.bs[block].n, h.Epilogue());
    }
    c := block;
    p := Address(h.base, block + 1);
    assert Tile(h.bs, h.Epilogue(), block);
  }

  // What the pages added so far have room for does not fail.
  lemma GrownNotFailed(base: int, bs: Blocks, e: int, rows: int, size: int, align: int, c: int, n: int, f: int)
    requires align > 0 && GrownTo(base, bs, e, size, align, c, n, f) && f < rows
    ensures !Fails(base, bs, e, rows, size, align)
  {
    assert (f - e) / PAGE_ROWS <= PagesLeft(e, rows);
  }

  lemma SameKeeps(bs: Blocks, rows: seq<int>, x: int)
    ensures Keeps(bs, rows, bs, rows, x)
  {}

  method SfMalloc(h: Memory, size: nat) returns (p: int, ghost c: int)
    requires Valid(h) && size + 64 < SIZE_LIMIT
    modifies h.mem, h.headNext, h.headPrev, h`end, h`errno, h`bs, h`lists
    ensures Valid(h) && KeepsLive(h)
    ensures p == NULLPTR <==> size == 0 || old(Refused(h, size, 16))
    ensures size > 0 && p == NULLPTR ==> OutOfMemory(h, size, 16)
    ensures p != NULLPTR ==> Granted(h, p, c, size, 16) && Chosen(h, c, size, 16) && !old(Live(h, c))
    ensures OnlyAdds(h, if p == NULLPTR then 0 else c) && GrowsOnlyIfNeeded(h, size, 16)
  {
    p, c := GeneralizeAllocation(h, size, 16);
  }

  // ----- sf_memalign -----

  // The bitwise and of two numbers.
  function And(x: nat, y: nat): nat {
    if x == 0 || y == 0 then 0 else 2 * And(x / 2, y / 2) + x % 2 * (y % 2)
  }

  lemma {:induction false} AndSelf(x: nat)
    ensures And(x, x) == x
  {
    if x > 0 { AndSelf(x / 2); }
  }

  ghost predicate PowerOfTwo(a: int)
  {
    exists k: nat :: a == Pow2(k)
  }

  // a & (a - 1) is zero exactly for powers of two.
  lemma {:induction false} PowerOfTwoTest(a: nat)
    requires a >= 1
    ensures And(a, a - 1) == 0 <==> PowerOfTwo(a)
  {
    if a == 1 {
      assert a == Pow2(0);
    } else if a % 2 == 0 {
      PowerOfTwoTest(a / 2);
      if PowerOfTwo(a / 2) {
        var k: nat :| a / 2 == Pow2(k);
        assert a == Pow2(k + 1);
      }
      if PowerOfTwo(a) {
        var k: nat :| a == Pow2(k);
        assert a / 2 == Pow2(k - 1);
      }
    } else {
      AndSelf(a / 2);
      forall k: nat
        ensures a != Pow2(k)
      {
        assert k > 0 ==> Pow2(k) == 2 * Pow2(k - 1);
      }
    }
  }

  lemma PowersAlign(align: int)
    requires align >= 32 && PowerOfTwo(align)
    ensures Alignment(align)
  {
    var k: nat :| align == Pow2(k);
    assert Pow2(4) == 16;
    if k < 4 { Pow2Monotone(k, 4); }
    Pow2Add(k - 4, 4);
  }

  method SfMemalign(h: Memory, size: nat, align: nat) returns (p: int, ghost c: int)
    requires Valid(h) && size + 32 + 2 * align < SIZE_LIMIT
    modifies h.mem, h.headNext, h.headPrev, h`end, h`errno, h`bs, h`lists
    ensures Valid(h) && KeepsLive(h) && OnlyAdds(h, if p == NULLPTR then 0 else c)
    ensures align < 32 || !PowerOfTwo(align) ==>
              p == NULLPTR && h.errno == Invalid && h.bs == old(h.bs) && h.lists == old(h.lists)
              && h.end == old(h.end) && h.mem[..] == old(h.mem[..])
    ensures align >= 32 && PowerOfTwo(align) ==>
              && (p == NULLPTR <==> size == 0 || old(Refused(h, size, align)))
              && (size > 0 && p == NULLPTR ==> OutOfMemory(h, size, align))
              && (p != NULLPTR ==> Granted(h, p, c, size, align) && Chosen(h, c, size, align) && !old(Live(h, c)))
              && GrowsOnlyIfNeeded(h, size, align)
  {
    if align >= 32 { PowerOfTwoTest(align); }
    if align < 32 || And(align, align - 1) != 0 {
      h.errno := Invalid;
      return NULLPTR, 0;
    }
    PowersAlign(align);
    p, c := GeneralizeAllocation(h, size, align);
  }

  // ----- sf_check_pointer and sf_free -----

  // A pointer that cannot be a payload: null, not aligned, or outside prologue and epilogue.
  ghost predicate Outside(h: Memory, pp: int)
    reads h
  {
    pp == NULLPTR || pp % 16 != 0 || pp < h.base || pp - ROW < h.base + 40 || pp - ROW >= h.base + ROW * (h.end - 1)
  }

  // pp is the payload of live block c.
  ghost predicate PointsTo(h: Memory, pp: int, c: int)
    reads h
  {
    Live(h, c) && pp == Address(h.base, c + 1)
  }

  // The last payload row happens to hold the same bits as the header.
  predicate LooksFree(rows: seq<int>, c: int, n: int)
    requires 0 <= c < |rows| && 0 <= c + n - 1 < |rows|
  {
    rows[c + n - 1] == rows[c]
  }

  lemma LiveWords(h: Memory, c: int)
    requires Valid(h) && Live(h, c)
    ensures h.end > 0 && 5 <= c && c % 2 == 1 && h.bs[c].n >= MIN_ROWS && h.bs[c].n % 2 == 0 && c + h.bs[c].n <= h.Epilogue() < h.mem.Length
    ensures h.mem[c] == Header(h.bs[c].n, PrevOf(h.mem[c]), true) && c + h.bs[c].n in h.bs
    ensures !PrevOf(h.mem[c]) ==> !AllocOf(h.mem[c - 1])
  {
    ghost var e, bs, rows := h.Epilogue(), h.bs, h.mem[..];
    assert Tile(bs, e, c) && Tile(bs, e, c + bs[c].n) && Apart(bs, 1, c) && WordOk(rows, bs, e, 0, c);
    var q := Predecessor(bs, e, c);
    assert WordOk(rows, bs, e, 0, q) && Tile(bs, e, q);
    if !bs[q].alloc { assert q + bs[q].n - 1 == c - 1; }
  }

  // A live pointer passes if and only if its last payload row differs from its header.
  method CheckPointer(h: Memory, pp: int, ghost c: int) returns (r: int)
    requires Valid(h) && (Outside(h, pp) || PointsTo(h, pp, c))
    ensures r == 0 || r == -1
    ensures Outside(h, pp) ==> r == -1
    ensures PointsTo(h, pp, c) ==>
              !Outside(h, pp) && 0 <= c < h.mem.Length && 0 <= c + h.bs[c].n - 1 < h.mem.Length
              && (r == 0 <==> h.mem[c + h.bs[c].n - 1] != h.mem[c])
  {
    if PointsTo(h, pp, c) { LiveWords(h, c); }
    if pp == NULLPTR { return -1; }
    if pp % 16 != 0 { return -1; }
    if pp < h.base { return -1; }
    if pp - ROW < h.base + 40 || pp - ROW >= h.base + ROW * (h.end - 1) { return -1; }
    var block := (pp - h.base) / ROW - 1;
    assert block == c;
    var size := SizeOf(h.mem[block]);
    if size % 16 != 0 { return -1; }
    if size < 32 { return -1; }
    if !AllocOf(h.mem[block]) { return -1; }
    if h.mem[block + size / ROW - 1] == h.mem[block] { return -1; }
    if block + size / ROW > h.end - 1 { return -1; }
    if !PrevOf(h.mem[block]) {
      if AllocOf(h.mem[block - 1]) { return -1; }
    }
    r := 0;
  }

  // A live block about to be freed is open.
  lemma OpenLive(m: Mem, e: int, bs: Blocks, lists: seq<seq<int>>, c: int)
    requires HeapOk(m, e, bs, lists, {}, 0) && c in bs && bs[c].alloc && c != 1 && c != e
    ensures Opened(m, e, Marked(bs, c, false), lists, {c}, c) && Keeps(bs, m.rows, Marked(bs, c, false), m.rows, c)
  {
    var cs := Marked(bs, c, false);
    MarkedTiles(bs, e, c, false);
    forall s
      ensures WordOk(m.rows, cs, e, c, s) && NoFreePair(cs, c, s)
    {
      assert WordOk(m.rows, bs, e, 0, s) && NoFreePair(bs, 0, s) && Tile(bs, e, s);
    }
    assert Tile(bs, e, c);
    FreeListsBlocks(m, e, bs, cs, lists, {}, {c});
  }

  // The rows of a block that was freed.
  ghost predicate InFreeBlock(bs: Blocks, c: int, n: int)
  {
    exists q :: q in bs && !bs[q].alloc && q <= c && c + n <= q + bs[q].n
  }

  // True for abort().  Otherwise the block becomes part of a free one.
  method SfFree(h: Memory, pp: int, ghost c: int) returns (aborted: bool)
    requires Valid(h) && (Outside(h, pp) || PointsTo(h, pp, c))
    modifies h.mem, h.headNext, h.headPrev, h`bs, h`lists
    ensures Valid(h)
    ensures old(Outside(h, pp)) ==> aborted
    ensures old(PointsTo(h, pp, c)) ==>
              old(0 <= c < h.mem.Length && 0 <= c + h.bs[c].n - 1 < h.mem.Length)
              && (aborted <==> old(LooksFree(h.mem[..], c, h.bs[c].n)))
    ensures aborted ==> h.bs == old(h.bs) && h.lists == old(h.lists) && h.mem[..] == old(h.mem[..])
    ensures !aborted ==> Keeps(old(h.bs), old(h.mem[..]), h.bs, h.mem[..], c)
    ensures OnlyAdds(h, 0) && NoneNew(old(h.bs), h.bs, 0)
    ensures !aborted ==> old(PointsTo(h, pp, c)) && !Live(h, c) && InFreeBlock(h.bs, c, old(h.bs)[c].n)
  {
    var r := CheckPointer(h, pp, c);
    if r != 0 { return true; }
    LiveWords(h, c);
    var block := (pp - h.base) / ROW - 1;
    assert block == c;
    Release(h, block);
    aborted := false;
  }

  // The block goes into its list, joined with what is free around it.
  method Release(h: Memory, c: int)
    requires Valid(h) && Live(h, c)
    modifies h.mem, h.headNext, h.headPrev, h`bs, h`lists
    ensures Valid(h) && Keeps(old(h.bs), old(h.mem[..]), h.bs, h.mem[..], c)
    ensures OnlyAdds(h, 0) && NoneNew(old(h.bs), h.bs, 0)
    ensures !Live(h, c) && InFreeBlock(h.bs, c, old(h.bs)[c].n)
  {
    LiveWords(h, c);
    ghost var m, bs, e := h.Snap(), h.bs, h.Epilogue();
    OpenLive(m, e, bs, h.lists, c);
    h.bs := Marked(bs, c, false);
    ghost var bs1 := h.bs;
    assert Tile(bs1, e, c) && Tile(bs1, e, 0);
    var q := h.AddToFreeList(c, {c});
    assert {c} - {c} == {};
    KeepsExcept(bs, m.rows, bs1, m.rows, h.bs, h.mem[..], c);
    FreedRows(bs1, c, q);
    CoalescedNoneNew(bs1, c, q);
  }

  lemma FreedRows(bs: Blocks, b: int, q: int)
    requires b in bs && !bs[b].alloc && b + bs[b].n in bs && q in bs && (q < b ==> q + bs[q].n == b && !bs[q].alloc) && q <= b
    ensures var cs := Coalesced(bs, b, q);
            InFreeBlock(cs, b, bs[b].n) && (b in cs ==> !cs[b].alloc)
  {
    var cs := Coalesced(bs, b, q);
    assert q in cs && !cs[q].alloc && q <= b && b + bs[b].n <= q + cs[q].n;
  }
}
