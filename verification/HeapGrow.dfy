/** Searching one list, starting the heap and growing it by a page. */
module HeapGrow {
  import opened Common
  import opened Powers
  import opened HeapTiles
  import opened HeapLists
  import opened HeapInv
  import opened HeapSteps
  import opened HeapCoalesce
  import opened Heap
  import opened HeapAlloc
  import opened HeapFit

  // ----- one list searched from the front -----

  method CheckFreeList(h: Memory, size: nat, index: nat, align: int) returns (block: int)
    requires Sound(h) && index < LISTS && h.base % 16 == 0 && Alignment(align)
    requires size % 16 == 0 && size >= ROW * MIN_ROWS
    modifies h.mem, h.headNext, h.headPrev, h`bs, h`lists
    ensures Sound(h)
    ensures var x := FirstIn(h.base, old(h.bs), old(h.lists)[index], size, align);
            && (block == NULL <==> x.None?)
            && (x.Some? ==> Handed(h.base, old(h.bs), old(h.mem[..]), h.bs, h.mem[..], x.value, block, size, align))
    ensures block == NULL ==> h.bs == old(h.bs) && h.lists == old(h.lists) && h.mem[..] == old(h.mem[..])
    ensures block == NULL ==> forall s | s in h.lists[index] :: s in h.bs && !HasRoom(h.base, h.bs, s, size, align)
  {
    var current, padding, k := FindFit(h, size, index, align);
    if current == Head(index) {
      block := NULL;
    } else {
      block := HandOut(h, current, size, padding, align, index, k);
    }
  }

  // The walk around the list: the first block with room, or the head again.
  method FindFit(h: Memory, size: nat, index: nat, align: int) returns (current: int, padding: nat, ghost k: nat)
    requires Sound(h) && index < LISTS && h.base % 16 == 0 && Alignment(align)
    ensures var x := FirstIn(h.base, h.bs, h.lists[index], size, align);
            if current == Head(index) then x.None? else x == Some(current) && padding == Padding(Address(h.base, current + 1), align)
    ensures if current == Head(index) then forall s | s in h.lists[index] :: s in h.bs && !HasRoom(h.base, h.bs, s, size, align)
            else k < |h.lists[index]| && current == h.lists[index][k] && current in h.bs
  {
    ghost var l := h.lists[index];
    assert ListOk(h.Snap(), h.lists, index);
    LinkedHead(h.Snap(), index, l);
    current := h.NextOf(Head(index));
    k, padding := 0, 0;
    while current != Head(index)
      invariant 0 <= k <= |l| && current == Node(index, l, k + 1)
      invariant forall j | 0 <= j < k :: l[j] in h.bs && !HasRoom(h.base, h.bs, l[j], size, align)
      decreases |l| - k
    {
      ListedBlock(h, index, k);
      PaddingAligns(Address(h.base, current + 1), align);
      padding := Padding(Address(h.base, current + 1), align);
      if size + padding <= SizeOf(h.mem[current]) {
        FirstInAt(h.base, h.bs, l, size, align, k);
        return;
      }
      LinkedNode(h.Snap(), index, l, k);
      current := h.NextOf(current);
      k := k + 1;
    }
    assert forall j | 0 <= j < |l| :: l[j] >= 0;
  }

  method HandOut(h: Memory, x: int, size: nat, padding: nat, align: int, ghost c: nat, ghost j: nat) returns (block: int)
    requires Sound(h) && c < LISTS && j < |h.lists[c]| && h.lists[c][j] == x && x in h.bs
    requires h.base % 16 == 0 && Alignment(align) && size % 16 == 0 && size >= ROW * MIN_ROWS
    requires padding == Padding(Address(h.base, x + 1), align) && HasRoom(h.base, h.bs, x, size, align)
    modifies h.mem, h.headNext, h.headPrev, h`bs, h`lists
    ensures Sound(h) && block != NULL
    ensures Handed(h.base, old(h.bs), old(h.mem[..]), h.bs, h.mem[..], x, block, size, align)
  {
    ghost var bs, rows := h.bs, h.mem[..];
    ListedBlock(h, c, j);
    PaddingRounds(h.base, x, align, padding);
    block := TakeListed(h, x, size, padding, c, j);
    HandedFrom(h.base, bs, rows, h.bs, h.mem[..], x, padding, block, size, align);
  }

  lemma PaddingRounds(base: int, x: int, align: int, padding: int)
    requires Alignment(align) && Address(base, x + 1) % 16 == 0 && padding == Padding(Address(base, x + 1), align)
    ensures padding % 16 == 0 && (padding == 0 || padding >= ROW * MIN_ROWS)
  {
    PaddingAligns(Address(base, x + 1), align);
  }

  lemma HandedFrom(base: int, bs: Blocks, rows: seq<int>, cs: Blocks, rows': seq<int>, x: int, padding: nat, c: int, size: int, align: int)
    requires Alignment(align) && Address(base, x + 1) % 16 == 0 && padding == Padding(Address(base, x + 1), align)
    requires x in bs && !bs[x].alloc && HasRoom(base, bs, x, size, align) && size % 16 == 0
    requires c == x + padding / ROW && c in cs && cs[c].alloc && cs[c].n == RowsTaken(x + bs[x].n - c, size)
    requires NoneNew(bs, cs, c) && Keeps(bs, rows, cs, rows', 0)
    ensures Handed(base, bs, rows, cs, rows', x, c, size, align)
  {
    PadRows(base, x, padding, c, align);
    TakenBounds(x + bs[x].n - c, size);
  }

  lemma PadRows(base: int, x: int, padding: nat, c: int, align: int)
    requires Alignment(align) && Address(base, x + 1) % 16 == 0 && padding == Padding(Address(base, x + 1), align)
    requires c == x + padding / ROW
    ensures padding == ROW * (c - x) && Address(base, c + 1) % align == 0
  {
    PaddingAligns(Address(base, x + 1), align);
    WholeRows(padding);
    assert Address(base, c + 1) == Address(base, x + 1) + padding;
  }

  lemma WholeRows(p: int)
    requires p % 16 == 0
    ensures p == ROW * (p / ROW)
  {
    DivModUnique(p, 2 * (p / 16), 0, ROW);
  }

  lemma TakenBounds(n: int, size: int)
    requires size % 16 == 0 && size <= ROW * n
    ensures size <= ROW * RowsTaken(n, size) < size + ROW * MIN_ROWS && RowsTaken(n, size) <= n
  {
    assert size == ROW * (size / ROW);
  }

  lemma ListedBlock(h: Memory, c: nat, k: nat)
    requires Sound(h) && c < LISTS && k < |h.lists[c]| && h.base % 16 == 0
    ensures var x := h.lists[c][k];
            x in h.bs && !h.bs[x].alloc && 0 <= x < h.mem.Length && SizeOf(h.mem[x]) == ROW * h.bs[x].n
            && Address(h.base, x + 1) % 16 == 0
    ensures ListOk(h.Snap(), h.lists, c)
  {
    var x := h.lists[c][k];
    assert InList(h.lists, c, x) && Listable(h.bs, {}, x);
    assert Tile(h.bs, h.Epilogue(), x) && WordOk(h.mem[..], h.bs, h.Epilogue(), 0, x);
  }

  // ----- growing -----

  // The system gives a page, or none is left.
  method Grow(h: Memory) returns (page: int)
    requires h.Shape()
    modifies h`end, h`errno
    ensures h.Shape()
    ensures if old(h.end) + PAGE_ROWS <= h.mem.Length then page == old(h.end) && h.end == old(h.end) + PAGE_ROWS && h.errno == old(h.errno)
            else page == NULL && h.end == old(h.end) && h.errno == NoMemory
  {
    if h.end + PAGE_ROWS <= h.mem.Length {
      page := h.end;
      h.end := h.end + PAGE_ROWS;
    } else {
      page := NULL;
      h.errno := NoMemory;
    }
  }

  // The free block at the old end takes the page in; it stays in the last list.
  ghost function AfterExtend(m: Mem, e: int, p: int): Mem
    requires 0 <= p < e && e + PAGE_ROWS < |m.rows|
  {
    var v := WriteRow(m, e + PAGE_ROWS, m.rows[e]);
    var w := WriteRow(v, p, m.rows[p] + ROW * PAGE_ROWS);
    WriteRow(w, e + PAGE_ROWS - 1, w.rows[p])
  }

  lemma ExtendLast(m: Mem, e: int, bs: Blocks, lists: seq<seq<int>>, p: int)
    requires HeapOk(m, e, bs, lists, {}, 0) && e + PAGE_ROWS < |m.rows|
    requires p in bs && 1 < p < e && p + bs[p].n == e && !bs[p].alloc
    ensures var cs, u := Merged(Paged(bs, e), p, false), AfterExtend(m, e, p);
            HeapOk(u, e + PAGE_ROWS, cs, lists, {}, 0) && Keeps(bs, m.rows, cs, u.rows, e)
  {
    var f, ps := e + PAGE_ROWS, Paged(bs, e);
    var cs, u := Merged(ps, p, false), AfterExtend(m, e, p);
    PagedTiles(bs, e);
    assert Tile(bs, e, p) && Tile(bs, e, e) && WordOk(m.rows, bs, e, 0, p) && WordOk(m.rows, bs, e, 0, e);
    MergedTiles(ps, f, p, false);
    assert cs == bs[p := Block(bs[p].n + PAGE_ROWS, false)][f := Block(0, true)] - {e};
    ExtendWords(m.rows, u.rows, e, bs, cs, p);
    ExtendLists(m, u, e, bs, cs, lists, p);
  }

  lemma ExtendWords(rows: seq<int>, after: seq<int>, e: int, bs: Blocks, cs: Blocks, p: int)
    requires Tiling(bs, e) && Words(rows, bs, e, 0) && e + PAGE_ROWS < |rows|
    requires p in bs && 1 < p < e && p + bs[p].n == e && !bs[p].alloc && Tiling(cs, e + PAGE_ROWS)
    requires rows[p] == Header(bs[p].n, PrevOf(rows[p]), false)
    requires var h := rows[p] + ROW * PAGE_ROWS;
             after == rows[e + PAGE_ROWS := rows[e]][p := h][e + PAGE_ROWS - 1 := h]
    requires cs == bs[p := Block(bs[p].n + PAGE_ROWS, false)][e + PAGE_ROWS := Block(0, true)] - {e}
    ensures Words(after, cs, e + PAGE_ROWS, 0) && Keeps(bs, rows, cs, after, e)
  {
    var f, n := e + PAGE_ROWS, bs[p].n;
    assert Tile(bs, e, p) && WordOk(rows, bs, e, 0, e) && WordOk(rows, bs, e, 0, p) && Tile(bs, e, f);
    assert after[p] == Header(n + PAGE_ROWS, PrevOf(rows[p]), false) && after[f] == rows[e];
    forall s
      ensures WordOk(after, cs, f, 0, s)
    {
      assert WordOk(rows, bs, e, 0, s) && Tile(bs, e, s) && Apart(bs, s, p) && Apart(bs, p, s);
      assert s in bs && s != e ==> Apart(bs, p, s + bs[s].n) && Tile(bs, e, s + bs[s].n);
    }
    forall s
      ensures NoFreePair(cs, 0, s)
    {
      assert NoFreePair(bs, 0, s) && Tile(bs, e, s) && Apart(bs, s, p) && Apart(bs, p, s);
    }
    forall s, r | Payload(bs, s, r) && s != e && 0 <= r < |rows|
      ensures after[r] == rows[r]
    {
      assert Apart(bs, s, p) && Apart(bs, p, s) && Apart(bs, s, e) && Tile(bs, e, s);
    }
  }

  lemma ExtendLists(m: Mem, u: Mem, e: int, bs: Blocks, cs: Blocks, lists: seq<seq<int>>, p: int)
    requires HeapOk(m, e, bs, lists, {}, 0) && e + PAGE_ROWS < |m.rows|
    requires p in bs && 1 < p < e && p + bs[p].n == e && !bs[p].alloc
    requires u == AfterExtend(m, e, p)
    requires cs == bs[p := Block(bs[p].n + PAGE_ROWS, false)][e + PAGE_ROWS := Block(0, true)] - {e}
    ensures FreeLists(u, e + PAGE_ROWS, cs, lists, {})
  {
    var f := e + PAGE_ROWS;
    NoLinkAt(bs, e, {}, p, p);
    assert NoLink(bs, {}, f) && NoLink(bs, {}, f - 1) by {
      forall s | Listable(bs, {}, s) ensures s + 2 < e { assert Tile(bs, e, s) && Tile(bs, e, s + bs[s].n); }
    }
    var v := WriteRow(m, f, m.rows[e]);
    var w := WriteRow(v, p, m.rows[p] + ROW * PAGE_ROWS);
    FreeListsWrite(m, v, e, bs, lists, {}, f, m.rows[e]);
    FreeListsWrite(v, w, e, bs, lists, {}, p, m.rows[p] + ROW * PAGE_ROWS);
    FreeListsWrite(w, u, e, bs, lists, {}, f - 1, w.rows[p]);
    assert Tile(bs, e, e) && Tile(bs, e, f);
    forall s
      ensures Listable(bs, {}, s) <==> Listable(cs, {}, s)
      ensures Listable(bs, {}, s) ==> ListOf(cs, f, s) == ListOf(bs, e, s)
    {
      assert Tile(bs, e, s) && Apart(bs, s, p) && Apart(bs, p, s);
    }
    forall c, s | InList(lists, c, s)
      ensures Listable(cs, {}, s) && ListOf(cs, f, s) == c
    {
      assert Listable(bs, {}, s);
    }
  }

  // The last block is allocated: the page becomes a free block in the old epilogue's place.
  ghost function AfterPage(m: Mem, e: int): Mem
    requires 0 <= e && e + PAGE_ROWS < |m.rows|
  {
    var w := Header(PAGE_ROWS, true, false);
    WriteRow(WriteRow(WriteRow(m, e + PAGE_ROWS, m.rows[e]), e, w), e + PAGE_ROWS - 1, w)
  }

  lemma FreshPage(m: Mem, e: int, bs: Blocks, lists: seq<seq<int>>)
    requires HeapOk(m, e, bs, lists, {}, 0) && 0 <= e && e + PAGE_ROWS < |m.rows| && PrevOf(m.rows[e])
    ensures var cs, u := Paged(bs, e), AfterPage(m, e);
            Opened(u, e + PAGE_ROWS, cs, lists, {e}, e) && Keeps(bs, m.rows, cs, u.rows, e) && u.rows[e] == Header(PAGE_ROWS, true, false)
  {
    var f, cs, u, w := e + PAGE_ROWS, Paged(bs, e), AfterPage(m, e), Header(PAGE_ROWS, true, false);
    PagedTiles(bs, e);
    assert NoLink(bs, {}, e) && NoLink(bs, {}, f) && NoLink(bs, {}, f - 1) by {
      forall s | Listable(bs, {}, s) ensures s + 2 < e { assert Tile(bs, e, s) && Tile(bs, e, s + bs[s].n); }
    }
    var v1 := WriteRow(m, f, m.rows[e]);
    var v2 := WriteRow(v1, e, w);
    FreeListsWrite(m, v1, e, bs, lists, {}, f, m.rows[e]);
    FreeListsWrite(v1, v2, e, bs, lists, {}, e, w);
    FreeListsWrite(v2, u, e, bs, lists, {}, f - 1, w);
    PageWords(m.rows, u.rows, e, bs);
    NothingAtEnd(m, e, bs, lists);
    forall c, s | InList(lists, c, s)
      ensures Listable(cs, {e}, s) && ListOf(cs, f, s) == c
    {
      assert Listable(bs, {}, s) && Tile(bs, e, s);
    }
    forall s | Listable(cs, {e}, s)
      ensures InList(lists, ListOf(cs, f, s), s)
    {
      assert Listable(bs, {}, s) && Tile(bs, e, s);
    }
  }

  // No free block touches an epilogue that knows its predecessor is allocated.
  lemma NothingAtEnd(m: Mem, e: int, bs: Blocks, lists: seq<seq<int>>)
    requires HeapOk(m, e, bs, lists, {}, 0) && 0 <= e < |m.rows| && PrevOf(m.rows[e])
    ensures forall s | Listable(bs, {}, s) :: s + bs[s].n != e
  {
    forall s | Listable(bs, {}, s)
      ensures s + bs[s].n != e
    {
      assert Tile(bs, e, s) && WordOk(m.rows, bs, e, 0, s);
    }
  }

  lemma NoneAtEnd(m: Mem, e: int, bs: Blocks, lists: seq<seq<int>>)
    requires HeapOk(m, e, bs, lists, {}, 0) && 0 <= e < |m.rows| && PrevOf(m.rows[e])
    ensures Grown(bs, e) == Paged(bs, e)
  {
    NothingAtEnd(m, e, bs, lists);
    assert !EndsAt(bs, e, LastStart(bs, e)) by { assert Listable(bs, {}, LastStart(bs, e)) || !EndsAt(bs, e, LastStart(bs, e)); }
  }

  lemma PageWords(rows: seq<int>, after: seq<int>, e: int, bs: Blocks)
    requires Tiling(bs, e) && Words(rows, bs, e, 0) && 0 <= e && e + PAGE_ROWS < |rows| && PrevOf(rows[e])
    requires var w := Header(PAGE_ROWS, true, false);
             after == rows[e + PAGE_ROWS := rows[e]][e := w][e + PAGE_ROWS - 1 := w]
    ensures Words(after, Paged(bs, e), e + PAGE_ROWS, e) && Keeps(bs, rows, Paged(bs, e), after, e)
  {
    var f, cs := e + PAGE_ROWS, Paged(bs, e);
    assert WordOk(rows, bs, e, 0, e) && Tile(bs, e, f);
    forall s
      ensures WordOk(after, cs, f, e, s) && NoFreePair(cs, e, s)
    {
      assert WordOk(rows, bs, e, 0, s) && NoFreePair(bs, 0, s) && Tile(bs, e, s) && Apart(bs, s, e);
      assert s in bs && s != e ==> Tile(bs, e, s + bs[s].n);
    }
    forall s, r | Payload(bs, s, r) && s != e && 0 <= r < |rows|
      ensures after[r] == rows[r]
    {
      assert Apart(bs, s, e) && Tile(bs, e, s);
    }
  }

  // ----- sf_increase_wilderness -----

  // Only the last list and the block at the end change.
  ghost predicate GrownAtEnd(bs: Blocks, lists: seq<seq<int>>, cs: Blocks, lists': seq<seq<int>>)
  {
    && |lists| == LISTS == |lists'|
    && forall c, s {:trigger InList(lists', c, s)} | InList(lists', c, s) && c < LAST :: InList(lists, c, s) && s in bs && s in cs && cs[s] == bs[s]
  }

  method IncreaseWilderness(h: Memory) returns (ok: bool)
    requires Sound(h) && 0 <= h.Epilogue()
    modifies h.mem, h.headNext, h.headPrev, h`end, h`errno, h`bs, h`lists
    ensures Sound(h)
    ensures !ok ==> h.errno == NoMemory && h.end == old(h.end) && h.end + PAGE_ROWS > h.mem.Length && h.bs == old(h.bs)
                    && h.lists == old(h.lists) && h.mem[..] == old(h.mem[..])
    ensures ok ==> h.errno == old(h.errno) && h.end == old(h.end) + PAGE_ROWS && GrownAtEnd(old(h.bs), old(h.lists), h.bs, h.lists)
    ensures ok ==> h.bs == Grown(old(h.bs), old(h.Epilogue()))
    ensures Keeps(old(h.bs), old(h.mem[..]), h.bs, h.mem[..], old(h.Epilogue()))
    ensures OnlyNew(old(h.bs), old(h.Epilogue()), h.bs, h.Epilogue(), 0)
  {
    var e := h.end - 1;
    var page := Grow(h);
    if page == NULL { return false; }
    assert Tile(h.bs, e, e) && WordOk(h.mem[..], h.bs, e, 0, e) && Tile(h.bs, e, e + PAGE_ROWS);
    if !PrevOf(h.mem[e]) {
      ExtendWilderness(h, e);
    } else {
      AddPage(h, e);
    }
    ok := true;
  }

  method ExtendWilderness(h: Memory, e: int)
    requires h.Shape() && HeapOk(h.Snap(), e, h.bs, h.lists, {}, 0) && h.end - 1 == e + PAGE_ROWS
    requires 1 < e && !PrevOf(h.mem[e])
    modifies h.mem, h`bs
    ensures Sound(h) && GrownAtEnd(old(h.bs), h.lists, h.bs, h.lists)
    ensures Keeps(old(h.bs), old(h.mem[..]), h.bs, h.mem[..], e)
    ensures OnlyNew(old(h.bs), e, h.bs, h.Epilogue(), 0) && h.bs == Grown(old(h.bs), e)
  {
    ghost var m, bs := h.Snap(), h.bs;
    ghost var g := Predecessor(bs, e, e);
    assert Tile(bs, e, g) && WordOk(m.rows, bs, e, 0, g);
    ExtendLast(m, e, bs, h.lists, g);
    h.Put(e + PAGE_ROWS, h.mem[e]);
    var p := e - SizeOf(h.mem[e - 1]) / ROW;
    assert p == g;
    h.Put(p, h.mem[p] + ROW * PAGE_ROWS);
    assert h.mem[p] == Header(bs[p].n + PAGE_ROWS, PrevOf(m.rows[p]), false);
    h.Put(p + SizeOf(h.mem[p]) / ROW - 1, h.mem[p]);
    assert h.Snap() == AfterExtend(m, e, p);
    LastStartIs(bs, e, p);
    h.bs := Merged(Paged(bs, e), p, false);
    forall c, s | InList(h.lists, c, s) && c < LAST
      ensures s in bs && s in h.bs && h.bs[s] == bs[s]
    {
      assert Listable(bs, {}, s) && Tile(bs, e, s);
    }
  }

  method AddPage(h: Memory, e: int)
    requires h.Shape() && HeapOk(h.Snap(), e, h.bs, h.lists, {}, 0) && h.end - 1 == e + PAGE_ROWS
    requires 1 < e && PrevOf(h.mem[e])
    modifies h.mem, h.headNext, h.headPrev, h`bs, h`lists
    ensures Sound(h) && GrownAtEnd(old(h.bs), old(h.lists), h.bs, h.lists)
    ensures Keeps(old(h.bs), old(h.mem[..]), h.bs, h.mem[..], e)
    ensures OnlyNew(old(h.bs), e, h.bs, h.Epilogue(), 0) && h.bs == Grown(old(h.bs), e)
  {
    ghost var m, bs, lists := h.Snap(), h.bs, h.lists;
    NoneAtEnd(m, e, bs, lists);
    FreshPage(m, e, bs, lists);
    h.Put(e + PAGE_ROWS, h.mem[e]);
    h.Put(e, Header(PAGE_ROWS, true, false));
    h.Put(e + SizeOf(h.mem[e]) / ROW - 1, h.mem[e]);
    assert h.Snap() == AfterPage(m, e);
    h.bs := Paged(bs, e);
    ghost var bs1, m1 := h.bs, h.Snap();
    assert Tile(bs, e, 0);
    var q := h.AddToFreeList(e, {e});
    CoalescedNoneNew(bs1, e, q);
    assert {e} - {e} == {};
    KeepsExcept(bs, m.rows, bs1, m1.rows, h.bs, h.mem[..], e);
    forall c, s | InList(h.lists, c, s) && c < LAST
      ensures InList(lists, c, s) && s in bs && s in h.bs && h.bs[s] == bs[s]
    {
      assert InList(lists, c, s);
      assert Listable(bs, {}, s) && Tile(bs, e, s);
    }
  }
}
