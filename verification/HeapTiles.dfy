/**
 Header words of the allocator and the blocks they describe.  The heap is counted in rows of
 eight bytes.  Row 1 holds the prologue's header, the last row the epilogue's, and between
 them the blocks lie side by side, each starting at its header.
 */
module HeapTiles {

  const ROW: int := 8
  const PAGE_ROWS: int := 1024
  const MIN_ROWS: int := 4

  // ----- header words: the size in bytes and two flag bits -----

  function Header(n: nat, prevAlloc: bool, alloc: bool): (h: int)
    ensures h >= 0 && SizeOf(h) == ROW * n && RowsOf(h) == n && PrevOf(h) == prevAlloc && AllocOf(h) == alloc
  {
    var f := (if prevAlloc then 2 else 0) + (if alloc then 1 else 0);
    assert (ROW * n + f) % 4 == f && (ROW * n + f) / 2 == 4 * n + f / 2 && (ROW * n + f) % 2 == f % 2;
    assert (4 * n + f / 2) % 2 == f / 2;
    ROW * n + f
  }

  // The word with its two low bits masked away.
  function SizeOf(h: int): int { h - h % 4 }

  function RowsOf(h: int): int { SizeOf(h) / ROW }

  function AllocOf(h: int): bool { h % 2 == 1 }

  function PrevOf(h: int): bool { h / 2 % 2 == 1 }

  function WithAlloc(h: int): int { if AllocOf(h) then h else h + 1 }

  function WithPrev(h: int): int { if PrevOf(h) then h else h + 2 }

  function WithoutPrev(h: int): int { if PrevOf(h) then h - 2 else h }

  lemma FlagsOfHeader(n: nat, p: bool, a: bool)
    ensures WithAlloc(Header(n, p, a)) == Header(n, p, true)
    ensures WithPrev(Header(n, p, a)) == Header(n, true, a)
    ensures WithoutPrev(Header(n, p, a)) == Header(n, false, a)
  {}

  // ----- blocks -----

  datatype Block = Block(n: nat, alloc: bool)

  type Blocks = map<int, Block>

  ghost predicate Tile(bs: Blocks, e: int, s: int)
  {
    s in bs ==>
      && 1 <= s <= e && s % 2 == 1
      && (s != e ==> bs[s].n >= MIN_ROWS && bs[s].n % 2 == 0 && s + bs[s].n in bs)
  }

  // Two blocks do not overlap.
  ghost predicate Apart(bs: Blocks, s: int, t: int)
  {
    s in bs && t in bs && s < t ==> s + bs[s].n <= t
  }

  // The blocks from prologue to epilogue, each followed by the next and none overlapping.
  ghost predicate Tiling(bs: Blocks, e: int)
  {
    && e > 1 && 1 in bs && bs[1] == Block(4, true) && e in bs && bs[e] == Block(0, true)
    && (forall s {:trigger Tile(bs, e, s)} :: Tile(bs, e, s))
    && (forall s, t {:trigger Apart(bs, s, t)} :: Apart(bs, s, t))
  }

  ghost predicate Within(bs: Blocks, s: int, row: int)
  {
    s in bs && s <= row && (row < s + bs[s].n || row == s)
  }

  // Every row between the two ends belongs to exactly one block.
  lemma {:induction false} TilesCover(bs: Blocks, e: int, row: int) returns (s: int)
    requires Tiling(bs, e) && 1 <= row <= e
    ensures Within(bs, s, row) && forall t | Within(bs, t, row) :: t == s
    decreases row
  {
    if row == 1 {
      s := 1;
    } else {
      s := TilesCover(bs, e, row - 1);
      assert Tile(bs, e, s);
      if row == s + bs[s].n { s := row; }
    }
    forall t | Within(bs, t, row)
      ensures t == s
    {
      assert Apart(bs, s, t) && Apart(bs, t, s) && Tile(bs, e, t) && Tile(bs, e, s);
    }
  }

  lemma Predecessor(bs: Blocks, e: int, s: int) returns (p: int)
    requires Tiling(bs, e) && s in bs && s != 1
    ensures p in bs && p < s && p + bs[p].n == s
  {
    assert Tile(bs, e, s);
    p := TilesCover(bs, e, s - 1);
    assert Tile(bs, e, p) && Apart(bs, p, s);
  }

  // Two neighbours become one block.
  function Merged(bs: Blocks, s: int, alloc: bool): Blocks
    requires s in bs && s + bs[s].n in bs
  {
    (bs - {s + bs[s].n})[s := Block(bs[s].n + bs[s + bs[s].n].n, alloc)]
  }

  lemma MergedTiles(bs: Blocks, e: int, s: int, alloc: bool)
    requires Tiling(bs, e) && s in bs && s != 1 && s != e && s + bs[s].n != e
    ensures s + bs[s].n in bs && Tiling(Merged(bs, s, alloc), e)
  {
    assert Tile(bs, e, s);
    var t := s + bs[s].n;
    assert Tile(bs, e, t) && Tile(bs, e, 1) && Apart(bs, 1, s);
    var cs := Merged(bs, s, alloc);
    forall x
      ensures Tile(cs, e, x)
    {
      assert Tile(bs, e, x) && Apart(bs, x, s) && Apart(bs, s, x);
    }
    forall x, y
      ensures Apart(cs, x, y)
    {
      assert Apart(bs, x, y) && Apart(bs, t, y) && Apart(bs, x, t) && Tile(bs, e, x) && Tile(bs, e, y);
    }
  }

  // A block becomes two, the first of k rows.
  function Divided(bs: Blocks, s: int, k: nat, a: bool, b: bool): Blocks
    requires s in bs && k <= bs[s].n
  {
    bs[s := Block(k, a)][s + k := Block(bs[s].n - k, b)]
  }

  lemma DividedTiles(bs: Blocks, e: int, s: int, k: nat, a: bool, b: bool)
    requires Tiling(bs, e) && s in bs && s != 1 && s != e
    requires k >= MIN_ROWS && k % 2 == 0 && bs[s].n - k >= MIN_ROWS
    ensures Tiling(Divided(bs, s, k, a, b), e) && s + k !in bs
  {
    assert Tile(bs, e, s) && Apart(bs, s, s + k);
    assert Tile(bs, e, s + bs[s].n);
    var cs := Divided(bs, s, k, a, b);
    assert Tile(bs, e, 1) && Apart(bs, 1, s);
    forall x
      ensures Tile(cs, e, x)
    {
      assert Tile(bs, e, x) && Apart(bs, s, x);
    }
    forall x, y
      ensures Apart(cs, x, y)
    {
      assert Apart(bs, x, y) && Apart(bs, s, y) && Apart(bs, x, s) && Apart(bs, s, x) && Tile(bs, e, x) && Tile(bs, e, y);
    }
  }

  function Marked(bs: Blocks, s: int, alloc: bool): Blocks
    requires s in bs
  {
    bs[s := Block(bs[s].n, alloc)]
  }

  lemma MarkedTiles(bs: Blocks, e: int, s: int, alloc: bool)
    requires Tiling(bs, e) && s in bs && s != 1 && s != e
    ensures Tiling(Marked(bs, s, alloc), e)
  {
    var cs := Marked(bs, s, alloc);
    forall x
      ensures Tile(cs, e, x)
    {
      assert Tile(bs, e, x);
    }
    forall x, y
      ensures Apart(cs, x, y)
    {
      assert Apart(bs, x, y);
    }
  }

  // A page more: the old epilogue becomes a block of its own.
  function Paged(bs: Blocks, e: int): Blocks {
    bs[e := Block(PAGE_ROWS, false)][e + PAGE_ROWS := Block(0, true)]
  }

  lemma PagedTiles(bs: Blocks, e: int)
    requires Tiling(bs, e)
    ensures Tiling(Paged(bs, e), e + PAGE_ROWS) && e + PAGE_ROWS !in bs
  {
    assert Tile(bs, e, e) && Tile(bs, e, e + PAGE_ROWS);
    var cs, f := Paged(bs, e), e + PAGE_ROWS;
    forall x
      ensures Tile(cs, f, x)
    {
      assert Tile(bs, e, x);
    }
    forall x, y
      ensures Apart(cs, x, y)
    {
      assert Apart(bs, x, y) && Tile(bs, e, x) && Tile(bs, e, y) && Apart(bs, x, e);
    }
  }
}
