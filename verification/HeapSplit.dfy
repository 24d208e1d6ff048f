/** The steps of handing out a block: marking it allocated, splitting it, padding before it. */
module HeapSplit {
  import opened HeapTiles
  import opened HeapLists
  import opened HeapInv
  import opened HeapSteps
  import opened HeapCoalesce

  // Block c is about to be handed out (or to shrink): its header has the right size.
  ghost predicate Taken(m: Mem, e: int, bs: Blocks, lists: seq<seq<int>>, pend: set<int>, c: int)
  {
    && HeapOk(m, e, bs, lists, pend, c)
    && c in pend && c in bs && c != 1 && c != e && c + bs[c].n in bs && 0 <= c < c + bs[c].n < |m.rows|
    && m.rows[c] == Header(bs[c].n, PrevOf(m.rows[c]), AllocOf(m.rows[c]))
    && (bs[c + bs[c].n].alloc || PrevOf(m.rows[c + bs[c].n]))
  }

  // A live block can be taken as it is.
  lemma TakeLive(m: Mem, e: int, bs: Blocks, lists: seq<seq<int>>, c: int)
    requires HeapOk(m, e, bs, lists, {}, 0) && c in bs && bs[c].alloc && c != 1 && c != e
    ensures Taken(m, e, bs, lists, {c}, c)
  {
    assert Tile(bs, e, c) && Tile(bs, e, c + bs[c].n) && WordOk(m.rows, bs, e, 0, c);
    OpenBlock(m, e, bs, lists, {}, c);
    FreeListsBlocks(m, e, bs, bs, lists, {}, {c});
  }

  lemma OpenBlock(m: Mem, e: int, bs: Blocks, lists: seq<seq<int>>, pend: set<int>, c: int)
    requires HeapOk(m, e, bs, lists, pend, 0)
    ensures HeapOk(m, e, bs, lists, pend, c)
  {
    forall s
      ensures WordOk(m.rows, bs, e, c, s) && NoFreePair(bs, c, s)
    {
      assert WordOk(m.rows, bs, e, 0, s) && NoFreePair(bs, 0, s) && Tile(bs, e, s);
      assert s in bs && s != e ==> Tile(bs, e, s + bs[s].n);
    }
  }

  // The whole block is handed out.
  lemma MarkTaken(m: Mem, e: int, bs: Blocks, lists: seq<seq<int>>, pend: set<int>, c: int, x: int, v: Mem, u: Mem)
    requires Taken(m, e, bs, lists, pend, c) && x == c + bs[c].n
    requires v == WriteRow(m, c, WithAlloc(m.rows[c])) && u == WriteRow(v, x, WithPrev(m.rows[x]))
    ensures HeapOk(u, e, Marked(bs, c, true), lists, pend - {c}, 0) && Keeps(bs, m.rows, Marked(bs, c, true), u.rows, c)
    ensures forall r | c < r < x :: u.rows[r] == m.rows[r]
  {
    var cs := Marked(bs, c, true);
    assert Tile(bs, e, c) && Tile(bs, e, x) && WordOk(m.rows, bs, e, c, x);
    FlagsOfHeader(bs[c].n, PrevOf(m.rows[c]), AllocOf(m.rows[c]));
    FlagsOfHeader(bs[x].n, PrevOf(m.rows[x]), bs[x].alloc);
    NoLinkAt(bs, e, pend, c, c);
    NoLinkAt(bs, e, pend, x, x);
    FreeListsWrite(m, v, e, bs, lists, pend, c, WithAlloc(m.rows[c]));
    FreeListsWrite(v, u, e, bs, lists, pend, x, WithPrev(m.rows[x]));
    FreeListsBlocks(u, e, bs, cs, lists, pend, pend - {c});
    MarkedTiles(bs, e, c, true);
    MarkWords(m.rows, u.rows, e, bs, c);
  }

  lemma MarkWords(rows: seq<int>, after: seq<int>, e: int, bs: Blocks, c: int)
    requires Tiling(bs, e) && Words(rows, bs, e, c) && c in bs && c != 1 && c != e && c + bs[c].n in bs
    requires 0 <= c < |rows| && c + bs[c].n < |rows| && (bs[c + bs[c].n].alloc || PrevOf(rows[c + bs[c].n]))
    requires rows[c] == Header(bs[c].n, PrevOf(rows[c]), AllocOf(rows[c]))
    requires var x := c + bs[c].n; after == rows[c := WithAlloc(rows[c])][x := WithPrev(rows[x])]
    ensures Words(after, Marked(bs, c, true), e, 0) && Keeps(bs, rows, Marked(bs, c, true), after, c)
  {
    var x, cs := c + bs[c].n, Marked(bs, c, true);
    assert Tile(bs, e, c) && Tile(bs, e, x) && WordOk(rows, bs, e, c, x);
    FlagsOfHeader(bs[c].n, PrevOf(rows[c]), AllocOf(rows[c]));
    FlagsOfHeader(bs[x].n, PrevOf(rows[x]), bs[x].alloc);
    forall s
      ensures WordOk(after, cs, e, 0, s) && NoFreePair(cs, 0, s)
    {
      assert WordOk(rows, bs, e, c, s) && NoFreePair(bs, c, s) && Tile(bs, e, s);
      assert Apart(bs, s, c) && Apart(bs, c, s) && Apart(bs, s, x) && Apart(bs, x, s);
    }
    forall s, r | Payload(bs, s, r) && s != c && 0 <= r < |rows|
      ensures after[r] == rows[r]
    {
      assert Apart(bs, s, c) && Apart(bs, c, s) && Apart(bs, s, x) && Apart(bs, x, s);
    }
  }

  // From m to u the first k rows of c were handed out; the rest is open, to be listed.
  ghost predicate SplitOff(m: Mem, u: Mem, e: int, bs: Blocks, lists: seq<seq<int>>, pend: set<int>, c: int, k: nat)
  {
    && c in bs && 0 <= c && 0 < k <= bs[c].n && c + k !in bs && c + bs[c].n < |m.rows| == |u.rows|
    && var cs := Divided(bs, c, k, true, false);
    && Opened(u, e, cs, lists, pend - {c} + {c + k}, c + k) && u.rows[c + k] == Header(bs[c].n - k, true, false)
    && Keeps(bs, m.rows, cs, u.rows, c) && forall r | c < r < c + k :: u.rows[r] == m.rows[r]
  }

  ghost function AfterSplit(m: Mem, c: int, n: nat, k: nat): Mem
    requires 0 <= c && c + n < |m.rows| && 0 < k < n
  {
    var w := Header(n - k, true, false);
    WriteRow(WriteRow(WriteRow(m, c, Header(k, PrevOf(m.rows[c]), true)), c + k, w), c + n - 1, w)
  }

  lemma SplitTaken(m: Mem, e: int, bs: Blocks, lists: seq<seq<int>>, pend: set<int>, c: int, k: nat)
    requires Taken(m, e, bs, lists, pend, c) && k >= MIN_ROWS && k % 2 == 0 && bs[c].n - k >= MIN_ROWS
    ensures SplitOff(m, AfterSplit(m, c, bs[c].n, k), e, bs, lists, pend, c, k)
  {
    var h, hc, i := Header(bs[c].n - k, true, false), Header(k, PrevOf(m.rows[c]), true), c + bs[c].n - 1;
    var v := WriteRow(m, c, hc);
    var w := WriteRow(v, c + k, h);
    var u, cs := WriteRow(w, i, h), Divided(bs, c, k, true, false);
    assert Tile(bs, e, c) && Tile(bs, e, c + bs[c].n);
    DividedTiles(bs, e, c, k, true, false);
    NoLinkAt(bs, e, pend, c, c);
    NoLinkAt(bs, e, pend, c, c + k);
    NoLinkAt(bs, e, pend, c, i);
    FreeListsWrite(m, v, e, bs, lists, pend, c, hc);
    FreeListsWrite(v, w, e, bs, lists, pend, c + k, h);
    FreeListsWrite(w, u, e, bs, lists, pend, i, h);
    FreeListsBlocks(u, e, bs, cs, lists, pend, pend - {c} + {c + k});
    SplitWords(m.rows, u.rows, e, bs, c, k);
  }

  lemma SplitWords(rows: seq<int>, after: seq<int>, e: int, bs: Blocks, c: int, k: nat)
    requires Tiling(bs, e) && Words(rows, bs, e, c) && c in bs && c != 1 && c != e
    requires k >= MIN_ROWS && k % 2 == 0 && bs[c].n - k >= MIN_ROWS && Tiling(Divided(bs, c, k, true, false), e)
    requires 0 <= c && c + bs[c].n < |rows|
    requires var h := Header(bs[c].n - k, true, false);
             after == rows[c := Header(k, PrevOf(rows[c]), true)][c + k := h][c + bs[c].n - 1 := h]
    ensures var cs := Divided(bs, c, k, true, false); Words(after, cs, e, c + k) && Keeps(bs, rows, cs, after, c)
  {
    var d, cs := c + k, Divided(bs, c, k, true, false);
    assert Tile(bs, e, c) && Tile(bs, e, c + bs[c].n) && Apart(bs, c, d);
    assert d !in bs;
    forall s
      ensures WordOk(after, cs, e, d, s)
    {
      assert WordOk(rows, bs, e, c, s) && Tile(bs, e, s) && Apart(bs, s, c) && Apart(bs, c, s);
      assert s in bs && s != e ==> Tile(bs, e, s + bs[s].n) && Apart(bs, c, s + bs[s].n) && Apart(bs, s + bs[s].n, c);
    }
    forall s
      ensures NoFreePair(cs, d, s)
    {
      assert NoFreePair(bs, c, s) && Tile(bs, e, s) && Apart(bs, s, c) && Apart(bs, c, s);
    }
    forall s, r | Payload(bs, s, r) && s != c && 0 <= r < |rows|
      ensures after[r] == rows[r]
    {
      assert Apart(bs, s, c) && Apart(bs, c, s);
    }
  }

  // A free block taken out of its list is divided: a pad, free and pending, and the block
  // that will be handed out.
  ghost function AfterPad(m: Mem, x: int, n: nat, k: nat): Mem
    requires 0 <= x && x + n < |m.rows| && 0 < k < n
  {
    var w := Header(k, PrevOf(m.rows[x]), false);
    WriteRow(WriteRow(WriteRow(m, x + k, Header(n - k, false, false)), x, w), x + k - 1, w)
  }

  // From m to u the first k rows of x became a pad, and the rest can be taken.
  ghost predicate PadOff(m: Mem, u: Mem, e: int, bs: Blocks, lists: seq<seq<int>>, x: int, k: nat)
  {
    && x in bs && 0 < k <= bs[x].n && x + k !in bs
    && var cs := Divided(bs, x, k, false, false);
    && Taken(u, e, cs, lists, {x, x + k}, x + k) && Keeps(bs, m.rows, cs, u.rows, 0) && x + bs[x].n in cs && cs[x + bs[x].n].alloc
  }

  lemma PadTaken(m: Mem, e: int, bs: Blocks, lists: seq<seq<int>>, x: int, k: nat)
    requires HeapOk(m, e, bs, lists, {x}, 0) && x in bs && !bs[x].alloc && x != 1 && x != e
    requires k >= MIN_ROWS && k % 2 == 0 && bs[x].n - k >= MIN_ROWS
    ensures 0 <= x && x + bs[x].n < |m.rows| && m.rows[x] == Header(bs[x].n, PrevOf(m.rows[x]), false)
    ensures PadOff(m, AfterPad(m, x, bs[x].n, k), e, bs, lists, x, k)
  {
    assert Tile(bs, e, x) && Tile(bs, e, x + bs[x].n) && WordOk(m.rows, bs, e, 0, x) && NoFreePair(bs, 0, x);
    var c, p := x + k, PrevOf(m.rows[x]);
    var h, hc := Header(k, p, false), Header(bs[x].n - k, false, false);
    var v := WriteRow(m, c, hc);
    var w := WriteRow(v, x, h);
    var u, cs := WriteRow(w, c - 1, h), Divided(bs, x, k, false, false);
    DividedTiles(bs, e, x, k, false, false);
    NoLinkAt(bs, e, {x}, x, c);
    NoLinkAt(bs, e, {x}, x, x);
    NoLinkAt(bs, e, {x}, x, c - 1);
    FreeListsWrite(m, v, e, bs, lists, {x}, c, hc);
    FreeListsWrite(v, w, e, bs, lists, {x}, x, h);
    FreeListsWrite(w, u, e, bs, lists, {x}, c - 1, h);
    FreeListsBlocks(u, e, bs, cs, lists, {x}, {x, c});
    PadWords(m.rows, u.rows, e, bs, x, k);
  }

  lemma PadWords(rows: seq<int>, after: seq<int>, e: int, bs: Blocks, x: int, k: nat)
    requires Tiling(bs, e) && Words(rows, bs, e, 0) && x in bs && !bs[x].alloc && x != 1 && x != e
    requires k >= MIN_ROWS && k % 2 == 0 && bs[x].n - k >= MIN_ROWS && Tiling(Divided(bs, x, k, false, false), e)
    requires 0 <= x && x + bs[x].n < |rows|
    requires var h := Header(k, PrevOf(rows[x]), false);
             after == rows[x + k := Header(bs[x].n - k, false, false)][x := h][x + k - 1 := h]
    ensures var cs := Divided(bs, x, k, false, false); Words(after, cs, e, x + k) && Keeps(bs, rows, cs, after, 0)
    ensures x + bs[x].n in bs && x + bs[x].n != x + k && after[x + bs[x].n] == rows[x + bs[x].n] && bs[x + bs[x].n].alloc
  {
    var c, cs := x + k, Divided(bs, x, k, false, false);
    assert Tile(bs, e, x) && NoFreePair(bs, 0, x) && Tile(bs, e, x + bs[x].n) && Apart(bs, x, c);
    assert c !in bs;
    forall s
      ensures WordOk(after, cs, e, c, s)
    {
      PadWord(rows, after, e, bs, x, k, s);
    }
    forall s
      ensures NoFreePair(cs, c, s)
    {
      assert NoFreePair(bs, 0, s) && Tile(bs, e, s) && Apart(bs, s, x) && Apart(bs, x, s);
    }
    forall s, r | Payload(bs, s, r) && 0 <= r < |rows|
      ensures after[r] == rows[r]
    {
      assert Apart(bs, s, x) && Apart(bs, x, s);
    }
  }

  lemma PadWord(rows: seq<int>, after: seq<int>, e: int, bs: Blocks, x: int, k: nat, s: int)
    requires Tiling(bs, e) && Words(rows, bs, e, 0) && x in bs && !bs[x].alloc && x != 1 && x != e
    requires k >= MIN_ROWS && k % 2 == 0 && bs[x].n - k >= MIN_ROWS && Tiling(Divided(bs, x, k, false, false), e)
    requires 0 <= x && x + bs[x].n < |rows| && x + k !in bs
    requires var h := Header(k, PrevOf(rows[x]), false);
             after == rows[x + k := Header(bs[x].n - k, false, false)][x := h][x + k - 1 := h]
    ensures var cs := Divided(bs, x, k, false, false); Fits(after, cs) && WordOk(after, cs, e, x + k, s)
  {
    assert Tile(bs, e, x) && Tile(bs, e, x + bs[x].n) && WordOk(rows, bs, e, 0, s) && Tile(bs, e, s);
    assert Apart(bs, s, x) && Apart(bs, x, s);
    assert s in bs && s != e ==> Tile(bs, e, s + bs[s].n) && Apart(bs, x, s + bs[s].n) && Apart(bs, s + bs[s].n, x);
  }

  // A free pending block, closed, can be opened again to be listed.
  lemma OpenPending(m: Mem, e: int, bs: Blocks, lists: seq<seq<int>>, pend: set<int>, x: int)
    requires HeapOk(m, e, bs, lists, pend, 0) && x in pend && x in bs && !bs[x].alloc && x != 1 && x != e
    ensures Opened(m, e, bs, lists, pend, x) && 0 <= x < |m.rows| && SizeOf(m.rows[x]) == ROW * bs[x].n
  {
    assert Tile(bs, e, x) && WordOk(m.rows, bs, e, 0, x);
    OpenBlock(m, e, bs, lists, pend, x);
  }
}
