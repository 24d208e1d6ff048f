/** The steps of putting a block into its free list: coalescing with both neighbours. */
module HeapCoalesce {
  import opened HeapTiles
  import opened HeapLists
  import opened HeapInv
  import opened HeapSteps

  // Block b is open: it is not listed and its header may say anything but its size and the
  // state of its predecessor.
  ghost predicate Opened(m: Mem, e: int, bs: Blocks, lists: seq<seq<int>>, pend: set<int>, b: int)
  {
    && HeapOk(m, e, bs, lists, pend, b)
    && b in pend && b in bs && !bs[b].alloc && b != 1 && b != e && b + bs[b].n in bs
  }

  // The successor is allocated and knows that b is free.
  ghost predicate SettledRight(m: Mem, bs: Blocks, b: int)
    requires b in bs && b + bs[b].n in bs && 0 <= b + bs[b].n < |m.rows|
  {
    bs[b + bs[b].n].alloc && !PrevOf(m.rows[b + bs[b].n])
  }

  ghost predicate SettledLeft(bs: Blocks, b: int)
  {
    forall s {:trigger s in bs} | s in bs && s + bs[s].n == b && s != b :: bs[s].alloc
  }

  // b's header and flags are right and its neighbours allocated; only the footer and the list
  // are missing.
  ghost predicate ReadyAt(m: Mem, e: int, bs: Blocks, lists: seq<seq<int>>, pend: set<int>, b: int)
  {
    && Opened(m, e, bs, lists, pend, b)
    && 0 <= b < |m.rows| && 0 <= b + bs[b].n < |m.rows| && SettledRight(m, bs, b) && SettledLeft(bs, b)
    && m.rows[b] == Header(bs[b].n, true, false)
  }

  ghost function JoinedRight(bs: Blocks, b: int): Blocks
    requires b in bs && b + bs[b].n in bs
  {
    if bs[b + bs[b].n].alloc then bs else Merged(bs, b, false)
  }

  ghost function JoinedLeft(bs: Blocks, b: int, q: int): Blocks
    requires q in bs && (q == b || q + bs[q].n in bs)
  {
    if q == b then bs else Merged(bs, q, false)
  }

  // Block b with its free neighbours, where q is its free predecessor or b itself.
  ghost function Coalesced(bs: Blocks, b: int, q: int): Blocks
    requires b in bs && b + bs[b].n in bs && q in bs && (q < b ==> q + bs[q].n == b) && q <= b
  {
    JoinedLeft(JoinedRight(bs, b), b, q)
  }

  // From m to u block b took in its successor if that was free, and is settled on that side.
  ghost predicate NextJoined(m: Mem, e: int, bs: Blocks, lists: seq<seq<int>>, u: Mem, cs: Blocks, ls: seq<seq<int>>, pend: set<int>, b: int)
    requires b in bs && b + bs[b].n in bs
  {
    && Opened(u, e, cs, ls, pend, b)
    && 0 <= b < |u.rows| == |m.rows| && 0 <= b + cs[b].n < |u.rows| && SettledRight(u, cs, b)
    && u.rows[b] == m.rows[b] && Keeps(bs, m.rows, cs, u.rows, 0)
    && cs == JoinedRight(bs, b) && (bs[b + bs[b].n].alloc ==> ls == lists)
  }

  // From m to u block b became ready, or went into its free predecessor q and that did.
  ghost predicate PrevJoined(m: Mem, e: int, bs: Blocks, lists: seq<seq<int>>, u: Mem, cs: Blocks, ls: seq<seq<int>>, pend: set<int>, b: int, q: int)
    requires q in bs && (q == b || q + bs[q].n in bs)
  {
    && ReadyAt(u, e, cs, ls, pend - {b} + {q}, q) && Keeps(bs, m.rows, cs, u.rows, 0)
    && cs == JoinedLeft(bs, b, q) && (q == b ==> ls == lists)
  }

  // The successor is allocated: it learns that its predecessor is free.
  lemma ClearNext(m: Mem, e: int, bs: Blocks, lists: seq<seq<int>>, pend: set<int>, b: int)
    requires Opened(m, e, bs, lists, pend, b) && bs[b + bs[b].n].alloc
    ensures 0 <= b + bs[b].n < |m.rows|
    ensures var x := b + bs[b].n; var u := WriteRow(m, x, WithoutPrev(m.rows[x]));
            NextJoined(m, e, bs, lists, u, bs, lists, pend, b)
  {
    var x := b + bs[b].n;
    var u := WriteRow(m, x, WithoutPrev(m.rows[x]));
    assert Tile(bs, e, b) && Tile(bs, e, x) && WordOk(m.rows, bs, e, b, x);
    FlagsOfHeader(bs[x].n, PrevOf(m.rows[x]), true);
    NoLinkAt(bs, e, pend, x, x);
    FreeListsWrite(m, u, e, bs, lists, pend, x, WithoutPrev(m.rows[x]));
    forall s
      ensures WordOk(u.rows, bs, e, b, s)
    {
      assert WordOk(m.rows, bs, e, b, s) && Apart(bs, s, x) && Apart(bs, s, b) && Apart(bs, b, s) && Apart(bs, x, s) && Tile(bs, e, s);
    }
    forall s, r | Payload(bs, s, r) && 0 <= r < |m.rows|
      ensures u.rows[r] == m.rows[r]
    {
      assert Apart(bs, s, x) && Apart(bs, x, s);
    }
  }

  // The successor is free: it leaves its list and becomes part of b.
  lemma AbsorbNext(m: Mem, e: int, bs: Blocks, lists: seq<seq<int>>, pend: set<int>, b: int, c: nat, j: nat)
    requires Opened(m, e, bs, lists, pend, b) && !bs[b + bs[b].n].alloc && b + bs[b].n !in pend
    requires c < LISTS && j < |lists[c]| && lists[c][j] == b + bs[b].n
    ensures var x := b + bs[b].n;
            && IsPtr(m, x) && IsPtr(m, PrevLink(m, x)) && IsPtr(m, NextLink(m, x))
            && var u, cs := Unlinked(m, x), Merged(bs, b, false);
            && NextJoined(m, e, bs, lists, u, cs, lists[c := Removed(lists[c], j)], pend, b)
            && 0 <= x < |m.rows| && u.rows[x] == m.rows[x] == Header(bs[x].n, PrevOf(m.rows[x]), false)
  {
    var x := b + bs[b].n;
    UnlinkBlock(m, e, bs, lists, pend, x, c, j);
    var u, cs, ls := Unlinked(m, x), Merged(bs, b, false), lists[c := Removed(lists[c], j)];
    WordsUnderLinks(m, u, e, bs, pend, b);
    assert Tile(bs, e, b) && Tile(bs, e, x);
    MergedTiles(bs, e, b, false);
    assert NoFreePair(bs, b, x) && WordOk(u.rows, bs, e, b, x);
    forall s
      ensures WordOk(u.rows, cs, e, b, s) && NoFreePair(cs, b, s)
    {
      assert WordOk(u.rows, bs, e, b, s) && NoFreePair(bs, b, s) && Apart(bs, s, x) && Apart(bs, s, b) && Apart(bs, b, s) && Tile(bs, e, s);
    }
    FreeListsBlocks(u, e, bs, cs, ls, pend + {x}, pend);
  }

  // The flag of b tells whether its predecessor is free, and then the footer before b is the
  // predecessor's header.
  lemma FlagOfPredecessor(m: Mem, e: int, bs: Blocks, lists: seq<seq<int>>, pend: set<int>, b: int) returns (q: int)
    requires Opened(m, e, bs, lists, pend, b)
    ensures q in bs && q < b && q + bs[q].n == b && 0 <= q < b < |m.rows| && bs[q].alloc == PrevOf(m.rows[b])
    ensures forall s | s in bs && s + bs[s].n == b && s != b :: s == q
    ensures !bs[q].alloc ==> q != 1 && m.rows[b - 1] == m.rows[q] == Header(bs[q].n, true, false)
    ensures !bs[q].alloc && q !in pend ==> InList(lists, ListOf(bs, e, q), q) && ListOf(bs, e, q) < LISTS
    ensures !bs[q].alloc ==> SettledLeft(bs, q)
  {
    q := Predecessor(bs, e, b);
    assert Tile(bs, e, b) && Tile(bs, e, q) && WordOk(m.rows, bs, e, b, q);
    forall s | s in bs && s + bs[s].n == b && s != b
      ensures s == q
    {
      assert Apart(bs, s, q) && Apart(bs, q, s) && Tile(bs, e, s);
    }
    if !bs[q].alloc {
      var p := Predecessor(bs, e, q);
      assert Tile(bs, e, p) && WordOk(m.rows, bs, e, b, p) && NoFreePair(bs, b, p);
      forall s | s in bs && s + bs[s].n == q && s != q
        ensures bs[s].alloc
      {
        assert NoFreePair(bs, b, s) && Apart(bs, s, b) && Tile(bs, e, s);
      }
      if q !in pend { assert Listable(bs, pend, q); }
    }
  }

  // The predecessor is free: it takes b in and leaves its list.
  lemma AbsorbIntoPrev(m: Mem, e: int, bs: Blocks, lists: seq<seq<int>>, pend: set<int>, b: int, q: int, c: nat, j: nat, v: Mem)
    requires Opened(m, e, bs, lists, pend, b) && 0 <= b + bs[b].n < |m.rows| && SettledRight(m, bs, b)
    requires q in bs && 1 < q < b && q + bs[q].n == b && !bs[q].alloc && q !in pend && SettledLeft(bs, q)
    requires 0 <= q < |m.rows| && m.rows[q] == Header(bs[q].n, true, false)
    requires c < LISTS && j < |lists[c]| && lists[c][j] == q
    requires v == WriteRow(m, q, m.rows[q] + ROW * bs[b].n)
    ensures IsPtr(v, q) && IsPtr(v, PrevLink(v, q)) && IsPtr(v, NextLink(v, q))
    ensures PrevJoined(m, e, bs, lists, Unlinked(v, q), Merged(bs, q, false), lists[c := Removed(lists[c], j)], pend, b, q)
  {
    assert Tile(bs, e, b) && Tile(bs, e, q) && Tile(bs, e, b + bs[b].n);
    NoLinkAt(bs, e, pend, q, q);
    FreeListsWrite(m, v, e, bs, lists, pend, q, m.rows[q] + ROW * bs[b].n);
    UnlinkBlock(v, e, bs, lists, pend, q, c, j);
    var u, cs, ls := Unlinked(v, q), Merged(bs, q, false), lists[c := Removed(lists[c], j)];
    MergedTiles(bs, e, q, false);
    HeadersUnderLinks(v, u, e, bs, pend);
    forall s
      ensures WordOk(u.rows, cs, e, q, s)
    {
      MergedWord(m, v, u, e, bs, pend, b, q, s);
    }
    forall s
      ensures NoFreePair(cs, q, s)
    {
      assert NoFreePair(bs, b, s) && Apart(bs, s, b) && Apart(bs, b, s) && Tile(bs, e, s);
    }
    FreeListsBlocks(u, e, bs, cs, ls, pend + {q}, pend - {b} + {q});
    PayloadsUnderLinks(m, v, u, e, bs, pend, q);
  }

  // A header and links written do not reach a payload.
  lemma PayloadsUnderLinks(m: Mem, v: Mem, u: Mem, e: int, bs: Blocks, pend: set<int>, q: int)
    requires Tiling(bs, e) && q in bs && q != e && 0 <= q < |m.rows| && |v.rows| == |m.rows| && v == WriteRow(m, q, v.rows[q])
    requires OnlyLinks(v, u, bs, pend)
    ensures forall s, r {:trigger Payload(bs, s, r)} | Payload(bs, s, r) && 0 <= r < |m.rows| :: u.rows[r] == m.rows[r]
  {
    forall s, r | Payload(bs, s, r) && 0 <= r < |m.rows|
      ensures u.rows[r] == m.rows[r]
    {
      NoLinkAt(bs, e, pend, s, r);
      assert Apart(bs, s, q) && Apart(bs, q, s);
    }
  }

  lemma HeadersUnderLinks(v: Mem, u: Mem, e: int, bs: Blocks, pend: set<int>)
    requires Tiling(bs, e) && Fits(v.rows, bs) && OnlyLinks(v, u, bs, pend)
    ensures forall t {:trigger u.rows[t]} | t in bs :: u.rows[t] == v.rows[t]
  {
    forall t | t in bs
      ensures u.rows[t] == v.rows[t]
    {
      NoLinkAt(bs, e, pend, t, t);
    }
  }

  lemma MergedWord(m: Mem, v: Mem, u: Mem, e: int, bs: Blocks, pend: set<int>, b: int, q: int, s: int)
    requires Tiling(bs, e) && Words(m.rows, bs, e, b) && q in bs && b in bs && q + bs[q].n == b && b + bs[b].n in bs && q != 1 && b != e
    requires Tiling(Merged(bs, q, false), e)
    requires 0 <= q < |m.rows| && v == WriteRow(m, q, m.rows[q] + ROW * bs[b].n) && !bs[q].alloc && m.rows[q] == Header(bs[q].n, true, false)
    requires OnlyLinks(v, u, bs, pend) && (forall t {:trigger u.rows[t]} | t in bs :: u.rows[t] == v.rows[t])
    requires SettledLeft(bs, q)
    ensures Fits(u.rows, Merged(bs, q, false)) && WordOk(u.rows, Merged(bs, q, false), e, q, s)
  {
    var cs := Merged(bs, q, false);
    assert Tile(bs, e, q) && Tile(bs, e, b);
    assert u.rows[q] == Header(cs[q].n, true, false);
    assert WordOk(m.rows, bs, e, b, s) && Tile(bs, e, s) && Apart(bs, s, q) && Apart(bs, s, b) && Apart(bs, b, s) && Apart(bs, q, s);
    if s in cs && s != q && s != e {
      if !bs[s].alloc { NoLinkAt(bs, e, pend, s, s + bs[s].n - 1); }
      assert s + bs[s].n != b;
    }
  }

  // The predecessor is allocated: the header gets its size, the flag stays.
  lemma KeepInPlace(m: Mem, e: int, bs: Blocks, lists: seq<seq<int>>, pend: set<int>, b: int)
    requires Opened(m, e, bs, lists, pend, b) && 0 <= b + bs[b].n < |m.rows| && SettledRight(m, bs, b)
    requires 0 <= b < |m.rows| && PrevOf(m.rows[b])
    ensures var u := WriteRow(m, b, Header(bs[b].n, true, false));
            PrevJoined(m, e, bs, lists, u, bs, lists, pend, b, b)
  {
    assert pend - {b} + {b} == pend;
    var u := WriteRow(m, b, Header(bs[b].n, true, false));
    var q := FlagOfPredecessor(m, e, bs, lists, pend, b);
    NoLinkAt(bs, e, pend, b, b);
    FreeListsWrite(m, u, e, bs, lists, pend, b, Header(bs[b].n, true, false));
    assert Tile(bs, e, b);
    forall s
      ensures WordOk(u.rows, bs, e, b, s)
    {
      assert WordOk(m.rows, bs, e, b, s) && Apart(bs, s, b) && Apart(bs, b, s) && Tile(bs, e, s);
    }
    forall s, r | Payload(bs, s, r) && 0 <= r < |m.rows|
      ensures u.rows[r] == m.rows[r]
    {
      assert Apart(bs, s, b) && Apart(bs, b, s);
    }
  }

  // The footer closes the block.
  lemma CloseBlock(m: Mem, e: int, bs: Blocks, lists: seq<seq<int>>, pend: set<int>, b: int)
    requires ReadyAt(m, e, bs, lists, pend, b)
    ensures 0 <= b + bs[b].n - 1
    ensures var u := WriteRow(m, b + bs[b].n - 1, m.rows[b]);
            HeapOk(u, e, bs, lists, pend, 0) && Keeps(bs, m.rows, bs, u.rows, 0)
  {
    assert Tile(bs, e, b);
    var i := b + bs[b].n - 1;
    var u := WriteRow(m, i, m.rows[b]);
    NoLinkAt(bs, e, pend, b, i);
    FreeListsWrite(m, u, e, bs, lists, pend, i, m.rows[b]);
    forall s
      ensures WordOk(u.rows, bs, e, 0, s) && NoFreePair(bs, 0, s)
    {
      assert WordOk(m.rows, bs, e, b, s) && Apart(bs, s, b) && Apart(bs, b, s) && Tile(bs, e, s) && NoFreePair(bs, b, s);
      assert s in bs && s != e ==> Tile(bs, e, s + bs[s].n) && Apart(bs, b, s + bs[s].n) && Apart(bs, s + bs[s].n, b);
    }
    forall s, r | Payload(bs, s, r) && 0 <= r < |m.rows|
      ensures u.rows[r] == m.rows[r]
    {
      assert Apart(bs, s, b) && Apart(bs, b, s);
    }
  }

  // The block goes to the front of its list.
  lemma ListBlock(m: Mem, e: int, bs: Blocks, lists: seq<seq<int>>, pend: set<int>, b: int)
    requires HeapOk(m, e, bs, lists, pend, 0) && b in pend && b in bs && !bs[b].alloc && b != 1 && b != e
    ensures var c := ListOf(bs, e, b);
            && |lists| == LISTS && b >= 0 && IsPtr(m, b) && IsPtr(m, Head(c)) && IsPtr(m, NextLink(m, Head(c)))
            && HeapOk(Pushed(m, c, b), e, bs, lists[c := [b] + lists[c]], pend - {b}, 0)
            && Keeps(bs, m.rows, bs, Pushed(m, c, b).rows, 0)
            && forall t {:trigger Pushed(m, c, b).rows[t]} | t in bs && 0 <= t < |m.rows| :: Pushed(m, c, b).rows[t] == m.rows[t]
  {
    var c := ListOf(bs, e, b);
    PushBlock(m, e, bs, lists, pend, b, c);
    WordsUnderLinks(m, Pushed(m, c, b), e, bs, pend - {b}, 0);
  }
}
