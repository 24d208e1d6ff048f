/** One lemma for each step of the allocator: what it keeps of the heap invariant. */
module HeapSteps {
  import opened HeapTiles
  import opened HeapLists
  import opened HeapInv

  function WriteRow(m: Mem, i: int, v: int): Mem
    requires 0 <= i < |m.rows|
  {
    m.(rows := m.rows[i := v])
  }

  // Only links of listed blocks and of list heads differ.
  ghost predicate OnlyLinks(m: Mem, u: Mem, bs: Blocks, pend: set<int>)
  {
    |u.rows| == |m.rows| && forall i {:trigger u.rows[i]} | 0 <= i < |m.rows| && NoLink(bs, pend, i) :: u.rows[i] == m.rows[i]
  }

  lemma WordsUnderLinks(m: Mem, u: Mem, e: int, bs: Blocks, pend: set<int>, open: int)
    requires Tiling(bs, e) && Words(m.rows, bs, e, open) && OnlyLinks(m, u, bs, pend)
    ensures Words(u.rows, bs, e, open)
    ensures Keeps(bs, m.rows, bs, u.rows, 0)
    ensures forall t {:trigger u.rows[t]} | t in bs :: u.rows[t] == m.rows[t]
  {
    forall t | t in bs
      ensures u.rows[t] == m.rows[t]
    {
      NoLinkAt(bs, e, pend, t, t);
    }
    forall s
      ensures WordOk(u.rows, bs, e, open, s)
    {
      assert WordOk(m.rows, bs, e, open, s);
      if s in bs && s != open {
        assert Tile(bs, e, s);
        if !bs[s].alloc && bs[s].n > 0 { NoLinkAt(bs, e, pend, s, s + bs[s].n - 1); }
      }
    }
    forall s, r | Payload(bs, s, r) && s != 0 && 0 <= r < |m.rows|
      ensures u.rows[r] == m.rows[r]
    {
      NoLinkAt(bs, e, pend, s, r);
    }
  }

  lemma BlocksFar(bs: Blocks, e: int, a: int, b: int)
    requires Tiling(bs, e) && a in bs && b in bs && a != e && b != e && a != b
    ensures Far(a, b)
  {
    assert Apart(bs, a, b) && Apart(bs, b, a) && Tile(bs, e, a) && Tile(bs, e, b);
  }

  // Members of two lists are blocks of their own.
  lemma ListsFar(m: Mem, e: int, bs: Blocks, lists: seq<seq<int>>, pend: set<int>, c: int, a: int, d: int, b: int)
    requires Tiling(bs, e) && FreeLists(m, e, bs, lists, pend) && c != d
    requires InList(lists, c, a) && InList(lists, d, b)
    ensures a >= 0 && Far(a, b)
  {
    assert Listable(bs, pend, a) && Listable(bs, pend, b);
    assert Tile(bs, e, a);
    BlocksFar(bs, e, a, b);
  }

  // Writing the links of members of list c leaves the other lists alone.
  lemma OtherList(m: Mem, u: Mem, e: int, bs: Blocks, lists: seq<seq<int>>, pend: set<int>, c: int, d: int)
    requires Tiling(bs, e) && FreeLists(m, e, bs, lists, pend) && 0 <= c < LISTS && 0 <= d < LISTS && c != d
    requires |u.rows| == |m.rows| && |u.next| == |u.prev| == |m.next| == |m.prev| == LISTS
    requires u.next[d] == m.next[d] && u.prev[d] == m.prev[d]
    requires forall i {:trigger u.rows[i]} | 0 <= i < |m.rows| && u.rows[i] != m.rows[i] :: LinkRow(lists[c], i)
    ensures ListOk(u, lists, d)
  {
    assert ListOk(m, lists, d);
    MembersInMemory(m, d, lists[d]);
    forall k | 0 <= k < |lists[d]|
      ensures u.rows[lists[d][k] + 1] == m.rows[lists[d][k] + 1] && u.rows[lists[d][k] + 2] == m.rows[lists[d][k] + 2]
    {
      var b := lists[d][k];
      assert InList(lists, d, b);
      forall a | a in lists[c]
        ensures Far(a, b)
      {
        assert InList(lists, c, a);
        ListsFar(m, e, bs, lists, pend, c, a, d, b);
      }
    }
    LinkedFrame(m, u, d, lists[d]);
  }

  ghost predicate LinkRow(l: seq<int>, i: int) {
    i - 1 in l || i - 2 in l
  }

  lemma UnlinkBlock(m: Mem, e: int, bs: Blocks, lists: seq<seq<int>>, pend: set<int>, x: int, c: nat, j: nat)
    requires Tiling(bs, e) && FreeLists(m, e, bs, lists, pend) && c < LISTS && j < |lists[c]| && lists[c][j] == x
    ensures IsPtr(m, x) && IsPtr(m, PrevLink(m, x)) && IsPtr(m, NextLink(m, x)) && x >= 0
    ensures FreeLists(Unlinked(m, x), e, bs, lists[c := Removed(lists[c], j)], pend + {x})
    ensures OnlyLinks(m, Unlinked(m, x), bs, pend)
  {
    assert ListOk(m, lists, c) && InList(lists, c, x);
    UnlinkedList(m, c, lists[c], j);
    LinkedNode(m, c, lists[c], j);
    var u, l, ls := Unlinked(m, x), Removed(lists[c], j), lists[c := Removed(lists[c], j)];
    var a, b := PrevLink(m, x), NextLink(m, x);
    assert (a >= 0 ==> a in lists[c]) && (b >= 0 ==> b in lists[c]) && (a < 0 ==> a == Head(c)) && (b < 0 ==> b == Head(c));
    forall d | 0 <= d < LISTS
      ensures ListOk(u, ls, d)
    {
      if d != c { OtherList(m, u, e, bs, lists, pend, c, d); }
    }
    forall y
      ensures y in l <==> y in lists[c] && y != x
    {
      RemovedMember(lists[c], j, y);
    }
    forall d, s | InList(ls, d, s)
      ensures Listable(bs, pend + {x}, s) && ListOf(bs, e, s) == d
    {
      assert InList(lists, d, s);
    }
    forall s | Listable(bs, pend + {x}, s)
      ensures InList(ls, ListOf(bs, e, s), s)
    {
      assert Listable(bs, pend, s);
    }
    forall i | 0 <= i < |m.rows| && NoLink(bs, pend, i)
      ensures u.rows[i] == m.rows[i]
    {
      assert a >= 0 ==> InList(lists, c, a);
      assert b >= 0 ==> InList(lists, c, b);
    }
  }

  lemma RemovedMember(l: seq<int>, j: nat, y: int)
    requires Members(l) && j < |l|
    ensures y in Removed(l, j) <==> y in l && y != l[j]
  {
    var r := Removed(l, j);
    if y in l && y != l[j] {
      var k :| 0 <= k < |l| && l[k] == y;
      assert r[if k < j then k else k - 1] == y;
    }
    if y in r {
      var k :| 0 <= k < |r| && r[k] == y;
      assert l[if k < j then k else k + 1] == y;
    }
  }

  lemma PushBlock(m: Mem, e: int, bs: Blocks, lists: seq<seq<int>>, pend: set<int>, x: int, c: nat)
    requires Tiling(bs, e) && e < |m.rows| && FreeLists(m, e, bs, lists, pend) && x in pend && x in bs && !bs[x].alloc && x != 1 && x != e
    requires c == ListOf(bs, e, x)
    ensures x >= 0 && IsPtr(m, x) && IsPtr(m, Head(c)) && IsPtr(m, NextLink(m, Head(c)))
    ensures FreeLists(Pushed(m, c, x), e, bs, lists[c := [x] + lists[c]], pend - {x})
    ensures OnlyLinks(m, Pushed(m, c, x), bs, pend - {x})
  {
    assert ListOk(m, lists, c) && Tile(bs, e, x) && Tile(bs, e, x + bs[x].n);
    LinkedHead(m, c, lists[c]);
    forall k | 0 <= k < |lists[c]|
      ensures Far(x, lists[c][k])
    {
      assert InList(lists, c, lists[c][k]) && Listable(bs, pend, lists[c][k]);
      BlocksFar(bs, e, x, lists[c][k]);
    }
    PushedList(m, c, lists[c], x);
    var u, ls := Pushed(m, c, x), lists[c := [x] + lists[c]];
    var h := NextLink(m, Head(c));
    assert h >= 0 ==> h in lists[c] && InList(lists, c, h);
    forall d | 0 <= d < LISTS
      ensures ListOk(u, ls, d)
    {
      if d != c { PushOtherList(m, u, e, bs, lists, pend, x, c, d); }
    }
    forall d, s | InList(ls, d, s)
      ensures Listable(bs, pend - {x}, s) && ListOf(bs, e, s) == d
    {
      assert (d == c && s == x) || InList(lists, d, s);
    }
    forall s | Listable(bs, pend - {x}, s)
      ensures InList(ls, ListOf(bs, e, s), s)
    {
      if s != x { assert Listable(bs, pend, s); }
    }
    assert Listable(bs, pend - {x}, x);
    assert h >= 0 ==> Listable(bs, pend - {x}, h);
  }

  lemma PushOtherList(m: Mem, u: Mem, e: int, bs: Blocks, lists: seq<seq<int>>, pend: set<int>, x: int, c: nat, d: nat)
    requires Tiling(bs, e) && FreeLists(m, e, bs, lists, pend) && x in pend && x in bs && x != e && c < LISTS && d < LISTS && c != d
    requires |u.rows| == |m.rows| && |u.next| == |u.prev| == |m.next| == |m.prev| == LISTS
    requires u.next[d] == m.next[d] && u.prev[d] == m.prev[d]
    requires forall i {:trigger u.rows[i]} | 0 <= i < |m.rows| && u.rows[i] != m.rows[i] :: i == x + 1 || i == x + 2 || LinkRow(lists[c], i)
    ensures ListOk(u, lists, d)
  {
    assert ListOk(m, lists, d);
    MembersInMemory(m, d, lists[d]);
    forall k | 0 <= k < |lists[d]|
      ensures u.rows[lists[d][k] + 1] == m.rows[lists[d][k] + 1] && u.rows[lists[d][k] + 2] == m.rows[lists[d][k] + 2]
    {
      var b := lists[d][k];
      assert InList(lists, d, b) && Listable(bs, pend, b);
      BlocksFar(bs, e, x, b);
      forall a | a in lists[c]
        ensures Far(a, b)
      {
        assert InList(lists, c, a);
        ListsFar(m, e, bs, lists, pend, c, a, d, b);
      }
    }
    LinkedFrame(m, u, d, lists[d]);
  }

  // The lists only see which blocks are free, and their sizes.
  lemma FreeListsBlocks(m: Mem, e: int, bs: Blocks, cs: Blocks, lists: seq<seq<int>>, pend: set<int>, pend': set<int>)
    requires FreeLists(m, e, bs, lists, pend)
    requires forall s :: Listable(bs, pend, s) <==> Listable(cs, pend', s)
    requires forall s | Listable(bs, pend, s) :: s in cs && cs[s] == bs[s]
    ensures FreeLists(m, e, cs, lists, pend')
  {
    forall c, s | InList(lists, c, s)
      ensures Listable(cs, pend', s) && ListOf(cs, e, s) == c
    {
      assert Listable(bs, pend, s);
    }
  }
}
