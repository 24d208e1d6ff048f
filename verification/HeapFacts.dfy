/** What the heap invariant means for the blocks and lists of any heap the operations reach. */
module HeapFacts {
  import opened Powers
  import opened HeapTiles
  import opened HeapLists
  import opened HeapInv

  // A sound heap between operations.
  ghost predicate Quiet(m: Mem, e: int, bs: Blocks, lists: seq<seq<int>>)
  {
    HeapOk(m, e, bs, lists, {}, 0)
  }

  /**
   A row is in some list if and only if a free block starts there, and then in the one list its
   size and place give, once.
   */
  lemma ListedOnce(m: Mem, e: int, bs: Blocks, lists: seq<seq<int>>, s: int)
    requires Quiet(m, e, bs, lists)
    ensures (s in bs && !bs[s].alloc) <==> exists c :: InList(lists, c, s)
    ensures forall c :: InList(lists, c, s) ==> s in bs && c == ListOf(bs, e, s)
    ensures forall c, j, k | 0 <= c < LISTS && 0 <= j < |lists[c]| && 0 <= k < |lists[c]| && lists[c][j] == s == lists[c][k] :: j == k
  {
    if s in bs && !bs[s].alloc {
      assert Listable(bs, {}, s);
      assert InList(lists, ListOf(bs, e, s), s);
    }
    if c :| InList(lists, c, s) { assert Listable(bs, {}, s); }
    forall c, j, k | 0 <= c < LISTS && 0 <= j < |lists[c]| && 0 <= k < |lists[c]| && lists[c][j] == s == lists[c][k]
      ensures j == k
    {
      assert ListOk(m, lists, c);
      assert j == k || Far(lists[c][j], lists[c][k]);
    }
  }

  // The links of a free block are inverse to each other, and lead around its list.
  lemma LinksAreInverse(m: Mem, e: int, bs: Blocks, lists: seq<seq<int>>, c: int, k: int)
    requires Quiet(m, e, bs, lists) && 0 <= c < LISTS && 0 <= k < |lists[c]|
    ensures var s := lists[c][k];
            && IsPtr(m, s) && IsPtr(m, NextLink(m, s)) && IsPtr(m, PrevLink(m, s))
            && PrevLink(m, NextLink(m, s)) == s && NextLink(m, PrevLink(m, s)) == s
            && NextLink(m, s) == (if k + 1 < |lists[c]| then lists[c][k + 1] else Head(c))
            && PrevLink(m, s) == (if k > 0 then lists[c][k - 1] else Head(c))
  {
    assert ListOk(m, lists, c);
    assert LinkedAt(m, c, lists[c], k) && LinkedAt(m, c, lists[c], k + 1);
  }

  // List i below the last holds sizes above 32 * 2^(i-1), the first one excepted, up to 32 * 2^i.
  lemma {:induction false} ClassIsExact(size: int, c: nat)
    requires c <= LAST
    ensures var k := SizeClass(size, c);
            && (k < LAST ==> size <= 32 * Pow2(k))
            && (k > c ==> size > 32 * Pow2(k - 1))
    decreases LAST - c
  {
    if c < LAST && size > 32 * Pow2(c) { ClassIsExact(size, c + 1); }
  }

  /**
   The last list holds the block that touches the epilogue and every block of more than 2048
   bytes: it is not reserved for the wilderness.
   */
  lemma LastList(m: Mem, e: int, bs: Blocks, lists: seq<seq<int>>, s: int)
    requires Quiet(m, e, bs, lists) && s in bs && !bs[s].alloc
    ensures InList(lists, LAST, s) <==> s + bs[s].n == e || ROW * bs[s].n > 2048
  {
    ListedOnce(m, e, bs, lists, s);
    ClassIsExact(ROW * bs[s].n, 0);
    var k := SizeClass(ROW * bs[s].n, 0);
    assert Pow2(6) == 64;
    if k < LAST { Pow2Monotone(k, 6); }
  }

  /**
   Between operations: sizes are multiples of 16 and at least 32, blocks follow each other
   without gap, each flag bit tells whether the block before is allocated, a free block's last
   row repeats its header, and no two free blocks are neighbours.
   */
  lemma BlocksAreSound(m: Mem, e: int, bs: Blocks, lists: seq<seq<int>>, s: int)
    requires Quiet(m, e, bs, lists) && s in bs && s != e
    ensures ROW * bs[s].n >= 32 && (ROW * bs[s].n) % 16 == 0 && s + bs[s].n in bs
    ensures 0 <= s && s + bs[s].n < |m.rows|
    ensures SizeOf(m.rows[s]) == ROW * bs[s].n && AllocOf(m.rows[s]) == bs[s].alloc
    ensures PrevOf(m.rows[s + bs[s].n]) == bs[s].alloc
    ensures !bs[s].alloc ==> m.rows[s + bs[s].n - 1] == m.rows[s] && bs[s + bs[s].n].alloc
  {
    assert Tile(bs, e, s) && WordOk(m.rows, bs, e, 0, s) && NoFreePair(bs, 0, s);
    assert Tile(bs, e, 0) && Tile(bs, e, s + bs[s].n);
  }

  // The payload rows of two allocated blocks have no row in common.
  lemma PayloadsDisjoint(m: Mem, e: int, bs: Blocks, lists: seq<seq<int>>, s: int, t: int, row: int)
    requires Quiet(m, e, bs, lists) && Payload(bs, s, row) && Payload(bs, t, row)
    ensures s == t
  {
    assert Apart(bs, s, t) && Apart(bs, t, s);
  }
}
