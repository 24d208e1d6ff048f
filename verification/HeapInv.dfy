/**
 The heap invariant: memory holds exactly the headers, flag bits and footers of the blocks, and
 the eight lists hold exactly the free blocks.  While an operation is under way one block may
 be open, its header and its successor's flag not yet right, and some free blocks may be
 pending, not in any list.  Block 0 stands for no open block.
 */
module HeapInv {
  import opened Powers
  import opened HeapTiles
  import opened HeapLists

  // ----- list classes -----

  const LAST: nat := LISTS - 1

  // The first list from c on whose bound, 32 bytes doubled per list, holds the size.
  function SizeClass(size: int, c: nat): (k: nat)
    requires c <= LAST
    ensures c <= k <= LAST
    decreases LAST - c
  {
    if c == LAST || size <= 32 * Pow2(c) then c else SizeClass(size, c + 1)
  }

  // The block at the end of the heap is in the last list whatever its size.
  ghost function ListOf(bs: Blocks, e: int, s: int): nat
    requires s in bs
  {
    if s + bs[s].n == e then LAST else SizeClass(ROW * bs[s].n, 0)
  }

  lemma {:induction false} SizeClassBound(size: int, c: nat, k: nat)
    requires c <= LAST && k < LAST && SizeClass(size, c) <= k
    ensures size <= 32 * Pow2(k)
    decreases LAST - c
  {
    if size <= 32 * Pow2(c) { Pow2Monotone(c, k); } else { SizeClassBound(size, c + 1, k); }
  }

  // ----- words -----

  ghost predicate Fits(rows: seq<int>, bs: Blocks)
  {
    forall x | x in bs :: 0 <= x < |rows| && x + bs[x].n < |rows|
  }

  ghost predicate WordOk(rows: seq<int>, bs: Blocks, e: int, open: int, s: int)
    requires Fits(rows, bs)
  {
    s in bs && s != open ==>
      && rows[s] == Header(bs[s].n, PrevOf(rows[s]), bs[s].alloc)
      && (s != e ==> PrevOf(rows[s + bs[s].n]) == bs[s].alloc)
      && (!bs[s].alloc && bs[s].n > 0 ==> rows[s + bs[s].n - 1] == rows[s])
  }

  ghost predicate NoFreePair(bs: Blocks, open: int, s: int)
  {
    s in bs && !bs[s].alloc && s != open && s + bs[s].n != open && s + bs[s].n in bs ==> bs[s + bs[s].n].alloc
  }

  ghost predicate Words(rows: seq<int>, bs: Blocks, e: int, open: int)
  {
    && Fits(rows, bs)
    && (forall s {:trigger WordOk(rows, bs, e, open, s)} :: WordOk(rows, bs, e, open, s))
    && (forall s {:trigger NoFreePair(bs, open, s)} :: NoFreePair(bs, open, s))
  }

  // ----- lists -----

  ghost predicate Listable(bs: Blocks, pend: set<int>, s: int)
  {
    s in bs && !bs[s].alloc && s !in pend
  }

  ghost predicate InList(lists: seq<seq<int>>, c: int, s: int)
  {
    0 <= c < |lists| && s in lists[c]
  }

  ghost predicate ListOk(m: Mem, lists: seq<seq<int>>, c: int)
    requires 0 <= c < |lists|
  {
    Linked(m, c, lists[c]) && Members(lists[c])
  }

  ghost predicate FreeLists(m: Mem, e: int, bs: Blocks, lists: seq<seq<int>>, pend: set<int>)
  {
    && |lists| == LISTS
    && (forall c {:trigger ListOk(m, lists, c)} | 0 <= c < LISTS :: ListOk(m, lists, c))
    && (forall c, s {:trigger InList(lists, c, s)} | InList(lists, c, s) :: Listable(bs, pend, s) && ListOf(bs, e, s) == c)
    && (forall s {:trigger Listable(bs, pend, s)} | Listable(bs, pend, s) :: InList(lists, ListOf(bs, e, s), s))
  }

  ghost predicate HeapOk(m: Mem, e: int, bs: Blocks, lists: seq<seq<int>>, pend: set<int>, open: int)
  {
    Tiling(bs, e) && Words(m.rows, bs, e, open) && FreeLists(m, e, bs, lists, pend)
  }

  // ----- live payloads -----

  // Row r is payload of an allocated block.
  ghost predicate Payload(bs: Blocks, s: int, r: int)
  {
    s in bs && bs[s].alloc && s < r < s + bs[s].n
  }

  // Every allocated block of bs but one is an allocated block of cs, with the same payload.
  ghost predicate Keeps(bs: Blocks, rows: seq<int>, cs: Blocks, rows': seq<int>, except: int)
  {
    && |rows| == |rows'|
    && (forall s {:trigger s in bs} | s in bs && bs[s].alloc && s != except :: s in cs && cs[s] == bs[s])
    && (forall s, r {:trigger Payload(bs, s, r)} | Payload(bs, s, r) && s != except && 0 <= r < |rows| :: rows'[r] == rows[r])
  }

  // Every allocated block of cs but one is an allocated block of bs: nothing else was taken.
  ghost predicate NoneNew(bs: Blocks, cs: Blocks, except: int)
  {
    forall s {:trigger s in cs} | s in cs && cs[s].alloc && s != except :: s in bs && bs[s].alloc
  }

  lemma NoneNewTwice(bs: Blocks, cs: Blocks, ds: Blocks, x: int, y: int, z: int)
    requires NoneNew(bs, cs, x) && NoneNew(cs, ds, y) && (x == z || x !in cs) && (y == z || y !in ds)
    ensures NoneNew(bs, ds, z)
  {}

  // The same between heaps that end at e and at e', the epilogues apart.
  ghost predicate OnlyNew(bs: Blocks, e: int, cs: Blocks, e': int, except: int)
  {
    forall s {:trigger s in cs} | s in cs && cs[s].alloc && s != e' && s != except :: s in bs && bs[s].alloc && s != e
  }

  lemma OnlyNewTwice(bs: Blocks, e: int, cs: Blocks, e': int, ds: Blocks, e'': int, y: int)
    requires OnlyNew(bs, e, cs, e', 0) && OnlyNew(cs, e', ds, e'', y) && 0 !in cs
    ensures OnlyNew(bs, e, ds, e'', y)
  {}

  lemma KeepsTransitive(bs: Blocks, a: seq<int>, cs: Blocks, b: seq<int>, ds: Blocks, c: seq<int>, except: int)
    requires Keeps(bs, a, cs, b, except) && Keeps(cs, b, ds, c, except)
    ensures Keeps(bs, a, ds, c, except)
  {
    forall s, r | Payload(bs, s, r) && s != except && 0 <= r < |a|
      ensures c[r] == a[r]
    {
      assert Payload(cs, s, r);
    }
  }

  // ----- writes that the lists do not see -----

  // Rows at which a word may change without touching a link of a listed block: headers, and
  // rows three or more into a block, and rows of blocks that are not listed.
  ghost predicate NoLink(bs: Blocks, pend: set<int>, i: int)
  {
    forall s | Listable(bs, pend, s) :: i != s + 1 && i != s + 2
  }

  lemma NoLinkAt(bs: Blocks, e: int, pend: set<int>, t: int, i: int)
    requires Tiling(bs, e) && t in bs && (i == t || (t + 3 <= i < t + bs[t].n) || (t < i < t + bs[t].n && !Listable(bs, pend, t)))
    ensures NoLink(bs, pend, i)
  {
    forall s | Listable(bs, pend, s)
      ensures i != s + 1 && i != s + 2
    {
      assert Apart(bs, s, t) && Apart(bs, t, s) && Tile(bs, e, s) && Tile(bs, e, t);
    }
  }

  lemma FreeListsWrite(m: Mem, u: Mem, e: int, bs: Blocks, lists: seq<seq<int>>, pend: set<int>, i: int, v: int)
    requires FreeLists(m, e, bs, lists, pend) && NoLink(bs, pend, i) && 0 <= i < |m.rows| && u == m.(rows := m.rows[i := v])
    ensures FreeLists(u, e, bs, lists, pend)
  {
    forall c | 0 <= c < LISTS
      ensures ListOk(u, lists, c)
    {
      assert ListOk(m, lists, c);
      forall k | 0 <= k < |lists[c]|
        ensures i != lists[c][k] + 1 && i != lists[c][k] + 2
      {
        assert InList(lists, c, lists[c][k]);
      }
      MembersInMemory(m, c, lists[c]);
      LinkedFrame(m, u, c, lists[c]);
    }
  }

  lemma MembersInMemory(m: Mem, c: int, l: seq<int>)
    requires Linked(m, c, l) && Members(l)
    ensures |m.next| == |m.prev| == LISTS && forall k | 0 <= k < |l| :: 0 <= l[k] && l[k] + 2 < |m.rows|
  {
    LinkedHead(m, c, l);
    forall k | 0 <= k < |l|
      ensures 0 <= l[k] && l[k] + 2 < |m.rows|
    {
      LinkedNode(m, c, l, k);
    }
  }
}
