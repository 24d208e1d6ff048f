/**
 Where an allocation goes, as a function of the heap before it: the first free block with room
 in the order of the lists, and otherwise the block at the end once it has grown enough.
 */
module HeapFit {
  import opened Common
  import opened HeapTiles
  import opened HeapInv
  import opened HeapAlloc

  // ----- first fit -----

  // The first member of a list that has room.
  ghost function FirstIn(base: int, bs: Blocks, l: seq<int>, size: int, align: int): (x: Option<int>)
    requires align > 0
    ensures x.Some? ==> x.value in l && x.value in bs && HasRoom(base, bs, x.value, size, align)
    ensures x.None? ==> forall s | s in l && s in bs :: !HasRoom(base, bs, s, size, align)
  {
    if l == [] then None
    else if l[0] in bs && HasRoom(base, bs, l[0], size, align) then Some(l[0])
    else FirstIn(base, bs, l[1..], size, align)
  }

  lemma {:induction false} FirstInAt(base: int, bs: Blocks, l: seq<int>, size: int, align: int, k: nat)
    requires align > 0 && k < |l| && l[k] in bs && HasRoom(base, bs, l[k], size, align)
    requires forall j | 0 <= j < k :: l[j] in bs && !HasRoom(base, bs, l[j], size, align)
    ensures FirstIn(base, bs, l, size, align) == Some(l[k])
  {
    if k > 0 { FirstInAt(base, bs, l[1..], size, align, k - 1); }
  }

  // The first one in the lists from place on.
  ghost function FirstFit(base: int, bs: Blocks, lists: seq<seq<int>>, place: nat, size: int, align: int): (x: Option<int>)
    requires align > 0
    ensures x.Some? ==> x.value in bs && HasRoom(base, bs, x.value, size, align) && exists c :: InList(lists, c, x.value)
    decreases |lists| - place
  {
    if place >= |lists| then None
    else
      var x := FirstIn(base, bs, lists[place], size, align);
      if x.Some? then (assert InList(lists, place, x.value); x) else FirstFit(base, bs, lists, place + 1, size, align)
  }

  // Over all the lists in order, the first member with room is number k of list c.
  ghost predicate FirstWithRoom(base: int, bs: Blocks, lists: seq<seq<int>>, c: nat, k: nat, size: int, align: int)
    requires align > 0
  {
    && c < |lists| && k < |lists[c]| && lists[c][k] in bs && HasRoom(base, bs, lists[c][k], size, align)
    && forall i, j {:trigger lists[i][j]} | 0 <= i < |lists| && 0 <= j < |lists[i]| && (i < c || (i == c && j < k)) ::
         lists[i][j] in bs && !HasRoom(base, bs, lists[i][j], size, align)
  }

  lemma {:induction false} FirstFitAt(base: int, bs: Blocks, lists: seq<seq<int>>, place: nat, c: nat, k: nat, size: int, align: int)
    requires align > 0 && FirstWithRoom(base, bs, lists, c, k, size, align) && place <= c
    ensures FirstFit(base, bs, lists, place, size, align) == Some(lists[c][k])
    decreases c - place
  {
    if place == c {
      FirstInAt(base, bs, lists[c], size, align, k);
    } else {
      FirstFitAt(base, bs, lists, place + 1, c, k, size, align);
    }
  }

  // Of n rows exactly the size is kept, or all if the rest would not make a block.
  predicate CutTo(n: int, size: int, kept: int) {
    if ROW * n < size + 32 then kept == n else ROW * kept == size
  }

  // The block of n rows at c is cut from the free block x, behind the pad.
  ghost predicate CutFrom(base: int, bs: Blocks, x: int, size: int, align: int, c: int, n: int)
    requires align > 0
  {
    && x in bs && ROW * (c - x) == Padding(Address(base, x + 1), align)
    && CutTo(x + bs[x].n - c, size, n)
  }

  // ----- the block at the end -----

  ghost predicate EndsAt(bs: Blocks, e: int, s: int)
  {
    s in bs && !bs[s].alloc && s + bs[s].n == e
  }

  // The start of the free block that touches the epilogue, or of the epilogue: what a new page
  // makes longer.
  ghost function LastStart(bs: Blocks, e: int): (w: int)
    ensures EndsAt(bs, e, w) || (w == e && forall s :: !EndsAt(bs, e, s))
  {
    if s :| EndsAt(bs, e, s) then s else e
  }

  lemma LastStartIs(bs: Blocks, e: int, w: int)
    requires Tiling(bs, e) && EndsAt(bs, e, w)
    ensures LastStart(bs, e) == w
  {
    var s := LastStart(bs, e);
    assert Apart(bs, s, w) && Apart(bs, w, s) && Tile(bs, e, s) && Tile(bs, e, w);
  }

  // A page more, joined to a free block before it.
  ghost function Grown(bs: Blocks, e: int): Blocks {
    var w := LastStart(bs, e);
    if EndsAt(bs, e, w) then Merged(Paged(bs, e), w, false) else Paged(bs, e)
  }

  lemma GrownEnd(bs: Blocks, e: int)
    requires Tiling(bs, e) && Tiling(Grown(bs, e), e + PAGE_ROWS)
    ensures var w, cs := LastStart(bs, e), Grown(bs, e);
            && EndsAt(cs, e + PAGE_ROWS, w) && LastStart(cs, e + PAGE_ROWS) == w
            && forall s | s in cs && !cs[s].alloc && s != w :: s in bs && bs[s] == cs[s]
  {
    var w, cs := LastStart(bs, e), Grown(bs, e);
    assert Tile(bs, e, w) && Tile(bs, e, e + PAGE_ROWS);
    LastStartIs(cs, e + PAGE_ROWS, w);
  }

  // With so many pages more, the block at the end has room.
  ghost predicate FitsWith(base: int, bs: Blocks, e: int, pages: int, size: int, align: int)
    requires align > 0
  {
    var w := LastStart(bs, e);
    size + Padding(Address(base, w + 1), align) <= ROW * (e - w + PAGE_ROWS * pages)
  }

  // Pages that can still be added to a heap that ends at e, in a memory of so many rows.
  function PagesLeft(e: int, rows: int): int { (rows - (e + 1)) / PAGE_ROWS }

  // There is no room, and there would not be with every page that is left.
  ghost predicate Fails(base: int, bs: Blocks, e: int, rows: int, size: int, align: int)
    requires align > 0
  {
    NoRoom(base, bs, size, align) && !FitsWith(base, bs, e, PagesLeft(e, rows), size, align)
  }

  // ----- where the block goes -----

  function Behind(base: int, x: int, align: int): int
    requires align > 0
  {
    x + Padding(Address(base, x + 1), align) / ROW
  }

  // The block at the end has grown by no more pages than it takes, and is handed out.
  ghost predicate GrownTo(base: int, bs: Blocks, e: int, size: int, align: int, c: int, n: int, f: int)
    requires align > 0
  {
    var pages := (f - e) / PAGE_ROWS;
    && f == e + PAGE_ROWS * pages && pages > 0
    && FitsWith(base, bs, e, pages, size, align) && !FitsWith(base, bs, e, pages - 1, size, align)
    && c == Behind(base, LastStart(bs, e), align) && n == RowsTaken(f - c, size)
  }

  /**
   The allocation puts a block of n rows at c, in a heap that then ends at f: in the first block
   with room, or if there is none in the block at the end after as many pages as it takes and no
   more.
   */
  ghost predicate Placed(base: int, bs: Blocks, lists: seq<seq<int>>, e: int, size: int, align: int, c: int, n: int, f: int)
    requires align > 0
  {
    match FirstFit(base, bs, lists, SizeClass(size, 0), size, align)
    case Some(x) => f == e && c == Behind(base, x, align) && n == RowsTaken(x + bs[x].n - c, size)
    case None => GrownTo(base, bs, e, size, align, c, n, f)
  }
}
