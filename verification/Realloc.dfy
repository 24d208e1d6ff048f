/** sf_realloc: in place when the block is big enough, and otherwise a move. */
module Realloc {
  import opened HeapTiles
  import opened HeapLists
  import opened HeapInv
  import opened HeapSteps
  import opened HeapSplit
  import opened Heap
  import opened HeapAlloc
  import opened HeapFit
  import opened HeapGrow
  import opened Malloc

  lemma PayloadWrite(m: Mem, e: int, bs: Blocks, lists: seq<seq<int>>, d: int, i: int, v: int)
    requires HeapOk(m, e, bs, lists, {}, 0) && d in bs && bs[d].alloc && d < i < d + bs[d].n
    ensures 0 <= i < |m.rows| && HeapOk(WriteRow(m, i, v), e, bs, lists, {}, 0)
    ensures Keeps(bs, m.rows, bs, WriteRow(m, i, v).rows, d)
  {
    assert Tile(bs, e, d);
    NoLinkAt(bs, e, {}, d, i);
    FreeListsWrite(m, WriteRow(m, i, v), e, bs, lists, {}, i, v);
    var after := m.rows[i := v];
    forall s
      ensures WordOk(after, bs, e, 0, s)
    {
      assert WordOk(m.rows, bs, e, 0, s) && Tile(bs, e, s) && Apart(bs, s, d) && Apart(bs, d, s);
      assert s in bs && s != e ==> Tile(bs, e, s + bs[s].n) && Apart(bs, s + bs[s].n, d) && Apart(bs, d, s + bs[s].n);
    }
    forall s, r | Payload(bs, s, r) && s != d && 0 <= r < |m.rows|
      ensures after[r] == m.rows[r]
    {
      assert Apart(bs, s, d) && Apart(bs, d, s);
    }
  }

  // Row i of payload c in a is row i of payload d in b.
  ghost predicate CopiedRow(a: seq<int>, c: int, b: seq<int>, d: int, i: int)
  {
    0 <= c + i < |a| && 0 <= d + i < |b| && b[d + i] == a[c + i]
  }

  // memcpy of the payload of c, n - 1 rows, into the larger block d.
  method CopyPayload(h: Memory, c: int, d: int, n: int)
    requires Valid(h) && Live(h, c) && Live(h, d) && c != d && n == h.bs[c].n < h.bs[d].n
    modifies h.mem
    ensures Valid(h) && Keeps(h.bs, old(h.mem[..]), h.bs, h.mem[..], d)
    ensures forall i | 0 < i < n :: CopiedRow(old(h.mem[..]), c, h.mem[..], d, i)
    ensures h.mem[..][c] == old(h.mem[..])[c]
  {
    LiveWords(h, c);
    LiveWords(h, d);
    ghost var rows := h.mem[..];
    assert Apart(h.bs, c, d) && Apart(h.bs, d, c);
    var i := 1;
    while i < n
      invariant 1 <= i <= n && Valid(h) && Keeps(h.bs, rows, h.bs, h.mem[..], d)
      invariant forall j | 0 < j < i :: CopiedRow(rows, c, h.mem[..], d, j)
      invariant h.mem[..][c] == rows[c]
    {
      assert Payload(h.bs, c, c + i);
      ghost var before := h.mem[..];
      PayloadWrite(h.Snap(), h.Epilogue(), h.bs, h.lists, d, d + i, h.mem[c + i]);
      h.Put(d + i, h.mem[c + i]);
      KeepsTwice(h.bs, rows, before, h.mem[..], d);
      forall j | 0 < j < i + 1
        ensures CopiedRow(rows, c, h.mem[..], d, j)
      {
        if j < i { assert CopiedRow(rows, c, before, d, j); }
      }
      i := i + 1;
    }
  }

  lemma KeepsTwice(bs: Blocks, a: seq<int>, b: seq<int>, c: seq<int>, x: int)
    requires Keeps(bs, a, bs, b, x) && Keeps(bs, b, bs, c, x)
    ensures Keeps(bs, a, bs, c, x)
  {
    forall s, r | Payload(bs, s, r) && s != x && 0 <= r < |a|
      ensures c[r] == a[r]
    {
      assert b[r] == a[r];
    }
  }

  // The request fits in the block: it is cut down in place.
  method ShrinkInPlace(h: Memory, c: int, actual: nat)
    requires Valid(h) && Live(h, c) && actual % 16 == 0 && 32 <= actual <= ROW * h.bs[c].n
    modifies h.mem, h.headNext, h.headPrev, h`bs, h`lists
    ensures Valid(h) && Live(h, c) && h.bs[c].n == RowsTaken(old(h.bs)[c].n, actual)
    ensures KeepsOthers(h, c) && OnlyAdds(h, c)
    ensures forall r | c < r < c + h.bs[c].n :: h.mem[..][r] == old(h.mem[..])[r]
  {
    ghost var bs, e := h.bs, h.Epilogue();
    LiveWords(h, c);
    TakeLive(h.Snap(), e, bs, h.lists, c);
    AllocateBlock(h, c, actual, {c});
    assert {c} - {c} == {};
    forall s | old(Live(h, s)) && s != c
      ensures Live(h, s)
    {
      StaysLive(bs, e, h.bs, e, s);
    }
  }

  datatype Realloced = Freed | Rejected | Shrunk | Moved | Failed | Aborted

  // The block moved: d holds the old payload, the old block is gone, the rest is as it was.
  twostate predicate MovedTo(h: Memory, c: int, p: int, d: int, rsize: nat)
    reads h, h.mem
  {
    && Granted(h, p, d, rsize, 16) && !old(Live(h, d)) && c in old(h.bs) && !Live(h, c)
    && (forall i | 0 < i < old(h.bs)[c].n :: CopiedRow(old(h.mem[..]), c, h.mem[..], d, i))
    && KeepsOthers(h, c) && OnlyAdds(h, d)
  }

  // The block was cut down in place, with its payload up to the new end.
  twostate predicate ShrunkTo(h: Memory, c: int, p: int, rsize: nat)
    reads h, h.mem
  {
    && Granted(h, p, c, rsize, 16) && KeepsOthers(h, c) && OnlyAdds(h, c)
    && c in old(h.bs) && CutTo(old(h.bs)[c].n, BlockSize(rsize), h.bs[c].n)
    && forall r | c < r < c + h.bs[c].n && 0 <= r < h.mem.Length :: h.mem[r] == old(h.mem[r])
  }

  // Every live block but c stays live with its payload.
  twostate predicate KeepsOthers(h: Memory, c: int)
    reads h, h.mem
  {
    && KeepsAllBut(old(h.bs), old(h.mem[..]), h.bs, h.mem[..], old(h.Epilogue()), c)
    && forall s | old(Live(h, s)) && s != c :: Live(h, s)
  }

  ghost predicate KeepsAllBut(bs: Blocks, rows: seq<int>, cs: Blocks, rows': seq<int>, e: int, c: int)
  {
    && |rows| == |rows'|
    && (forall s {:trigger s in bs} | s in bs && bs[s].alloc && s != e && s != c :: s in cs && cs[s] == bs[s])
    && (forall s, r {:trigger Payload(bs, s, r)} | Payload(bs, s, r) && s != e && s != c && 0 <= r < |rows| :: rows'[r] == rows[r])
  }

  // A block that is kept is not an epilogue.
  lemma StaysLive(bs: Blocks, e: int, cs: Blocks, f: int, s: int)
    requires Tiling(bs, e) && Tiling(cs, f) && s in bs && s != e && s in cs && cs[s] == bs[s]
    ensures s != f
  {
    assert Tile(bs, e, s);
  }

  // A live pointer that sf_check_pointer accepts.
  ghost predicate Accepted(h: Memory, pp: int, c: int)
    requires Valid(h)
    reads h, h.mem, h.headNext, h.headPrev
  {
    PointsTo(h, pp, c) && 0 <= c < h.mem.Length && 0 <= c + h.bs[c].n - 1 < h.mem.Length && !LooksFree(h.mem[..], c, h.bs[c].n)
  }

  // The first free block with room for a bytes lies just before c and is taken whole.
  ghost predicate FillsGap(base: int, bs: Blocks, lists: seq<seq<int>>, c: int, a: int)
  {
    match FirstFit(base, bs, lists, SizeClass(a, 0), a, 16)
    case Some(x) => x + bs[x].n == c && ROW * bs[x].n - a < ROW * MIN_ROWS
    case None => false
  }

  // An allocation of a bytes sets the flag in the header of c, and so makes it look free.
  ghost predicate Undone(h: Memory, c: int, a: int)
    reads h, h.mem
  {
    && c in h.bs && 0 <= c < h.mem.Length && 0 <= c + h.bs[c].n - 1 < h.mem.Length
    && h.mem[c + h.bs[c].n - 1] == h.mem[c] + 2 && FillsGap(h.base, h.bs, h.lists, c, a)
  }

  /**
   What sf_realloc comes to, from the heap before the call.  A move fails without room, and the
   free that ends it aborts if the flag that the new block has set in the old header makes it
   equal to the last payload row.
   */
  ghost function Outcome(h: Memory, pp: int, rsize: nat, c: int): Realloced
    requires Valid(h)
    reads h, h.mem, h.headNext, h.headPrev
  {
    if rsize == 0 then (if Accepted(h, pp, c) then Freed else Aborted)
    else if !Accepted(h, pp, c) then Rejected
    else if BlockSize(rsize) <= ROW * h.bs[c].n then Shrunk
    else OutcomeOfMove(h, rsize, c)
  }

  ghost function OutcomeOfMove(h: Memory, rsize: nat, c: int): Realloced
    reads h, h.mem
  {
    if Refused(h, rsize, 16) then Failed
    else if Undone(h, c, BlockSize(rsize)) then Aborted
    else Moved
  }

  /**
   The outcome of a move from the rows before the call and the place of the new block: it aborts
   exactly if the last payload row is the header with its flag raised, and the new block ends where
   the old one starts.
   */
  twostate predicate MoveOutcome(h: Memory, c: int, p: int, d: int, what: Realloced, rsize: nat)
    reads h, h.mem
  {
    && c in old(h.bs) && 0 <= c < h.mem.Length && 0 <= c + old(h.bs)[c].n - 1 < h.mem.Length
    && if old(Refused(h, rsize, 16)) then
         what == Failed && p == NULLPTR && OutOfMemory(h, rsize, 16) && KeepsLive(h) && OnlyAdds(h, 0)
       else
         && p != NULLPTR && d in h.bs && c != d
         && FromFirst(h.base, old(h.bs), old(h.lists), old(h.Epilogue()), BlockSize(rsize), 16, d, h.bs[d].n, h.Epilogue())
         && if old(h.mem[c + h.bs[c].n - 1] == h.mem[c] + 2) && d + h.bs[d].n == c then what == Aborted
            else what == Moved && MovedTo(h, c, p, d, rsize)
  }

  method SfRealloc(h: Memory, pp: int, rsize: nat, ghost c: int) returns (p: int, what: Realloced, ghost d: int)
    requires Valid(h) && (Outside(h, pp) || PointsTo(h, pp, c)) && rsize + 64 < SIZE_LIMIT
    modifies h.mem, h.headNext, h.headPrev, h`end, h`errno, h`bs, h`lists
    ensures Valid(h) && what == old(Outcome(h, pp, rsize, c))
    ensures rsize == 0 ==> what == if old(Accepted(h, pp, c)) then Freed else Aborted
    ensures what == Rejected <==> rsize > 0 && !old(Accepted(h, pp, c))
    ensures what == Shrunk <==> rsize > 0 && old(Accepted(h, pp, c) && BlockSize(rsize) <= ROW * h.bs[c].n)
    ensures rsize > 0 && old(Accepted(h, pp, c) && BlockSize(rsize) > ROW * h.bs[c].n) ==> MoveOutcome(h, c, p, d, what, rsize)
    ensures what.Freed? ==> p == NULLPTR && !Live(h, c) && KeepsOthers(h, c) && OnlyAdds(h, 0)
                            && c in old(h.bs) && InFreeBlock(h.bs, c, old(h.bs)[c].n)
    ensures what.Rejected? ==> p == NULLPTR && h.errno == Invalid && h.bs == old(h.bs) && h.mem[..] == old(h.mem[..])
    ensures what.Shrunk? ==> p == pp && ShrunkTo(h, c, p, rsize)
  {
    d := 0;
    if rsize == 0 {
      what := FreeSized(h, pp, c);
      return NULLPTR, what, 0;
    }
    var r := CheckPointer(h, pp, c);
    if r != 0 {
      h.errno := Invalid;
      return NULLPTR, Rejected, 0;
    }
    p, what, d := ResizeBlock(h, pp, rsize, c);
  }

  // A size of zero frees the block.
  method FreeSized(h: Memory, pp: int, ghost c: int) returns (what: Realloced)
    requires Valid(h) && (Outside(h, pp) || PointsTo(h, pp, c))
    modifies h.mem, h.headNext, h.headPrev, h`bs, h`lists
    ensures Valid(h) && what == if old(Accepted(h, pp, c)) then Freed else Aborted
    ensures what.Freed? ==> !Live(h, c) && KeepsOthers(h, c) && OnlyAdds(h, 0) && InFreeBlock(h.bs, c, old(h.bs)[c].n)
  {
    var aborted := SfFree(h, pp, c);
    what := if aborted then Aborted else Freed;
  }

  // The pointer is accepted: shrink in place or move.
  method ResizeBlock(h: Memory, pp: int, rsize: nat, ghost c: int) returns (p: int, what: Realloced, ghost d: int)
    requires Valid(h) && Accepted(h, pp, c) && rsize > 0 && rsize + 64 < SIZE_LIMIT
    modifies h.mem, h.headNext, h.headPrev, h`end, h`errno, h`bs, h`lists
    ensures Valid(h)
    ensures what == if BlockSize(rsize) <= ROW * old(h.bs)[c].n then Shrunk else old(OutcomeOfMove(h, rsize, c))
    ensures BlockSize(rsize) > ROW * old(h.bs)[c].n ==> MoveOutcome(h, c, p, d, what, rsize)
    ensures what.Shrunk? ==> p == pp && ShrunkTo(h, c, p, rsize)
  {
    LiveWords(h, c);
    var block := (pp - h.base) / ROW - 1;
    assert block == c;
    var size := SizeOf(h.mem[block]);
    var actual := BlockSize(rsize);
    if actual <= size {
      ShrinkPayload(h, pp, rsize, block);
      return pp, Shrunk, c;
    }
    p, what, d := MoveBlock(h, pp, rsize, block, size / ROW);
  }

  method ShrinkPayload(h: Memory, pp: int, rsize: nat, c: int)
    requires Valid(h) && PointsTo(h, pp, c) && BlockSize(rsize) <= ROW * h.bs[c].n
    modifies h.mem, h.headNext, h.headPrev, h`bs, h`lists
    ensures Valid(h) && ShrunkTo(h, c, pp, rsize)
  {
    LiveWords(h, c);
    TakenBounds(h.bs[c].n, BlockSize(rsize));
    WholeRows(BlockSize(rsize));
    ghost var rows := h.mem[..];
    ShrinkInPlace(h, c, BlockSize(rsize));
    forall r | c < r < c + h.bs[c].n && 0 <= r < h.mem.Length
      ensures h.mem[r] == rows[r]
    {
      assert h.mem[..][r] == rows[r];
    }
  }

  // malloc, memcpy and free.
  method MoveBlock(h: Memory, pp: int, rsize: nat, c: int, n: int) returns (p: int, what: Realloced, ghost d: int)
    requires Valid(h) && Accepted(h, pp, c) && rsize > 0 && rsize + 64 < SIZE_LIMIT && n == h.bs[c].n && BlockSize(rsize) > ROW * n
    modifies h.mem, h.headNext, h.headPrev, h`end, h`errno, h`bs, h`lists
    ensures Valid(h)
    ensures what == old(OutcomeOfMove(h, rsize, c)) && MoveOutcome(h, c, p, d, what, rsize)
  {
    ghost var bs, rows, e := h.bs, h.mem[..], h.Epilogue();
    p, d := NewBlock(h, rsize, c, n);
    if p == NULLPTR { return p, Failed, d; }
    ghost var bs1, rows1, f := h.bs, h.mem[..], h.Epilogue();
    var block := (p - h.base) / ROW - 1;
    assert block == d;
    var aborted := MovePayload(h, pp, c, block, n);
    if aborted { return p, Aborted, d; }
    what := Moved;
    MovedKeeps(bs, rows, e, bs1, rows1, f, h.bs, h.mem[..], c, d, n);
    assert Granted(h, p, d, rsize, 16);
    assert KeepsOthers(h, c);
    forall s | Live(h, s) && s != d
      ensures old(Live(h, s))
    {
      assert Tile(h.bs, f, s);
    }
  }

  // From bs to cs block d came alive, and nothing else changed.
  ghost predicate Added(bs: Blocks, rows: seq<int>, e: int, cs: Blocks, rows': seq<int>, f: int, d: int)
  {
    && Keeps(bs, rows, cs, rows', e) && OnlyNew(bs, e, cs, f, d)
    && d in cs && cs[d].alloc && d != f && d != 1 && !(d in bs && bs[d].alloc && d != e)
  }

  // malloc, and what it does to the block that is to move.
  method NewBlock(h: Memory, rsize: nat, c: int, n: int) returns (p: int, ghost d: int)
    requires Valid(h) && Live(h, c) && rsize > 0 && rsize + 64 < SIZE_LIMIT && n == h.bs[c].n && BlockSize(rsize) > ROW * n
    modifies h.mem, h.headNext, h.headPrev, h`end, h`errno, h`bs, h`lists
    ensures Valid(h) && h.end > 0
    ensures p == NULLPTR <==> old(Refused(h, rsize, 16))
    ensures p == NULLPTR ==> OutOfMemory(h, rsize, 16) && KeepsLive(h) && OnlyAdds(h, 0)
    ensures p != NULLPTR ==>
              && Granted(h, p, d, rsize, 16) && !old(Live(h, d)) && c != d && n < h.bs[d].n
              && Live(h, c) && h.bs[c] == Block(n, true) && old(h.bs)[c] == Block(n, true) && 0 <= c && c + n <= h.mem.Length
              && Added(old(h.bs), old(h.mem[..]), old(h.Epilogue()), h.bs, h.mem[..], h.Epilogue(), d)
    ensures p != NULLPTR ==>
              && old(0 <= c < |h.mem[..]| && 0 <= c + n - 1 < |h.mem[..]|)
              && h.mem[c + n - 1] == old(h.mem[c + n - 1])
              && h.mem[c] == old(h.mem[c]) + (if d + h.bs[d].n == c then 2 else 0)
              && (d + h.bs[d].n == c <==> FillsGap(h.base, old(h.bs), old(h.lists), c, BlockSize(rsize)))
              && FromFirst(h.base, old(h.bs), old(h.lists), old(h.Epilogue()), BlockSize(rsize), 16, d, h.bs[d].n, h.Epilogue())
  {
    ghost var m, bs, e, lists := h.Snap(), h.bs, h.Epilogue(), h.lists;
    LiveWords(h, c);
    p, d := SfMalloc(h, rsize);
    if p == NULLPTR { return; }
    ghost var m1, bs1, f := h.Snap(), h.bs, h.Epilogue();
    forall s {:trigger s in bs1} | s in bs1 && bs1[s].alloc && s != 1 && s != f && s != d
      ensures s in bs && bs[s].alloc && s != e
    {
      assert Live(h, s);
    }
    StaysLive(bs, e, bs1, f, c);
    HeaderAfter(m, e, bs, lists, m1, f, bs1, h.lists, h.base, BlockSize(rsize), c, d);
    RoomForOld(bs1[d].n, n, rsize);
  }

  // memcpy into the new block, and the free of the old one.
  method MovePayload(h: Memory, pp: int, c: int, d: int, n: int) returns (aborted: bool)
    requires Valid(h) && PointsTo(h, pp, c) && Live(h, d) && c != d && n == h.bs[c].n < h.bs[d].n
    modifies h.mem, h.headNext, h.headPrev, h`bs, h`lists
    ensures Valid(h) && 0 <= c < h.mem.Length && 0 <= c + n - 1 < h.mem.Length
    ensures aborted <==> old(LooksFree(h.mem[..], c, n))
    ensures aborted ==> h.bs == old(h.bs)
    ensures !aborted ==> Replaced(old(h.bs), old(h.mem[..]), h.bs, h.mem[..], c, d, n) && !Live(h, c)
  {
    ghost var bs, rows := h.bs, h.mem[..];
    LiveWords(h, c);
    CopyPayload(h, c, d, n);
    ghost var rows1 := h.mem[..];
    assert Apart(bs, c, d) && Apart(bs, d, c) && Payload(bs, c, c + n - 1) && rows1[c + n - 1] == rows[c + n - 1];
    aborted := SfFree(h, pp, c);
    if !aborted {
      ReplacedBy(bs, rows, rows1, h.bs, h.mem[..], c, d, n);
    }
  }

  // From bs to cs the payload of c went to d, c was given back, and nothing else changed.
  ghost predicate Replaced(bs: Blocks, rows: seq<int>, cs: Blocks, rows': seq<int>, c: int, d: int, n: int)
  {
    && d in bs && d in cs && cs[d] == bs[d] && NoneNew(bs, cs, 0)
    && KeepsAllBut(bs, rows, cs, rows', d, c)
    && forall i | 0 < i < n :: CopiedRow(rows, c, rows', d, i)
  }

  lemma ReplacedBy(bs: Blocks, a: seq<int>, b: seq<int>, cs: Blocks, b': seq<int>, c: int, d: int, n: int)
    requires Keeps(bs, a, bs, b, d) && Keeps(bs, b, cs, b', c) && NoneNew(bs, cs, 0)
    requires d in bs && bs[d].alloc && c != d && n <= bs[d].n
    requires forall i | 0 < i < n :: CopiedRow(a, c, b, d, i)
    ensures Replaced(bs, a, cs, b', c, d, n)
  {
    forall s, r | Payload(bs, s, r) && s != d && s != c && 0 <= r < |a|
      ensures b'[r] == a[r]
    {}
    forall i | 0 < i < n
      ensures CopiedRow(a, c, b', d, i)
    {
      assert CopiedRow(a, c, b, d, i) && Payload(bs, d, d + i);
    }
  }

  // Seen from before the allocation too, only c goes and only d comes.
  lemma MovedKeeps(bs: Blocks, a: seq<int>, e: int, cs: Blocks, b: seq<int>, f: int, ds: Blocks, b': seq<int>, c: int, d: int, n: nat)
    requires Tiling(bs, e) && Tiling(ds, f) && Keeps(bs, a, cs, b, e) && Replaced(cs, b, ds, b', c, d, n)
    requires c in bs && bs[c] == Block(n, true) && c != e && 0 <= c && c + n <= |a| && (d in bs && bs[d].alloc ==> d == e)
    ensures KeepsAllBut(bs, a, ds, b', e, c)
    ensures forall i | 0 < i < n :: CopiedRow(a, c, b', d, i)
    ensures forall s | s in bs && bs[s].alloc && s != 1 && s != e && s != c :: s in ds && ds[s].alloc && s != f
  {
    forall s, r | Payload(bs, s, r) && s != e && s != c && 0 <= r < |a|
      ensures b'[r] == a[r]
    {
      assert Payload(cs, s, r);
    }
    forall i | 0 < i < n
      ensures CopiedRow(a, c, b', d, i)
    {
      assert CopiedRow(b, c, b', d, i) && Payload(bs, c, c + i);
    }
    forall s | s in bs && bs[s].alloc && s != 1 && s != e && s != c
      ensures s in ds && ds[s].alloc && s != f
    {
      StaysLive(bs, e, ds, f, s);
    }
  }

  // ----- the old header after the allocation -----

  // The new block d can end where live block c starts only by filling the free block before c.
  lemma GapFilled(m: Mem, e: int, bs: Blocks, lists: seq<seq<int>>, base: int, a: int, c: int, d: int, n: int, f: int)
    requires HeapOk(m, e, bs, lists, {}, 0) && base % 16 == 0 && a % 16 == 0 && a >= ROW * MIN_ROWS
    requires c in bs && bs[c].alloc && c != e && Placed(base, bs, lists, e, a, 16, d, n, f)
    ensures d + n == c <==> FillsGap(base, bs, lists, c, a)
  {
    var fit := FirstFit(base, bs, lists, SizeClass(a, 0), a, 16);
    if fit.Some? {
      var x := fit.value;
      var k :| InList(lists, k, x);
      assert Listable(bs, {}, x) && Tile(bs, e, x) && Apart(bs, x, c) && Apart(bs, c, x);
      NoPad(base, x);
    } else {
      var w := LastStart(bs, e);
      assert Tile(bs, e, w) && Tile(bs, e, c) && Apart(bs, w, c) && Apart(bs, c, w);
      NoPad(base, w);
    }
  }

  lemma NoPad(base: int, x: int)
    requires base % 16 == 0 && x % 2 == 1
    ensures Padding(Address(base, x + 1), 16) == 0
  {
    assert Address(base, x + 1) % 16 == 0;
  }

  // The flag of a kept block rises exactly if the new block ends there.
  lemma FlagAfter(bs: Blocks, a: seq<int>, e: int, cs: Blocks, b: seq<int>, f: int, c: int, d: int)
    requires Tiling(bs, e) && Words(a, bs, e, 0) && Tiling(cs, f) && Words(b, cs, f, 0)
    requires c in bs && bs[c].alloc && c != 1 && c != e && c != f && c in cs && cs[c] == bs[c] && 0 <= c < |a| == |b|
    requires Keeps(bs, a, cs, b, e) && OnlyNew(bs, e, cs, f, d)
    requires d in cs && cs[d].alloc && d != f && d != 1 && !(d in bs && bs[d].alloc && d != e)
    ensures PrevOf(b[c]) <==> PrevOf(a[c]) || d + cs[d].n == c
    ensures !(PrevOf(a[c]) && d + cs[d].n == c)
  {
    var q := Predecessor(bs, e, c);
    var p := Predecessor(cs, f, c);
    assert WordOk(a, bs, e, 0, q) && WordOk(b, cs, f, 0, p) && Tile(bs, e, c) && Tile(bs, e, q);
    assert Tile(cs, f, p) && Tile(cs, f, d);
    if bs[q].alloc { assert q in cs && Apart(cs, q, p) && Apart(cs, p, q); }
    assert Apart(cs, d, p) && Apart(cs, p, d);
    if cs[p].alloc && p != d { assert Apart(bs, q, p) && Apart(bs, p, q) && Tile(bs, e, p); }
  }

  lemma HeaderAfter(m: Mem, e: int, bs: Blocks, lists: seq<seq<int>>, m1: Mem, f: int, cs: Blocks, lists1: seq<seq<int>>,
                    base: int, a: int, c: int, d: int)
    requires HeapOk(m, e, bs, lists, {}, 0) && HeapOk(m1, f, cs, lists1, {}, 0)
    requires base % 16 == 0 && a % 16 == 0 && a >= ROW * MIN_ROWS
    requires c in bs && bs[c].alloc && c != 1 && c != e && c != f && c in cs && cs[c] == bs[c]
    requires Keeps(bs, m.rows, cs, m1.rows, e) && OnlyNew(bs, e, cs, f, d)
    requires d in cs && cs[d].alloc && d != f && d != 1 && !(d in bs && bs[d].alloc && d != e)
    requires Placed(base, bs, lists, e, a, 16, d, cs[d].n, f)
    ensures 0 <= c < |m.rows| == |m1.rows| && 0 <= c + bs[c].n - 1 < |m.rows|
    ensures d + cs[d].n == c <==> FillsGap(base, bs, lists, c, a)
    ensures m1.rows[c] == if d + cs[d].n == c then m.rows[c] + 2 else m.rows[c]
    ensures m1.rows[c + bs[c].n - 1] == m.rows[c + bs[c].n - 1]
  {
    assert Tile(bs, e, c) && WordOk(m.rows, bs, e, 0, c) && WordOk(m1.rows, cs, f, 0, c);
    assert Payload(bs, c, c + bs[c].n - 1);
    GapFilled(m, e, bs, lists, base, a, c, d, cs[d].n, f);
    FlagAfter(bs, m.rows, e, cs, m1.rows, f, c, d);
    FlagsOfHeader(bs[c].n, PrevOf(m.rows[c]), true);
  }

  lemma RoomForOld(m: int, n: int, rsize: nat)
    requires n >= MIN_ROWS && n % 2 == 0 && BlockSize(rsize) > ROW * n && ROW * (m - 1) >= rsize
    ensures m > n
  {}
}
