/** The heap in memory and the routine that puts a block into a free list, coalescing it. */
module Heap {
  import opened Powers
  import opened HeapTiles
  import opened HeapLists
  import opened HeapInv
  import opened HeapSteps
  import opened HeapCoalesce

  datatype Errno = NoError | NoMemory | Invalid

  class Memory {
    const base: int                 // byte address of row 0
    const mem: array<int>           // every row the system can give
    const headNext: array<int>
    const headPrev: array<int>
    var end: int                    // rows obtained so far
    var errno: Errno
    ghost var bs: Blocks
    ghost var lists: seq<seq<int>>

    ghost predicate Shape()
      reads this`end
    {
      && headNext.Length == LISTS && headPrev.Length == LISTS
      && mem != headNext && mem != headPrev && headNext != headPrev
      && 0 <= end <= mem.Length
    }

    ghost function Snap(): Mem
      reads mem, headNext, headPrev
    {
      Mem(mem[..], headNext[..], headPrev[..])
    }

    ghost function Epilogue(): int
      reads this`end
    {
      end - 1
    }

    // No heap yet, and memory for so many pages.
    constructor (base: int, pages: nat)
      ensures Shape() && end == 0 && errno == NoError && bs == map[] && lists == []
      ensures this.base == base && mem.Length == PAGE_ROWS * pages
      ensures fresh(mem) && fresh(headNext) && fresh(headPrev)
    {
      this.base := base;
      mem := new int[PAGE_ROWS * pages](_ => 0);
      headNext := new int[LISTS](_ => 0);
      headPrev := new int[LISTS](_ => 0);
      end, errno, bs, lists := 0, NoError, map[], [];
    }

    // ----- single words -----

    method Put(i: int, v: int)
      requires Shape() && 0 <= i < mem.Length
      modifies mem
      ensures Snap() == WriteRow(old(Snap()), i, v)
    {
      mem[i] := v;
      assert mem[..] == old(mem[..])[i := v];
    }

    method PutNext(p: int, v: int)
      requires Shape() && IsPtr(Snap(), p)
      modifies mem, headNext
      ensures Snap() == SetNext(old(Snap()), p, v)
    {
      if p >= 0 {
        mem[p + 1] := v;
        assert mem[..] == old(mem[..])[p + 1 := v];
      } else {
        headNext[-1 - p] := v;
        assert headNext[..] == old(headNext[..])[-1 - p := v];
      }
    }

    method PutPrev(p: int, v: int)
      requires Shape() && IsPtr(Snap(), p)
      modifies mem, headPrev
      ensures Snap() == SetPrev(old(Snap()), p, v)
    {
      if p >= 0 {
        mem[p + 2] := v;
        assert mem[..] == old(mem[..])[p + 2 := v];
      } else {
        headPrev[-1 - p] := v;
        assert headPrev[..] == old(headPrev[..])[-1 - p := v];
      }
    }

    method NextOf(p: int) returns (v: int)
      requires Shape() && IsPtr(Snap(), p)
      ensures v == NextLink(Snap(), p)
    {
      v := if p >= 0 then mem[p + 1] else headNext[-1 - p];
    }

    method PrevPtr(p: int) returns (v: int)
      requires Shape() && IsPtr(Snap(), p)
      ensures v == PrevLink(Snap(), p)
    {
      v := if p >= 0 then mem[p + 2] else headPrev[-1 - p];
    }

    method Unlink(x: int)
      requires Shape() && IsPtr(Snap(), x) && IsPtr(Snap(), PrevLink(Snap(), x)) && IsPtr(Snap(), NextLink(Snap(), x))
      modifies mem, headNext, headPrev
      ensures Snap() == Unlinked(old(Snap()), x)
    {
      var prev := PrevPtr(x);
      var next := NextOf(x);
      PutNext(prev, next);
      PutPrev(next, prev);
    }

    method Push(c: int, x: int)
      requires Shape() && 0 <= c < LISTS && x >= 0 && IsPtr(Snap(), x) && IsPtr(Snap(), Head(c)) && IsPtr(Snap(), NextLink(Snap(), Head(c)))
      modifies mem, headNext, headPrev
      ensures Snap() == Pushed(old(Snap()), c, x)
    {
      var h := NextOf(Head(c));
      PutNext(x, h);
      PutPrev(x, Head(c));
      PutPrev(h, x);
      PutNext(Head(c), x);
    }

    // ----- sf_add_to_free_list -----

    // The list for a block: the loop over the bounds of the lists.
    method ClassFor(size: int, atEnd: bool) returns (c: int)
      ensures 0 <= c < LISTS && c == if atEnd then LAST else SizeClass(size, 0)
    {
      c := if atEnd then LAST else 0;
      while c < LAST
        invariant 0 <= c <= LAST
        invariant (if atEnd then LAST else SizeClass(size, 0)) == if atEnd then c else SizeClass(size, c)
      {
        if size <= 32 * Pow2(c) { break; }
        c := c + 1;
      }
    }

    // The successor, if it is free, leaves its list and becomes part of the block.
    method CoalesceNext(b: int, ghost pend: set<int>) returns (size: int)
      requires Shape() && Opened(Snap(), Epilogue(), bs, lists, pend, b)
      requires b >= 0 && b < mem.Length && SizeOf(mem[b]) == ROW * bs[b].n
      requires b + bs[b].n !in pend || bs[b + bs[b].n].alloc
      modifies mem, headNext, headPrev, this`bs, this`lists
      ensures NextJoined(old(Snap()), Epilogue(), old(bs), old(lists), Snap(), bs, lists, pend, b) && size == ROW * bs[b].n
    {
      ghost var m, e := Snap(), Epilogue();
      size := SizeOf(mem[b]);
      var next := b + size / ROW;
      assert Tile(bs, e, b) && Tile(bs, e, next) && WordOk(m.rows, bs, e, b, next);
      if !AllocOf(mem[next]) {
        var more := TakeNext(b, next, pend);
        size := size + more;
      } else {
        ClearNext(m, e, bs, lists, pend, b);
        Put(next, WithoutPrev(mem[next]));
      }
    }

    method TakeNext(b: int, next: int, ghost pend: set<int>) returns (size: int)
      requires Shape() && Opened(Snap(), Epilogue(), bs, lists, pend, b)
      requires next == b + bs[b].n && !bs[next].alloc && next !in pend && 0 <= next < mem.Length
      modifies mem, headNext, headPrev, this`bs, this`lists
      ensures NextJoined(old(Snap()), Epilogue(), old(bs), old(lists), Snap(), bs, lists, pend, b)
      ensures size == ROW * old(bs[next].n)
    {
      ghost var m, e, c := Snap(), Epilogue(), ListOf(bs, Epilogue(), next);
      assert Listable(bs, pend, next) && InList(lists, c, next);
      ghost var j :| 0 <= j < |lists[c]| && lists[c][j] == next;
      AbsorbNext(m, e, bs, lists, pend, b, c, j);
      Unlink(next);
      size := SizeOf(mem[next]);
      bs, lists := Merged(bs, b, false), lists[c := Removed(lists[c], j)];
    }

    // The free predecessor q, a member of list c, takes the block in; v is memory with its header
    // grown.
    method CoalescePrev(q: int, size: int, ghost c: nat, ghost j: nat, ghost v: Mem)
      requires Shape() && 0 <= q < mem.Length && q in bs && q + bs[q].n in bs && c < |lists| && j < |lists[c]|
      requires v == WriteRow(Snap(), q, mem[q] + size) && IsPtr(v, q) && IsPtr(v, PrevLink(v, q)) && IsPtr(v, NextLink(v, q))
      modifies mem, headNext, headPrev, this`bs, this`lists
      ensures Snap() == Unlinked(v, q)
      ensures bs == Merged(old(bs), q, false) && lists == old(lists)[c := Removed(old(lists)[c], j)]
    {
      Put(q, mem[q] + size);
      Unlink(q);
      bs, lists := Merged(bs, q, false), lists[c := Removed(lists[c], j)];
    }

    // The predecessor, if it is free, takes the block in; otherwise the header gets the size.
    method CoalesceLeft(b: int, size: int, ghost pend: set<int>) returns (block: int)
      requires Shape() && Opened(Snap(), Epilogue(), bs, lists, pend, b)
      requires 0 <= b < mem.Length && 0 <= b + bs[b].n < mem.Length && SettledRight(Snap(), bs, b) && size == ROW * bs[b].n
      requires forall s | s in pend && s in bs && s != b && !bs[s].alloc :: s + bs[s].n != b
      modifies mem, headNext, headPrev, this`bs, this`lists
      ensures block in old(bs) && block <= b && (block == b <==> old(PrevOf(mem[b])))
      ensures block < b ==> block + old(bs)[block].n == b && !old(bs)[block].alloc
      ensures PrevJoined(old(Snap()), Epilogue(), old(bs), old(lists), Snap(), bs, lists, pend, b, block)
    {
      ghost var g := FlagOfPredecessor(Snap(), Epilogue(), bs, lists, pend, b);
      assert Tile(bs, Epilogue(), g);
      block := b;
      if !PrevOf(mem[b]) {
        block := b - SizeOf(mem[b - 1]) / ROW;
        TakeIntoPrev(b, block, size, pend);
      } else {
        SizeInPlace(b, size, pend);
      }
    }

    method TakeIntoPrev(b: int, q: int, size: int, ghost pend: set<int>)
      requires Shape() && Opened(Snap(), Epilogue(), bs, lists, pend, b)
      requires 0 <= b + bs[b].n < mem.Length && SettledRight(Snap(), bs, b) && size == ROW * bs[b].n
      requires q in bs && 1 < q < b < mem.Length && q + bs[q].n == b && !bs[q].alloc && q !in pend && SettledLeft(bs, q)
      requires mem[q] == Header(bs[q].n, true, false)
      modifies mem, headNext, headPrev, this`bs, this`lists
      ensures PrevJoined(old(Snap()), Epilogue(), old(bs), old(lists), Snap(), bs, lists, pend, b, q)
    {
      ghost var m, e, c := Snap(), Epilogue(), ListOf(bs, Epilogue(), q);
      assert Listable(bs, pend, q) && InList(lists, c, q);
      ghost var j :| 0 <= j < |lists[c]| && lists[c][j] == q;
      ghost var v := WriteRow(m, q, m.rows[q] + ROW * bs[b].n);
      AbsorbIntoPrev(m, e, bs, lists, pend, b, q, c, j, v);
      CoalescePrev(q, size, c, j, v);
    }

    method SizeInPlace(b: int, size: int, ghost pend: set<int>)
      requires Shape() && Opened(Snap(), Epilogue(), bs, lists, pend, b)
      requires 0 <= b < mem.Length && 0 <= b + bs[b].n < mem.Length && SettledRight(Snap(), bs, b) && size == ROW * bs[b].n
      requires PrevOf(mem[b])
      modifies mem
      ensures PrevJoined(old(Snap()), Epilogue(), bs, lists, Snap(), bs, lists, pend, b, b)
    {
      KeepInPlace(Snap(), Epilogue(), bs, lists, pend, b);
      Put(b, size + 2);
    }

    // The footer, and the front of the list for the size.
    method CloseAndList(block: int, ghost pend: set<int>)
      requires Shape() && ReadyAt(Snap(), Epilogue(), bs, lists, pend, block)
      modifies mem, headNext, headPrev, this`lists
      ensures HeapOk(Snap(), Epilogue(), bs, lists, pend - {block}, 0)
      ensures Keeps(bs, old(mem[..]), bs, mem[..], 0)
      ensures lists == old(lists)[ListOf(bs, Epilogue(), block) := [block] + old(lists)[ListOf(bs, Epilogue(), block)]]
    {
      ghost var m, e := Snap(), Epilogue();
      var size := SizeOf(mem[block]);
      CloseBlock(m, e, bs, lists, pend, block);
      Put(block + size / ROW - 1, mem[block]);
      ghost var m1 := Snap();
      ListBlock(m1, e, bs, lists, pend, block);
      var c := ClassFor(size, block + size / ROW == end - 1);
      Push(c, block);
      lists := lists[c := [block] + lists[c]];
      KeepsTransitive(bs, m.rows, bs, m1.rows, bs, mem[..], 0);
    }

    // Puts an open block, free from now on, into its list.  q is where the block that is
    // finally listed starts.
    method AddToFreeList(b: int, ghost pend: set<int>) returns (ghost q: int)
      requires Shape() && Opened(Snap(), Epilogue(), bs, lists, pend, b)
      requires 0 <= b < mem.Length && SizeOf(mem[b]) == ROW * bs[b].n
      requires forall s | s in pend && s in bs && s != b && !bs[s].alloc :: s + bs[s].n != b && b + bs[b].n != s
      modifies mem, headNext, headPrev, this`bs, this`lists
      ensures HeapOk(Snap(), Epilogue(), bs, lists, pend - {b}, 0)
      ensures Keeps(old(bs), old(mem[..]), bs, mem[..], 0)
      ensures q in old(bs) && q <= b && (q == b <==> old(PrevOf(mem[b]))) && (q < b ==> q + old(bs)[q].n == b && !old(bs)[q].alloc)
      ensures bs == Coalesced(old(bs), b, q)
      ensures q == b && old(bs[b + bs[b].n].alloc) ==>
                lists == old(lists)[ListOf(bs, Epilogue(), b) := [b] + old(lists)[ListOf(bs, Epilogue(), b)]]
    {
      ghost var bs0, m0, e := bs, Snap(), Epilogue();
      assert Tile(bs, e, b) && Tile(bs, e, b + bs[b].n);
      var size := CoalesceNext(b, pend);
      ghost var bs1, m1 := bs, Snap();
      PendingApart(bs0, e, b, pend);
      var block := CoalesceLeft(b, size, pend);
      q := block;
      ghost var bs2, m2, pend2 := bs, Snap(), pend - {b} + {q};
      CloseAndList(block, pend2);
      KeepsTransitive(bs0, m0.rows, bs1, m1.rows, bs2, m2.rows, 0);
      KeepsTransitive(bs0, m0.rows, bs2, m2.rows, bs2, mem[..], 0);
      assert pend2 - {q} == pend - {b};
    }
  }

  // Joining the successor brings no pending block before b.
  lemma PendingApart(bs: Blocks, e: int, b: int, pend: set<int>)
    requires Tiling(bs, e) && b in bs && b + bs[b].n in bs
    requires forall s | s in pend && s in bs && s != b && !bs[s].alloc :: s + bs[s].n != b
    ensures var cs := JoinedRight(bs, b);
            forall s | s in pend && s in cs && s != b && !cs[s].alloc :: s + cs[s].n != b
  {}

  // Coalescing takes nothing.
  lemma CoalescedNoneNew(bs: Blocks, b: int, q: int)
    requires b in bs && b + bs[b].n in bs && q in bs && (q < b ==> q + bs[q].n == b) && q <= b && !bs[b].alloc
    ensures NoneNew(bs, Coalesced(bs, b, q), 0)
  {}
}
