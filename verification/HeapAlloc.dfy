/** Handing out blocks: splitting, padding to an alignment, searching the lists, growing. */
module HeapAlloc {
  import opened Powers
  import opened HeapTiles
  import opened HeapLists
  import opened HeapInv
  import opened HeapSteps
  import opened HeapSplit
  import opened Heap

  const NULL: int := -1

  // Between operations nothing is open or pending.
  ghost predicate Sound(h: Memory)
    reads h, h.mem, h.headNext, h.headPrev
  {
    h.Shape() && HeapOk(h.Snap(), h.Epilogue(), h.bs, h.lists, {}, 0)
  }

  // ----- sf_allocate_block -----

  // The rows a block of n rows keeps when size bytes are asked of it.
  function RowsTaken(n: int, size: int): int {
    if ROW * n - size < ROW * MIN_ROWS then n else size / ROW
  }

  method AllocateBlock(h: Memory, c: int, size: nat, ghost pend: set<int>)
    requires h.Shape() && Taken(h.Snap(), h.Epilogue(), h.bs, h.lists, pend, c)
    requires size % 16 == 0 && ROW * MIN_ROWS <= size <= ROW * h.bs[c].n
    requires forall s | s in pend :: s in h.bs && (s != c ==> h.bs[s].alloc || s != c + h.bs[c].n)
    modifies h.mem, h.headNext, h.headPrev, h`bs, h`lists
    ensures h.Shape() && HeapOk(h.Snap(), h.Epilogue(), h.bs, h.lists, pend - {c}, 0)
    ensures c in h.bs && h.bs[c].alloc && h.bs[c].n == RowsTaken(old(h.bs)[c].n, size)
    ensures NoneNew(old(h.bs), h.bs, c)
    ensures Keeps(old(h.bs), old(h.mem[..]), h.bs, h.mem[..], c)
    ensures forall r | c < r < c + h.bs[c].n :: h.mem[..][r] == old(h.mem[..])[r]
    ensures forall s {:trigger s in h.bs} | s in old(h.bs) && s < c :: s in h.bs && h.bs[s] == old(h.bs)[s]
  {
    assert Tile(h.bs, h.Epilogue(), c);
    var length := SizeOf(h.mem[c]);
    if length - size < ROW * MIN_ROWS {
      TakeWhole(h, c, pend);
    } else {
      TakePart(h, c, size, length, pend);
    }
  }

  method TakeWhole(h: Memory, c: int, ghost pend: set<int>)
    requires h.Shape() && Taken(h.Snap(), h.Epilogue(), h.bs, h.lists, pend, c)
    modifies h.mem, h`bs
    ensures h.Shape() && HeapOk(h.Snap(), h.Epilogue(), h.bs, h.lists, pend - {c}, 0)
    ensures h.bs == Marked(old(h.bs), c, true) && Keeps(old(h.bs), old(h.mem[..]), h.bs, h.mem[..], c)
    ensures forall r | c < r < c + h.bs[c].n :: h.mem[..][r] == old(h.mem[..])[r]
  {
    ghost var m, x := h.Snap(), c + h.bs[c].n;
    ghost var v := WriteRow(m, c, WithAlloc(m.rows[c]));
    ghost var u := WriteRow(v, x, WithPrev(m.rows[x]));
    MarkTaken(m, h.Epilogue(), h.bs, h.lists, pend, c, x, v, u);
    h.Put(c, WithAlloc(h.mem[c]));
    var next := c + SizeOf(h.mem[c]) / ROW;
    assert next == x;
    h.Put(next, WithPrev(h.mem[next]));
    h.bs := Marked(h.bs, c, true);
  }

  method TakePart(h: Memory, c: int, size: nat, length: int, ghost pend: set<int>)
    requires h.Shape() && Taken(h.Snap(), h.Epilogue(), h.bs, h.lists, pend, c) && length == ROW * h.bs[c].n
    requires size % 16 == 0 && size >= ROW * MIN_ROWS && length - size >= ROW * MIN_ROWS
    requires forall s | s in pend :: s in h.bs && (s != c ==> h.bs[s].alloc || s != c + h.bs[c].n)
    modifies h.mem, h.headNext, h.headPrev, h`bs, h`lists
    ensures h.Shape() && HeapOk(h.Snap(), h.Epilogue(), h.bs, h.lists, pend - {c}, 0)
    ensures c in h.bs && h.bs[c] == Block(size / ROW, true)
    ensures NoneNew(old(h.bs), h.bs, c)
    ensures Keeps(old(h.bs), old(h.mem[..]), h.bs, h.mem[..], c)
    ensures forall r | c < r < c + h.bs[c].n :: h.mem[..][r] == old(h.mem[..])[r]
    ensures forall s {:trigger s in h.bs} | s in old(h.bs) && s < c :: s in h.bs && h.bs[s] == old(h.bs)[s]
  {
    ghost var m, bs := h.Snap(), h.bs;
    var k := size / ROW;
    SplitTaken(m, h.Epilogue(), bs, h.lists, pend, c, k);
    WriteSplit(h, c, size, length);
    h.bs := Divided(bs, c, k, true, false);
    ListRest(h, bs, m, c, k, pend);
  }

  // The header of the part handed out, and header and footer of the rest.
  method WriteSplit(h: Memory, c: int, size: nat, length: int)
    requires h.Shape() && 0 <= c && c + length / ROW < h.mem.Length && length % ROW == 0
    requires size % 16 == 0 && size >= ROW * MIN_ROWS && length - size >= ROW * MIN_ROWS
    modifies h.mem
    ensures h.Snap() == AfterSplit(old(h.Snap()), c, length / ROW, size / ROW)
  {
    var rest := c + size / ROW;
    h.Put(c, size + (if PrevOf(h.mem[c]) then 2 else 0) + 1);
    h.Put(rest, length - size + 2);
    assert h.mem[rest] == Header((length - size) / ROW, true, false);
    h.Put(rest + SizeOf(h.mem[rest]) / ROW - 1, h.mem[rest]);
  }

  // What is split off goes into its list.
  method ListRest(h: Memory, ghost bs: Blocks, ghost m: Mem, c: int, k: nat, ghost pend: set<int>)
    requires h.Shape() && SplitOff(m, h.Snap(), h.Epilogue(), bs, h.lists, pend, c, k) && h.bs == Divided(bs, c, k, true, false)
    requires forall s | s in pend :: s in bs && (s != c ==> bs[s].alloc || s != c + bs[c].n)
    modifies h.mem, h.headNext, h.headPrev, h`bs, h`lists
    ensures h.Shape() && HeapOk(h.Snap(), h.Epilogue(), h.bs, h.lists, pend - {c}, 0)
    ensures c in h.bs && h.bs[c] == Block(k, true)
    ensures NoneNew(bs, h.bs, c)
    ensures Keeps(bs, m.rows, h.bs, h.mem[..], c)
    ensures forall r | c < r < c + k :: h.mem[..][r] == m.rows[r]
    ensures forall s {:trigger s in h.bs} | s in bs && s < c :: s in h.bs && h.bs[s] == bs[s]
  {
    var d := c + k;
    ghost var cs, e := h.bs, h.Epilogue();
    ghost var pend', rows := pend - {c} + {d}, h.mem[..];
    assert Tile(cs, e, c) && Tile(cs, e, d) && Tile(cs, e, 0);
    forall s | s in pend' && s in cs && s != d && !cs[s].alloc
      ensures s + cs[s].n != d && d + cs[d].n != s
    {
      assert Apart(cs, s, c) && Apart(cs, c, s) && Tile(cs, e, s);
    }
    var q := h.AddToFreeList(d, pend');
    CoalescedNoneNew(cs, d, q);
    NoneNewTwice(bs, cs, h.bs, c, 0, c);
    assert pend' - {d} == pend - {c};
    KeepsExcept(bs, m.rows, cs, rows, h.bs, h.mem[..], c);
    forall r | c < r < c + k
      ensures h.mem[..][r] == m.rows[r]
    {
      assert Payload(cs, c, r);
    }
  }

  lemma KeepsExcept(bs: Blocks, a: seq<int>, cs: Blocks, b: seq<int>, ds: Blocks, c: seq<int>, except: int)
    requires Keeps(bs, a, cs, b, except) && Keeps(cs, b, ds, c, 0) && 0 !in cs
    ensures Keeps(bs, a, ds, c, except)
  {
    forall s, r | Payload(bs, s, r) && s != except && 0 <= r < |a|
      ensures c[r] == a[r]
    {
      assert Payload(cs, s, r);
    }
  }

  // ----- sf_check_free_list -----

  // Bytes in front of an address that bring it to the alignment; never room too small for a
  // block.
  function Padding(address: int, align: int): int
    requires align > 0
  {
    var p := (align - address % align) % align;
    if p != 0 && p < ROW * MIN_ROWS then p + align else p
  }

  ghost predicate Alignment(align: int)
  {
    align == 16 || (align >= 32 && align % 16 == 0)
  }

  function PadFor(r: int, align: int): int {
    if r == 0 then 0 else if align - r < ROW * MIN_ROWS then 2 * align - r else align - r
  }

  lemma PaddingIs(address: int, align: int)
    requires align > 0
    ensures Padding(address, align) == PadFor(address % align, align)
  {
    var r := address % align;
    if r == 0 { DivModUnique(align, 1, 0, align); } else { SmallMod(align - r, align); }
  }

  lemma PadForAligns(address: int, align: int, q: int, r: int)
    requires Alignment(align) && address == q * align + r && 0 <= r < align && r % 16 == 0
    ensures var p := PadFor(r, align);
            p % 16 == 0 && (p == 0 || p >= ROW * MIN_ROWS) && (address + p) % align == 0
  {
    if r == 0 {
      ReachesMultiple(address, align, q, r, 0);
    } else if align - r >= ROW * MIN_ROWS {
      ReachesMultiple(address, align, q, r, 1);
    } else {
      ReachesMultiple(address, align, q, r, 2);
    }
  }

  lemma PaddingAligns(address: int, align: int)
    requires Alignment(align) && address % 16 == 0
    ensures var p := Padding(address, align);
            p % 16 == 0 && (p == 0 || p >= ROW * MIN_ROWS) && (address + p) % align == 0
  {
    var q, r := address / align, address % align;
    RemainderMultiple(address, align, q, r);
    PadForAligns(address, align, q, r);
    PaddingIs(address, align);
  }

  // No shorter pad would do.
  lemma PaddingLeast(address: int, align: int, p: nat)
    requires Alignment(align) && address % 16 == 0 && (address + p) % align == 0 && (p == 0 || p >= 32)
    ensures 0 <= Padding(address, align) <= p
  {
    var r, k := address % align, (address + p) / align - address / align;
    PaddingIs(address, align);
    MulSub((address + p) / align, address / align, align);
    assert k * align == p + r;
    if k < 1 { MulLess(k, 1, align); }
    if k > 1 { MulLess(1, k, align); }
  }

  lemma ReachesMultiple(address: int, align: int, q: int, r: int, k: nat)
    requires align > 0 && address == q * align + r
    ensures (address + (k * align - r)) % align == 0
  {
    MulSub(q, k, align);
    DivModUnique(address + (k * align - r), q + k, 0, align);
  }

  lemma RemainderMultiple(address: int, align: int, q: int, r: int)
    requires align % 16 == 0 && address % 16 == 0 && address == q * align + r
    ensures r % 16 == 0
  {
    var k, a := align / 16, address / 16;
    assert q * align == 16 * (q * k) by { assert align == 16 * k; }
    assert r == 16 * (a - q * k);
  }

  function Address(base: int, row: int): int { base + ROW * row }

  // The block at s has room for size bytes behind the padding its payload needs.
  ghost predicate HasRoom(base: int, bs: Blocks, s: int, size: int, align: int)
    requires align > 0 && s in bs
  {
    size + Padding(Address(base, s + 1), align) <= ROW * bs[s].n
  }

  // No free block has room.
  ghost predicate NoRoom(base: int, bs: Blocks, size: int, align: int)
    requires align > 0
  {
    forall s | s in bs && !bs[s].alloc :: !HasRoom(base, bs, s, size, align)
  }

  // From bs to cs a block at an aligned address came alive, behind the pad it needs in the free
  // block x; it has the size, and no rest that would make a block.  Nothing else that was live
  // changed, and nothing else came alive.
  ghost predicate Handed(base: int, bs: Blocks, rows: seq<int>, cs: Blocks, rows': seq<int>, x: int, c: int, size: int, align: int)
    requires align > 0
  {
    && x in bs && !bs[x].alloc && HasRoom(base, bs, x, size, align)
    && c == x + Padding(Address(base, x + 1), align) / ROW && x <= c && Address(base, c + 1) % align == 0
    && c in cs && cs[c].alloc && cs[c].n == RowsTaken(x + bs[x].n - c, size) && c + cs[c].n <= x + bs[x].n
    && size <= ROW * cs[c].n < size + ROW * MIN_ROWS
    && Keeps(bs, rows, cs, rows', 0) && NoneNew(bs, cs, c)
  }

  // The block found leaves its list; a pad in front becomes a free block of its own.
  method TakeListed(h: Memory, x: int, size: nat, padding: nat, ghost c: nat, ghost j: nat) returns (block: int)
    requires Sound(h) && c < LISTS && j < |h.lists[c]| && h.lists[c][j] == x && x in h.bs
    requires size % 16 == 0 && size >= ROW * MIN_ROWS && size + padding <= ROW * h.bs[x].n
    requires padding % 16 == 0 && (padding == 0 || padding >= ROW * MIN_ROWS)
    modifies h.mem, h.headNext, h.headPrev, h`bs, h`lists
    ensures Sound(h) && block == x + padding / ROW
    ensures old(x in h.bs && !h.bs[x].alloc)
    ensures block in h.bs && h.bs[block].alloc && h.bs[block].n == RowsTaken(x + old(h.bs)[x].n - block, size)
    ensures NoneNew(old(h.bs), h.bs, block)
    ensures Keeps(old(h.bs), old(h.mem[..]), h.bs, h.mem[..], 0)
  {
    ghost var m, e, bs := h.Snap(), h.Epilogue(), h.bs;
    assert InList(h.lists, c, x) && Listable(bs, {}, x) && Tile(bs, e, x);
    UnlinkListed(h, x, c, j);
    ghost var m1 := h.Snap();
    if padding != 0 {
      block := TakePadded(h, x, size, padding);
      KeepsTransitive(bs, m.rows, bs, m1.rows, h.bs, h.mem[..], 0);
    } else {
      TakeUnlisted(m1, e, bs, h.lists, x);
      AllocateBlock(h, x, size, {x});
      block := x;
      assert {x} - {x} == {};
      KeepsFree(bs, m1.rows, h.bs, h.mem[..], x);
      KeepsTransitive(bs, m.rows, bs, m1.rows, h.bs, h.mem[..], 0);
    }
  }

  lemma KeepsFree(bs: Blocks, a: seq<int>, cs: Blocks, b: seq<int>, x: int)
    requires Keeps(bs, a, cs, b, x) && x in bs && !bs[x].alloc
    ensures Keeps(bs, a, cs, b, 0)
  {
    forall s, r | Payload(bs, s, r) && s != 0 && 0 <= r < |a|
      ensures b[r] == a[r]
    {}
  }

  method UnlinkListed(h: Memory, x: int, ghost c: nat, ghost j: nat)
    requires Sound(h) && c < LISTS && j < |h.lists[c]| && h.lists[c][j] == x
    modifies h.mem, h.headNext, h.headPrev, h`lists
    ensures h.Shape() && HeapOk(h.Snap(), h.Epilogue(), h.bs, h.lists, {x}, 0)
    ensures Keeps(h.bs, old(h.mem[..]), h.bs, h.mem[..], 0)
  {
    ghost var m, e := h.Snap(), h.Epilogue();
    UnlinkBlock(m, e, h.bs, h.lists, {}, x, c, j);
    h.Unlink(x);
    h.lists := h.lists[c := Removed(h.lists[c], j)];
    WordsUnderLinks(m, h.Snap(), e, h.bs, {}, 0);
    assert {} + {x} == {x};
  }

  lemma TakeUnlisted(m: Mem, e: int, bs: Blocks, lists: seq<seq<int>>, x: int)
    requires HeapOk(m, e, bs, lists, {x}, 0) && x in bs && !bs[x].alloc && x != 1 && x != e
    ensures Taken(m, e, bs, lists, {x}, x)
  {
    assert Tile(bs, e, x) && Tile(bs, e, x + bs[x].n) && WordOk(m.rows, bs, e, 0, x) && NoFreePair(bs, 0, x);
    OpenBlock(m, e, bs, lists, {x}, x);
  }

  method TakePadded(h: Memory, x: int, size: nat, padding: nat) returns (block: int)
    requires h.Shape() && HeapOk(h.Snap(), h.Epilogue(), h.bs, h.lists, {x}, 0)
    requires x in h.bs && !h.bs[x].alloc && x != 1 && x != h.Epilogue()
    requires size % 16 == 0 && size >= ROW * MIN_ROWS && size + padding <= ROW * h.bs[x].n
    requires padding % 16 == 0 && padding >= ROW * MIN_ROWS
    modifies h.mem, h.headNext, h.headPrev, h`bs, h`lists
    ensures Sound(h) && block == x + padding / ROW
    ensures block in h.bs && h.bs[block].alloc && h.bs[block].n == RowsTaken(x + old(h.bs)[x].n - block, size)
    ensures NoneNew(old(h.bs), h.bs, block)
    ensures Keeps(old(h.bs), old(h.mem[..]), h.bs, h.mem[..], 0)
  {
    ghost var m, bs, k := h.Snap(), h.bs, padding / ROW;
    PadTaken(m, h.Epilogue(), bs, h.lists, x, k);
    assert Tile(bs, h.Epilogue(), x);
    WritePad(h, x, padding, bs[x].n);
    h.bs := Divided(bs, x, k, false, false);
    block := x + padding / ROW;
    TakeBehindPad(h, m, bs, x, k, block, size);
  }

  // Header of the block behind the pad, header and footer of the pad.
  method WritePad(h: Memory, x: int, padding: nat, ghost n: nat)
    requires h.Shape() && 0 <= x && x + n < h.mem.Length && h.mem[x] == Header(n, PrevOf(h.mem[x]), false)
    requires padding % 16 == 0 && ROW * MIN_ROWS <= padding < ROW * n
    modifies h.mem
    ensures h.Snap() == AfterPad(old(h.Snap()), x, n, padding / ROW)
  {
    ghost var m, k, p := h.Snap(), padding / ROW, PrevOf(h.mem[x]);
    assert h.mem[x] - padding == Header(n - k, p, false);
    FlagsOfHeader(n - k, p, false);
    h.Put(x + padding / ROW, WithoutPrev(h.mem[x] - padding));
    ghost var w := Header(k, p, false);
    assert padding + (if p then 2 else 0) == w;
    h.Put(x, padding + if PrevOf(h.mem[x]) then 2 else 0);
    assert h.Snap() == WriteRow(WriteRow(m, x + k, Header(n - k, false, false)), x, w);
    h.Put(x + SizeOf(h.mem[x]) / ROW - 1, h.mem[x]);
  }

  method TakeBehindPad(h: Memory, ghost m: Mem, ghost bs: Blocks, x: int, ghost k: nat, block: int, size: nat)
    requires h.Shape() && PadOff(m, h.Snap(), h.Epilogue(), bs, h.lists, x, k) && h.bs == Divided(bs, x, k, false, false)
    requires block == x + k && Tiling(bs, h.Epilogue()) && x != 1 && x != h.Epilogue()
    requires size % 16 == 0 && ROW * MIN_ROWS <= size && size + ROW * k <= ROW * bs[x].n
    modifies h.mem, h.headNext, h.headPrev, h`bs, h`lists
    ensures Sound(h)
    ensures block in h.bs && h.bs[block].alloc && h.bs[block].n == RowsTaken(x + bs[x].n - block, size)
    ensures NoneNew(bs, h.bs, block)
    ensures Keeps(bs, m.rows, h.bs, h.mem[..], 0)
  {
    ghost var bs1, m1 := h.bs, h.Snap();
    assert Tile(bs, h.Epilogue(), x);
    AllocateBlock(h, block, size, {x, block});
    assert {x, block} - {block} == {x};
    ghost var bs2, m2 := h.bs, h.Snap();
    KeepsFree(bs1, m1.rows, bs2, m2.rows, block);
    KeepsTransitive(bs, m.rows, bs1, m1.rows, bs2, m2.rows, 0);
    assert x in bs2 && bs2[x] == bs1[x];
    NoneNewTwice(bs, bs1, bs2, block, block, block);
    ListPad(h, x);
    assert Tile(h.bs, h.Epilogue(), 0);
    NoneNewTwice(bs, bs2, h.bs, block, 0, block);
    KeepsTransitive(bs, m.rows, bs2, m2.rows, h.bs, h.mem[..], 0);
  }

  // The pad, pending so far, goes into its list.
  method ListPad(h: Memory, x: int)
    requires h.Shape() && HeapOk(h.Snap(), h.Epilogue(), h.bs, h.lists, {x}, 0)
    requires x in h.bs && !h.bs[x].alloc && x != 1 && x != h.Epilogue()
    modifies h.mem, h.headNext, h.headPrev, h`bs, h`lists
    ensures Sound(h) && Keeps(old(h.bs), old(h.mem[..]), h.bs, h.mem[..], 0)
    ensures NoneNew(old(h.bs), h.bs, 0)
  {
    ghost var bs := h.bs;
    OpenPending(h.Snap(), h.Epilogue(), h.bs, h.lists, {x}, x);
    var q := h.AddToFreeList(x, {x});
    CoalescedNoneNew(bs, x, q);
    assert {x} - {x} == {};
  }
}
