/** Zooming in and out by powers of two: bdd_zoom. */
module BddZoom {
  import opened Powers
  import opened BddTable
  import opened BddStore

  // ----- zooming in -----

  // The pixel of j at (r, c), 2k levels up, is that of i at (r div 2^k, c div 2^k).
  ghost predicate RepeatsPixel(t: Table, i: int, j: int, l: nat, k: nat, r: int, c: int)
    requires Reduced(t) && Ref(t, i, l) && Ref(t, j, l + 2 * k)
  {
    var m, y, x := l + 2 * k, r / Pow2(k), c / Pow2(k);
    InRange(m, r, c) && InRange(l, y, x) && Pix(t, j, m, r, c) == Pix(t, i, l, y, x)
  }

  // j read 2k levels above i repeats each pixel of i in a square of side 2^k.
  ghost predicate ZoomedIn(t: Table, i: int, j: int, l: nat, k: nat)
    requires Reduced(t)
  {
    && Ref(t, i, l) && Ref(t, j, l + 2 * k)
    && forall r, c {:trigger RepeatsPixel(t, i, j, l, k, r, c)} | InRange(l + 2 * k, r, c) ::
         RepeatsPixel(t, i, j, l, k, r, c)
  }

  lemma ScaledSides(l: nat, k: nat)
    ensures Height(l + 2 * k) == Height(l) * Pow2(k)
    ensures Width(l + 2 * k) == Width(l) * Pow2(k)
  {
    Shape(l); Shape(l + 2 * k);
    assert (l + 2 * k) / 2 == l / 2 + k;
    Pow2Add(l / 2, k);
    Pow2Add(l - l / 2, k);
  }

  lemma ZoomedInHalves(t: Table, i: int, j: int, l: nat, k: nat)
    requires Reduced(t) && l > 0 && Ref(t, i, l) && Ref(t, j, l + 2 * k)
    requires ZoomedIn(t, Lo(t, i, l), Lo(t, j, l + 2 * k), l - 1, k)
    requires ZoomedIn(t, Hi(t, i, l), Hi(t, j, l + 2 * k), l - 1, k)
    ensures ZoomedIn(t, i, j, l, k)
  {
    forall r, c | InRange(l + 2 * k, r, c)
      ensures RepeatsPixel(t, i, j, l, k, r, c)
    {
      RepeatsHalf(t, i, j, l, k, r, c);
    }
  }

  lemma RepeatsHalf(t: Table, i: int, j: int, l: nat, k: nat, r: int, c: int)
    requires Reduced(t) && l > 0 && Ref(t, i, l) && Ref(t, j, l + 2 * k) && InRange(l + 2 * k, r, c)
    requires ZoomedIn(t, Lo(t, i, l), Lo(t, j, l + 2 * k), l - 1, k)
    requires ZoomedIn(t, Hi(t, i, l), Hi(t, j, l + 2 * k), l - 1, k)
    ensures RepeatsPixel(t, i, j, l, k, r, c)
  {
    var m, n, p := l - 1, l + 2 * k, Pow2(k);
    assert m + 2 * k == n - 1 && n % 2 == l % 2;
    ScaledSides(m, k);
    var low := if l % 2 == 0 then r < Height(n - 1) else c < Width(n - 1);
    var a, b := if low then Lo(t, i, l) else Hi(t, i, l), if low then Lo(t, j, n) else Hi(t, j, n);
    var r' := if l % 2 == 0 && !low then r - Height(n - 1) else r;
    var c' := if l % 2 == 1 && !low then c - Width(n - 1) else c;
    assert InRange(n - 1, r', c') && Pix(t, j, n, r, c) == Pix(t, b, n - 1, r', c');
    assert RepeatsPixel(t, a, b, m, k, r', c');
    DividedHalf(r, Height(m), p);
    DividedHalf(c, Width(m), p);
    assert Pix(t, i, l, r / p, c / p) == Pix(t, a, m, r' / p, c' / p);
  }

  lemma {:induction false} ZoomedInAbove(t: Table, i: int, j: int, m: nat, l: nat, k: nat)
    requires Reduced(t) && m <= l && ZoomedIn(t, i, j, m, k)
    ensures ZoomedIn(t, i, j, l, k)
    decreases l
  {
    if m < l {
      ZoomedInAbove(t, i, j, m, l - 1, k);
      ZoomedInHalves(t, i, j, l, k);
    }
  }

  lemma ZoomedInExtends(t: Table, u: Table, i: int, j: int, l: nat, k: nat)
    requires Reduced(t) && Reduced(u) && Extends(t, u) && ZoomedIn(t, i, j, l, k)
    ensures ZoomedIn(u, i, j, l, k)
  {
    forall r, c | InRange(l + 2 * k, r, c)
      ensures RepeatsPixel(u, i, j, l, k, r, c)
    {
      assert RepeatsPixel(t, i, j, l, k, r, c);
      PixExtends(t, u, j, l + 2 * k, r, c);
      PixExtends(t, u, i, l, r / Pow2(k), c / Pow2(k));
    }
  }

  lemma ZoomedInLeaf(t: Table, i: int, l: nat, k: nat)
    requires Reduced(t) && 0 <= i < LEAVES
    ensures ZoomedIn(t, i, i, l, k)
  {
    LeafUniform(t, i, l);
    LeafUniform(t, i, l + 2 * k);
    ScaledSides(l, k);
    forall r, c | InRange(l + 2 * k, r, c)
      ensures RepeatsPixel(t, i, i, l, k, r, c)
    {
      var p := Pow2(k);
      DividedHalf(r, Height(l), p);
      DividedHalf(c, Width(l), p);
      var y, x := r / p, c / p;
      assert InRange(l, y, x) && Pix(t, i, l, y, x) == i == Pix(t, i, l + 2 * k, r, c);
    }
  }

  // ----- zooming out -----

  // Every pixel of i in the square of side 2^k at block (r, c) is v.
  ghost predicate BlockIs(t: Table, i: int, l: nat, k: nat, r: int, c: int, v: int)
    requires Reduced(t) && Ref(t, i, l)
  {
    forall y, x | InRange(l, y, x) && InBlock(k, r, c, y, x) :: Pix(t, i, l, y, x) == v
  }

  ghost predicate InBlock(k: nat, r: int, c: int, y: int, x: int)
  {
    r * Pow2(k) <= y < r * Pow2(k) + Pow2(k) && c * Pow2(k) <= x < c * Pow2(k) + Pow2(k)
  }

  // What the code makes of a block: its value if it is constant, white otherwise.
  ghost predicate BlockPixel(t: Table, i: int, l: nat, k: nat, r: int, c: int, p: int)
    requires Reduced(t) && Ref(t, i, l)
  {
    BlockIs(t, i, l, k, r, c, p) || (p == WHITE && forall v :: !BlockIs(t, i, l, k, r, c, v))
  }

  ghost predicate ShrunkPixel(t: Table, i: int, j: int, l: nat, k: nat, r: int, c: int)
    requires Reduced(t) && 2 * k <= l && Ref(t, i, l) && Ref(t, j, l - 2 * k)
  {
    var m := l - 2 * k;
    InRange(m, r, c) && BlockPixel(t, i, l, k, r, c, Pix(t, j, m, r, c))
  }

  ghost predicate ZoomedOut(t: Table, i: int, j: int, l: nat, k: nat)
    requires Reduced(t)
  {
    && 2 * k <= l && Ref(t, i, l) && Ref(t, j, l - 2 * k)
    && forall r, c {:trigger ShrunkPixel(t, i, j, l, k, r, c)} | InRange(l - 2 * k, r, c) ::
         ShrunkPixel(t, i, j, l, k, r, c)
  }

  // (r', c') is (r, c) within its half of level n; dy and dx lead back to (r, c)'s half of
  // level l, of the same parity.
  ghost predicate HalfAt(l: nat, n: nat, r: int, c: int, low: bool, r': int, c': int, dy: int, dx: int)
    requires 0 < n <= l
  {
    && InRange(n, r, c) && l % 2 == n % 2
    && if l % 2 == 0 then
         low == (r < Height(n - 1)) && c' == c && dx == 0
         && (if low then r' == r && dy == 0 else r' == r - Height(n - 1) && dy == Height(l - 1))
       else
         low == (c < Width(n - 1)) && r' == r && dy == 0
         && (if low then c' == c && dx == 0 else c' == c - Width(n - 1) && dx == Width(l - 1))
  }

  lemma BlockOffsets(l: nat, k: nat, r: int, c: int, low: bool, r': int, c': int, dy: int, dx: int)
    requires 2 * k < l && HalfAt(l, l - 2 * k, r, c, low, r', c', dy, dx)
    ensures r * Pow2(k) == r' * Pow2(k) + dy && c * Pow2(k) == c' * Pow2(k) + dx
    ensures l % 2 == 0 ==> if low then r * Pow2(k) + Pow2(k) <= Height(l - 1) else r * Pow2(k) >= Height(l - 1)
    ensures l % 2 == 1 ==> if low then c * Pow2(k) + Pow2(k) <= Width(l - 1) else c * Pow2(k) >= Width(l - 1)
  {
    var m, p := l - 1 - 2 * k, Pow2(k);
    ScaledSides(m, k);
    assert m + 2 * k == l - 1;
    MulSub(r, Height(m), p);
    MulSub(c, Width(m), p);
    if l % 2 == 0 { HalfBlock(r, Height(m), p); } else { HalfBlock(c, Width(m), p); }
  }

  lemma BlockHalf(t: Table, i: int, l: nat, k: nat, r: int, c: int, low: bool, r': int, c': int, dy: int, dx: int, y: int, x: int)
    requires Reduced(t) && Ref(t, i, l) && 2 * k < l
    requires HalfAt(l, l - 2 * k, r, c, low, r', c', dy, dx) && InBlock(k, r, c, y, x)
    ensures InBlock(k, r', c', y - dy, x - dx) && (InRange(l, y, x) <==> InRange(l - 1, y - dy, x - dx))
    ensures InRange(l, y, x) ==>
              Pix(t, i, l, y, x) == Pix(t, if low then Lo(t, i, l) else Hi(t, i, l), l - 1, y - dy, x - dx)
  {
    BlockOffsets(l, k, r, c, low, r', c', dy, dx);
    var ry, cx, p := r * Pow2(k), c * Pow2(k), Pow2(k);
    assert ry <= y < ry + p && cx <= x < cx + p;
  }

  lemma BlockDescends(t: Table, i: int, l: nat, k: nat, r: int, c: int, low: bool, r': int, c': int, dy: int, dx: int, v: int)
    requires Reduced(t) && Ref(t, i, l) && 2 * k < l
    requires HalfAt(l, l - 2 * k, r, c, low, r', c', dy, dx)
    ensures BlockIs(t, i, l, k, r, c, v) <==>
            BlockIs(t, if low then Lo(t, i, l) else Hi(t, i, l), l - 1, k, r', c', v)
  {
    var a := if low then Lo(t, i, l) else Hi(t, i, l);
    BlockOffsets(l, k, r, c, low, r', c', dy, dx);
    forall y, x | InRange(l, y, x) && InBlock(k, r, c, y, x)
      ensures InRange(l - 1, y - dy, x - dx) && InBlock(k, r', c', y - dy, x - dx)
      ensures Pix(t, i, l, y, x) == Pix(t, a, l - 1, y - dy, x - dx)
    {
      BlockHalf(t, i, l, k, r, c, low, r', c', dy, dx, y, x);
    }
    forall y, x | InRange(l - 1, y, x) && InBlock(k, r', c', y, x)
      ensures InRange(l, y + dy, x + dx) && InBlock(k, r, c, y + dy, x + dx)
      ensures Pix(t, i, l, y + dy, x + dx) == Pix(t, a, l - 1, y, x)
    {
      assert InBlock(k, r, c, y + dy, x + dx);
      BlockHalf(t, i, l, k, r, c, low, r', c', dy, dx, y + dy, x + dx);
    }
  }

  lemma HalfBlock(r: int, half: int, p: int)
    requires r >= 0 && half >= 0 && p > 0
    ensures r < half ==> r * p + p <= half * p
    ensures r >= half ==> r * p >= half * p
  {
    if r < half { MulLess(r, half, p); } else if r > half { MulLess(half, r, p); }
  }

  lemma ZoomedOutHalves(t: Table, i: int, j: int, l: nat, k: nat)
    requires Reduced(t) && 2 * k < l && Ref(t, i, l) && Ref(t, j, l - 2 * k)
    requires ZoomedOut(t, Lo(t, i, l), Lo(t, j, l - 2 * k), l - 1, k)
    requires ZoomedOut(t, Hi(t, i, l), Hi(t, j, l - 2 * k), l - 1, k)
    ensures ZoomedOut(t, i, j, l, k)
  {
    forall r, c | InRange(l - 2 * k, r, c)
      ensures ShrunkPixel(t, i, j, l, k, r, c)
    {
      ShrunkHalf(t, i, j, l, k, r, c);
    }
  }

  lemma ShrunkHalf(t: Table, i: int, j: int, l: nat, k: nat, r: int, c: int)
    requires Reduced(t) && 2 * k < l && Ref(t, i, l) && Ref(t, j, l - 2 * k) && InRange(l - 2 * k, r, c)
    requires ZoomedOut(t, Lo(t, i, l), Lo(t, j, l - 2 * k), l - 1, k)
    requires ZoomedOut(t, Hi(t, i, l), Hi(t, j, l - 2 * k), l - 1, k)
    ensures ShrunkPixel(t, i, j, l, k, r, c)
  {
    var n, m := l - 2 * k, l - 1 - 2 * k;
    assert n % 2 == l % 2 && m == n - 1;
    var rows := l % 2 == 0;
    var low := if rows then r < Height(m) else c < Width(m);
    var a, b := if low then Lo(t, i, l) else Hi(t, i, l), if low then Lo(t, j, n) else Hi(t, j, n);
    var r', c' := if rows && !low then r - Height(m) else r, if !rows && !low then c - Width(m) else c;
    var dy, dx := if rows && !low then Height(l - 1) else 0, if !rows && !low then Width(l - 1) else 0;
    assert InRange(m, r', c') && Pix(t, j, n, r, c) == Pix(t, b, m, r', c');
    assert ShrunkPixel(t, a, b, l - 1, k, r', c');
    forall v
      ensures BlockIs(t, i, l, k, r, c, v) <==> BlockIs(t, a, l - 1, k, r', c', v)
    {
      BlockDescends(t, i, l, k, r, c, low, r', c', dy, dx, v);
    }
  }

  lemma {:induction false} ZoomedOutAbove(t: Table, i: int, j: int, m: nat, l: nat, k: nat)
    requires Reduced(t) && m <= l && ZoomedOut(t, i, j, m, k)
    ensures ZoomedOut(t, i, j, l, k)
    decreases l
  {
    if m < l {
      ZoomedOutAbove(t, i, j, m, l - 1, k);
      ZoomedOutHalves(t, i, j, l, k);
    }
  }

  lemma ZoomedOutExtends(t: Table, u: Table, i: int, j: int, l: nat, k: nat)
    requires Reduced(t) && Reduced(u) && Extends(t, u) && ZoomedOut(t, i, j, l, k)
    ensures ZoomedOut(u, i, j, l, k)
  {
    forall r, c | InRange(l - 2 * k, r, c)
      ensures ShrunkPixel(u, i, j, l, k, r, c)
    {
      PixExtends(t, u, j, l - 2 * k, r, c);
      assert ShrunkPixel(t, i, j, l, k, r, c);
      forall v
        ensures BlockIs(t, i, l, k, r, c, v) <==> BlockIs(u, i, l, k, r, c, v)
      {
        BlockExtends(t, u, i, l, k, r, c, v);
      }
    }
  }

  lemma BlockExtends(t: Table, u: Table, i: int, l: nat, k: nat, r: int, c: int, v: int)
    requires Reduced(t) && Reduced(u) && Extends(t, u) && Ref(t, i, l)
    ensures BlockIs(t, i, l, k, r, c, v) <==> BlockIs(u, i, l, k, r, c, v)
  {
    forall y, x | InRange(l, y, x)
      ensures Pix(u, i, l, y, x) == Pix(t, i, l, y, x)
    {
      PixExtends(t, u, i, l, y, x);
    }
  }

  // At level 2k the whole image is one block: a leaf keeps its value, anything else is not
  // constant and turns white.
  lemma ZoomedOutBase(t: Table, i: int, k: nat)
    requires ValidTable(t) && Ref(t, i, 2 * k)
    ensures ZoomedOut(t, i, if i < LEAVES then i else WHITE, 2 * k, k)
  {
    SquareSides(k);
    forall v
      ensures BlockIs(t, i, 2 * k, k, 0, 0, v) <==> Uniform(t, i, 2 * k, v)
    {}
    ConstantIffLeaf(t, i, 2 * k);
    if i < LEAVES { LeafUniform(t, i, 2 * k); }
    assert forall r, c | InRange(0, r, c) :: r == 0 && c == 0;
  }

  // ----- the operation -----

  // i zoomed by the factor: read at every level at which the result is defined.
  ghost predicate Zooms(t: Table, i: int, j: int, factor: int)
    requires Reduced(t)
  {
    if factor >= 0 then forall l: nat | Ref(t, i, l) :: ZoomedIn(t, i, j, l, factor)
    else forall l: nat | Ref(t, i, l) && -2 * factor <= l :: ZoomedOut(t, i, j, l, -factor)
  }

  // The result's own level.
  ghost function ZoomLevel(n: int, factor: int): nat {
    if n + 2 * factor > 0 && n > 0 then n + 2 * factor else 0
  }

  lemma ZoomsFrom(t: Table, i: int, j: int, l: nat, factor: int)
    requires Reduced(t) && Ref(t, i, l) && -2 * factor <= l
    requires t[i].level == l || l == -2 * factor
    requires if factor >= 0 then ZoomedIn(t, i, j, l, factor) else ZoomedOut(t, i, j, l, -factor)
    ensures Zooms(t, i, j, factor)
  {
    forall n: nat | Ref(t, i, n) && -2 * factor <= n
      ensures if factor >= 0 then ZoomedIn(t, i, j, n, factor) else ZoomedOut(t, i, j, n, -factor)
    {
      if factor >= 0 { ZoomedInAbove(t, i, j, l, n, factor); } else { ZoomedOutAbove(t, i, j, l, n, -factor); }
    }
  }

  lemma ZoomsExtends(t: Table, u: Table, i: int, j: int, factor: int)
    requires Reduced(t) && Reduced(u) && Extends(t, u) && 0 <= i < |t| && Zooms(t, i, j, factor)
    ensures Zooms(u, i, j, factor)
  {
    var l: nat := if t[i].level >= -2 * factor then t[i].level else -2 * factor;
    assert Ref(t, i, l);
    if factor >= 0 { ZoomedInExtends(t, u, i, j, l, factor); } else { ZoomedOutExtends(t, u, i, j, l, -factor); }
    ZoomsFrom(u, i, j, l, factor);
  }

  lemma ZoomsJoin(t: Table, i: int, j: int, a: int, b: int, factor: int)
    requires Reduced(t) && LEAVES <= i < |t| && t[i].level + 2 * factor > 0
    requires Zooms(t, t[i].left, a, factor) && Zooms(t, t[i].right, b, factor)
    requires Joins(t, j, t[i].level + 2 * factor, a, b)
    ensures Zooms(t, i, j, factor)
  {
    assert GoodNode(t, i);
    var l := t[i].level;
    if factor >= 0 { ZoomedInHalves(t, i, j, l, factor); } else { ZoomedOutHalves(t, i, j, l, -factor); }
    ZoomsFrom(t, i, j, l, factor);
  }

  lemma ZoomsLeaf(t: Table, i: int, factor: int)
    requires ValidTable(t) && 0 <= i < LEAVES
    ensures Zooms(t, i, i, factor)
  {
    if factor >= 0 {
      ZoomedInLeaf(t, i, 0, factor);
      ZoomsFrom(t, i, i, 0, factor);
    } else {
      ZoomedOutBase(t, i, -factor);
      ZoomsFrom(t, i, i, -2 * factor, factor);
    }
  }

  // The level parameter is only handed down.  The factor is a signed byte in the program;
  // the bounds keep twice the factor within one.
  method Zoom(s: Store, i: int, level: int, factor: int) returns (o: Outcome)
    requires s.Valid() && Ref(s.Table(), i, level) && -64 <= factor <= 63 && level + 2 * factor <= LEVELS_MAX
    modifies s, s.nodes, s.hashMap
    ensures s.Valid() && Extends(old(s.Table()), s.Table())
    ensures if o.Exit? then s.next == NODES_MAX
            else Zooms(s.Table(), i, o.value, factor) && Ref(s.Table(), o.value, ZoomLevel(s.nodes[i].level, factor))
    decreases i
  {
    ghost var t := s.Table();
    LeafIsLevelZero(t, i);
    var f := 2 * factor;
    var current := s.nodes[i].level;
    if current == 0 {
      ZoomsLeaf(t, i, factor);
      return Ret(i);
    }
    assert GoodNode(t, i);
    if f < 0 && current + f <= 0 {
      ZoomedOutBase(t, i, -factor);
      ZoomsFrom(t, i, WHITE, -f, factor);
      return Ret(if i == 0 then i else WHITE);
    }
    var left, right := s.nodes[i].left, s.nodes[i].right;
    var a :- Zoom(s, left, level, factor);
    ghost var t1 := s.Table();
    var b :- Zoom(s, right, level, factor);
    o := JoinZoomed(s, t1, i, a, b, factor);
  }

  method JoinZoomed(s: Store, ghost t1: Table, i: int, a: int, b: int, factor: int) returns (o: Outcome)
    requires s.Valid() && Reduced(t1) && Extends(t1, s.Table()) && LEAVES <= i < |t1|
    requires 0 < s.nodes[i].level + 2 * factor <= LEVELS_MAX
    requires 0 <= t1[i].left < i && Zooms(t1, t1[i].left, a, factor)
    requires 0 <= t1[i].right < i && Zooms(s.Table(), t1[i].right, b, factor)
    requires Ref(t1, a, s.nodes[i].level + 2 * factor - 1) && Ref(s.Table(), b, s.nodes[i].level + 2 * factor - 1)
    modifies s, s.nodes, s.hashMap
    ensures s.Valid() && Extends(old(s.Table()), s.Table())
    ensures if o.Exit? then s.next == NODES_MAX
            else Zooms(s.Table(), i, o.value, factor) && Ref(s.Table(), o.value, s.nodes[i].level + 2 * factor)
  {
    ghost var t2 := s.Table();
    ZoomsExtends(t1, t2, t1[i].left, a, factor);
    o := s.Join(s.nodes[i].level + 2 * factor, a, b);
    if o.Ret? {
      ghost var u := s.Table();
      ZoomsExtends(t2, u, t1[i].left, a, factor);
      ZoomsExtends(t2, u, t1[i].right, b, factor);
      ZoomsJoin(u, i, o.value, a, b, factor);
    }
  }

  // ----- what zooming means for the caller -----

  // Zooming by zero gives the same index.
  lemma ZoomByZero(t: Table, i: int, j: int, l: nat)
    requires ValidTable(t) && ZoomedIn(t, i, j, l, 0)
    ensures j == i
  {
    forall r, c | InRange(l, r, c)
      ensures Pix(t, j, l, r, c) == Pix(t, i, l, r, c)
    {
      assert RepeatsPixel(t, i, j, l, 0, r, c);
    }
    Canonicity(t, j, i, l);
  }

  lemma RepeatedBlock(t: Table, i: int, j: int, l: nat, k: nat, r: int, c: int)
    requires Reduced(t) && ZoomedIn(t, i, j, l, k) && InRange(l, r, c)
    ensures BlockIs(t, j, l + 2 * k, k, r, c, Pix(t, i, l, r, c))
  {
    var n, p := l + 2 * k, Pow2(k);
    forall y, x | InRange(n, y, x) && InBlock(k, r, c, y, x)
      ensures Pix(t, j, n, y, x) == Pix(t, i, l, r, c)
    {
      assert RepeatsPixel(t, i, j, l, k, y, x);
      DivModUnique(y, r, y - r * p, p);
      DivModUnique(x, c, x - c * p, p);
    }
  }

  // Zooming in and back out by the same factor gives the same index.
  lemma ZoomInThenOut(t: Table, i: int, j: int, m: int, l: nat, k: nat)
    requires ValidTable(t) && ZoomedIn(t, i, j, l, k) && ZoomedOut(t, j, m, l + 2 * k, k)
    ensures m == i
  {
    var n := l + 2 * k;
    assert n - 2 * k == l;
    forall r, c | InRange(l, r, c)
      ensures Pix(t, m, l, r, c) == Pix(t, i, l, r, c)
    {
      assert ShrunkPixel(t, j, m, n, k, r, c);
      RepeatedBlock(t, i, j, l, k, r, c);
      BlockCorner(n, k, r, c);
    }
    Canonicity(t, m, i, l);
  }

  // The method calls: zooming in and back out in one table that grows meanwhile.
  method ZoomInAndOut(s: Store, i: int, level: nat, k: nat) returns (o: Outcome)
    requires s.Valid() && Ref(s.Table(), i, level) && k <= 63 && level + 2 * k <= LEVELS_MAX
    modifies s, s.nodes, s.hashMap
    ensures s.Valid() && Extends(old(s.Table()), s.Table())
    ensures if o.Exit? then s.next == NODES_MAX else o.value == i
  {
    var factor: int := k;
    var j :- Zoom(s, i, level, factor);
    ghost var t1 := s.Table();
    var m :- Zoom(s, j, level + 2 * k, -factor);
    ghost var t2 := s.Table();
    ZoomsExtends(t1, t2, i, j, factor);
    InAndOut(t2, i, j, m, level, k, factor);
    o := Ret(m);
  }

  lemma InAndOut(t: Table, i: int, j: int, m: int, l: nat, k: nat, factor: int)
    requires ValidTable(t) && Ref(t, i, l) && factor == k
    requires Zooms(t, i, j, factor) && Zooms(t, j, m, -factor)
    ensures m == i
  {
    assert ZoomedIn(t, i, j, l, k);
    if k == 0 {
      ZoomByZero(t, i, j, l);
      assert ZoomedIn(t, j, m, l, 0);
      ZoomByZero(t, j, m, l);
    } else {
      assert ZoomedOut(t, j, m, l + 2 * k, k);
      ZoomInThenOut(t, i, j, m, l, k);
    }
  }

  // ----- zooming out twice -----

  // A constant block turns into its value.
  lemma BlockValue(t: Table, i: int, l: nat, k: nat, r: int, c: int, v: int, p: int)
    requires Reduced(t) && Ref(t, i, l) && 2 * k <= l && InRange(l - 2 * k, r, c)
    requires BlockIs(t, i, l, k, r, c, v) && BlockPixel(t, i, l, k, r, c, p)
    ensures p == v
  {
    BlockCorner(l, k, r, c);
  }

  // Along one coordinate: a span of s starting at r * s is q spans of p.
  lemma SubSpan(y: nat, r: nat, q: nat, p: nat, s: nat)
    requires p > 0 && s == q * p
    ensures r * s <= y < r * s + s <==> r * q <= y / p < r * q + q
    ensures y / p * p <= y < y / p * p + p
  {
    assert r * s == (r * q) * p;
    assert (r * q + q) * p == (r * q) * p + q * p;
    DividedHalf(y, r * q, p);
    DividedHalf(y, r * q + q, p);
  }

  // A pixel is in a block of side 2^(j+k) exactly if its block of side 2^j is one of that block's.
  lemma SubBlock(l: nat, j: nat, k: nat, r: int, c: int, y: int, x: int)
    requires 2 * (j + k) <= l && InRange(l - 2 * (j + k), r, c) && InRange(l, y, x)
    ensures var y', x' := y / Pow2(j), x / Pow2(j);
            && InRange(l - 2 * j, y', x') && InBlock(j, y', x', y, x)
            && (InBlock(j + k, r, c, y, x) <==> InBlock(k, r, c, y', x'))
  {
    Pow2Add(k, j);
    SubSpan(y, r, Pow2(k), Pow2(j), Pow2(j + k));
    SubSpan(x, c, Pow2(k), Pow2(j), Pow2(j + k));
    BlocksInRange(l, j, y, x);
  }

  lemma BlocksInRange(l: nat, j: nat, y: nat, x: nat)
    requires 2 * j <= l && InRange(l, y, x)
    ensures InRange(l - 2 * j, y / Pow2(j), x / Pow2(j))
  {
    var n := l - 2 * j;
    ScaledSides(n, j);
    DividedHalf(y, Height(n), Pow2(j));
    DividedHalf(x, Width(n), Pow2(j));
  }

  // A block is constant exactly if the blocks in it are, with one value.
  lemma ConstantBlocks(t: Table, i: int, l: nat, j: nat, k: nat, r: int, c: int, v: int)
    requires Reduced(t) && Ref(t, i, l) && 2 * (j + k) <= l && InRange(l - 2 * (j + k), r, c)
    ensures BlockIs(t, i, l, j + k, r, c, v) <==>
            forall y, x | InRange(l - 2 * j, y, x) && InBlock(k, r, c, y, x) :: BlockIs(t, i, l, j, y, x, v)
  {
    if BlockIs(t, i, l, j + k, r, c, v) {
      forall y, x, y1, x1 | InRange(l - 2 * j, y, x) && InBlock(k, r, c, y, x) && InRange(l, y1, x1) && InBlock(j, y, x, y1, x1)
        ensures Pix(t, i, l, y1, x1) == v
      {
        var p := Pow2(j);
        DivModUnique(y1, y, y1 - y * p, p);
        DivModUnique(x1, x, x1 - x * p, p);
        SubBlock(l, j, k, r, c, y1, x1);
      }
    }
    if forall y, x | InRange(l - 2 * j, y, x) && InBlock(k, r, c, y, x) :: BlockIs(t, i, l, j, y, x, v) {
      forall y, x | InRange(l, y, x) && InBlock(j + k, r, c, y, x)
        ensures Pix(t, i, l, y, x) == v
      {
        SubBlock(l, j, k, r, c, y, x);
        assert BlockIs(t, i, l, j, y / Pow2(j), x / Pow2(j), v);
      }
    }
  }

  lemma TwicePixel(t: Table, i: int, a: int, b: int, d: int, l: nat, j: nat, k: nat, r: int, c: int)
    requires Reduced(t) && 2 * (j + k) <= l && InRange(l - 2 * (j + k), r, c)
    requires ZoomedOut(t, i, a, l, j) && ZoomedOut(t, a, b, l - 2 * j, k) && ZoomedOut(t, i, d, l, j + k)
    ensures Pix(t, b, l - 2 * (j + k), r, c) == Pix(t, d, l - 2 * (j + k), r, c)
  {
    var m, n, jk := l - 2 * j, l - 2 * (j + k), j + k;
    assert m - 2 * k == n;
    var p, q := Pix(t, b, n, r, c), Pix(t, d, n, r, c);
    assert ShrunkPixel(t, a, b, m, k, r, c) && ShrunkPixel(t, i, d, l, j + k, r, c);
    if v :| BlockIs(t, i, l, jk, r, c, v) {
      ConstantBlocks(t, i, l, j, k, r, c, v);
      BlockValue(t, i, l, j + k, r, c, v, q);
      forall y, x | InRange(m, y, x) && InBlock(k, r, c, y, x)
        ensures Pix(t, a, m, y, x) == v
      {
        assert ShrunkPixel(t, i, a, l, j, y, x);
        BlockValue(t, i, l, j, y, x, v, Pix(t, a, m, y, x));
      }
      BlockValue(t, a, m, k, r, c, v, p);
    } else if p != WHITE {
      forall y, x | InRange(m, y, x) && InBlock(k, r, c, y, x)
        ensures BlockIs(t, i, l, j, y, x, p)
      {
        assert ShrunkPixel(t, i, a, l, j, y, x);
      }
      ConstantBlocks(t, i, l, j, k, r, c, p);
    }
  }

  // Zooming out twice gives the same index as zooming out once by the sum of the factors, although
  // a mixed block has turned white in between.
  lemma ZoomOutTwice(t: Table, i: int, a: int, b: int, d: int, l: nat, j: nat, k: nat)
    requires ValidTable(t) && 2 * (j + k) <= l
    requires ZoomedOut(t, i, a, l, j) && ZoomedOut(t, a, b, l - 2 * j, k) && ZoomedOut(t, i, d, l, j + k)
    ensures b == d
  {
    var n := l - 2 * (j + k);
    forall r, c | InRange(n, r, c)
      ensures Pix(t, b, n, r, c) == Pix(t, d, n, r, c)
    {
      TwicePixel(t, i, a, b, d, l, j, k, r, c);
    }
    Canonicity(t, b, d, n);
  }

  lemma BlockCorner(n: nat, k: nat, r: int, c: int)
    requires 2 * k <= n && InRange(n - 2 * k, r, c)
    ensures InRange(n, r * Pow2(k), c * Pow2(k)) && InBlock(k, r, c, r * Pow2(k), c * Pow2(k))
  {
    ScaledSides(n - 2 * k, k);
    HalfBlock(r, Height(n - 2 * k), Pow2(k));
    HalfBlock(c, Width(n - 2 * k), Pow2(k));
    MulNonNegative(r, Pow2(k));
    MulNonNegative(c, Pow2(k));
  }

  // A pixel of the result is black exactly when its block is black all over.
  lemma BlackBlocks(t: Table, i: int, j: int, l: nat, k: nat, r: int, c: int)
    requires Reduced(t) && ZoomedOut(t, i, j, l, k) && InRange(l - 2 * k, r, c)
    ensures Pix(t, j, l - 2 * k, r, c) == 0 <==> BlockIs(t, i, l, k, r, c, 0)
  {
    assert ShrunkPixel(t, i, j, l, k, r, c);
    BlockCorner(l, k, r, c);
  }

  // The header asks for black where the block is all black and white elsewhere.  The code
  // does that at a pixel if and only if its block is not constant in some grey.
  ghost predicate Grey(v: int) { 0 < v < WHITE }

  lemma GreyBlocksStayGrey(t: Table, i: int, j: int, l: nat, k: nat, r: int, c: int)
    requires Reduced(t) && ZoomedOut(t, i, j, l, k) && InRange(l - 2 * k, r, c)
    ensures Pix(t, j, l - 2 * k, r, c) == (if BlockIs(t, i, l, k, r, c, 0) then 0 else WHITE)
            <==> forall v | Grey(v) :: !BlockIs(t, i, l, k, r, c, v)
  {
    assert ShrunkPixel(t, i, j, l, k, r, c);
    BlockCorner(l, k, r, c);
    var y, x := r * Pow2(k), c * Pow2(k);
    var p := Pix(t, j, l - 2 * k, r, c);
    forall v | BlockIs(t, i, l, k, r, c, v)
      ensures v == Pix(t, i, l, y, x) && p == v
    {}
    assert Grey(p) ==> BlockIs(t, i, l, k, r, c, p);
  }

  // A grey leaf is such a block.
  lemma GreyLeafExample(t: Table)
    requires ValidTable(t)
    ensures ZoomedOut(t, 100, 100, 2, 1) && !BlockIs(t, 100, 2, 1, 0, 0, 0) && Pix(t, 100, 0, 0, 0) != WHITE
  {
    ZoomedOutBase(t, 100, 1);
    LeafUniform(t, 100, 2);
    BlockCorner(2, 1, 0, 0);
    assert InRange(2, 0, 0);
  }
}
