/** Rasters into nodes and back: bdd_min_level, bdd_from_raster, bdd_apply, bdd_to_raster. */
module BddRaster {
  import opened Common
  import opened Powers
  import opened BddTable
  import opened BddStore

  // ----- the least power of two that covers a side -----

  function Exponent(w: int): nat
    decreases if w > 0 then w else 0
  {
    if w <= 1 then 0 else 1 + Exponent((w + 1) / 2)
  }

  ghost predicate Covers(w: int, e: nat) {
    w <= Pow2(e) && (e > 0 ==> w > Pow2(e - 1))
  }

  lemma {:induction false} ExponentCovers(w: int)
    ensures Covers(w, Exponent(w))
    decreases if w > 0 then w else 0
  {
    if w > 1 {
      ExponentCovers((w + 1) / 2);
    }
  }

  // Covers determines its exponent, so a search from below finds Exponent.
  lemma CoversUnique(w: int, e: nat)
    requires Covers(w, e)
    ensures e == Exponent(w)
  {
    ExponentCovers(w);
    var f := Exponent(w);
    if e < f { Pow2Monotone(e, f - 1); }
    if f < e { Pow2Monotone(f, e - 1); }
  }

  method MinLevel(w: int, h: int) returns (l: nat)
    ensures l == Exponent(w) + Exponent(h)
  {
    var widthLevel, heightLevel := 0, 0;
    while w > Pow2(widthLevel)
      invariant widthLevel > 0 ==> w > Pow2(widthLevel - 1)
      decreases w - Pow2(widthLevel)
    {
      widthLevel := widthLevel + 1;
    }
    while h > Pow2(heightLevel)
      invariant heightLevel > 0 ==> h > Pow2(heightLevel - 1)
      decreases h - Pow2(heightLevel)
    {
      heightLevel := heightLevel + 1;
    }
    CoversUnique(w, widthLevel);
    CoversUnique(h, heightLevel);
    l := widthLevel + heightLevel;
  }

  // The header promises the least l with w and h at most 2^(l/2).  The code returns it if
  // and only if both sides need the same power of two.
  ghost predicate Enclosing(w: int, h: int, l: nat) {
    w <= Pow2(l / 2) && h <= Pow2(l / 2)
  }

  lemma LeastEnclosing(w: int, h: int, m: nat)
    requires m == if Exponent(w) >= Exponent(h) then Exponent(w) else Exponent(h)
    ensures forall l: nat | l / 2 >= m :: Enclosing(w, h, l)
    ensures forall l: nat | Enclosing(w, h, l) :: 2 * m <= l
  {
    var a, b := Exponent(w), Exponent(h);
    ExponentCovers(w); ExponentCovers(h);
    forall l: nat | l / 2 >= m
      ensures Enclosing(w, h, l)
    {
      Pow2Monotone(a, l / 2); Pow2Monotone(b, l / 2);
    }
    forall l: nat | Enclosing(w, h, l)
      ensures 2 * m <= l
    {
      if l / 2 < m { Pow2Monotone(l / 2, m - 1); }
    }
  }

  lemma MinLevelAsDocumented(w: int, h: int)
    ensures Enclosing(w, h, Exponent(w) + Exponent(h)) && (forall l: nat | Enclosing(w, h, l) :: Exponent(w) + Exponent(h) <= l)
            <==> Exponent(w) == Exponent(h)
  {
    var a, b := Exponent(w), Exponent(h);
    var m := if a >= b then a else b;
    LeastEnclosing(w, h, m);
    assert 2 * m / 2 == m && Enclosing(w, h, 2 * m);
  }

  lemma MinLevelDiffers()
    ensures Exponent(4) + Exponent(1) == 2 && !Enclosing(4, 1, 2)
  {
    assert Pow2(1) == 2;
  }

  lemma ExponentOfPower(e: nat)
    ensures Exponent(Pow2(e)) == e
  {
    CoversUnique(Pow2(e), e);
  }

  lemma LevelOfSides(l: nat)
    ensures Exponent(Width(l)) + Exponent(Height(l)) == l
  {
    Shape(l);
    ExponentOfPower(l / 2);
    ExponentOfPower(l - l / 2);
  }

  lemma {:induction false} SidesByParity(l: nat)
    ensures if l % 2 == 0 then Width(l) == Height(l) else Width(l) == 2 * Height(l)
    ensures l > 0 ==> Width(l) * Height(l) > 1
  {
    Shape(l);
    if l % 2 == 1 {
      assert l - l / 2 == l / 2 + 1;
    }
    if l > 0 {
      Pow2Monotone(1, l - l / 2);
      assert Width(l) >= 2;
      ProductAtLeast(Width(l), Height(l));
    }
  }

  lemma ProductAtLeast(a: int, b: int)
    requires a >= 2 && b >= 1
    ensures a * b > 1
  {
    MulLess(1, a, b);
  }

  // ----- from a raster -----

  // The raster extended with black.
  ghost function At(w: int, h: int, raster: seq<Byte>, r: int, c: int): Byte
    requires r >= 0 && c >= 0 && (w > 0 && h > 0 ==> |raster| >= w * h)
  {
    if r < h && c < w then IndexInRaster(w, h, r, c); raster[r * w + c] else 0
  }

  lemma IndexInRaster(w: int, h: int, r: int, c: int)
    requires 0 <= r < h && 0 <= c < w
    ensures 0 <= r * w + c < w * h
  {
    MulLess(r, h, w);
    MulNonNegative(r, w);
  }

  // Node j read at level l shows the part of the raster whose corner is (top, left).
  ghost predicate Shows(t: Table, j: int, l: nat, w: int, h: int, raster: seq<Byte>, top: int, left: int)
    requires Reduced(t) && top >= 0 && left >= 0 && (w > 0 && h > 0 ==> |raster| >= w * h)
  {
    && Ref(t, j, l)
    && forall r, c | InRange(l, r, c) :: Pix(t, j, l, r, c) == At(w, h, raster, top + r, left + c)
  }

  lemma ShowsExtends(t: Table, u: Table, j: int, l: nat, w: int, h: int, raster: seq<Byte>, top: int, left: int)
    requires Reduced(t) && Reduced(u) && Extends(t, u)
    requires top >= 0 && left >= 0 && (w > 0 && h > 0 ==> |raster| >= w * h)
    requires Shows(t, j, l, w, h, raster, top, left)
    ensures Shows(u, j, l, w, h, raster, top, left)
  {
    forall r, c | InRange(l, r, c)
      ensures Pix(u, j, l, r, c) == At(w, h, raster, top + r, left + c)
    {
      PixExtends(t, u, j, l, r, c);
    }
  }

  lemma ShowsJoin(t: Table, j: int, l: nat, a: int, b: int, w: int, h: int, raster: seq<Byte>, top: int, left: int)
    requires Reduced(t) && top >= 0 && left >= 0 && (w > 0 && h > 0 ==> |raster| >= w * h)
    requires Joins(t, j, l, a, b)
    requires Shows(t, a, l - 1, w, h, raster, top, left)
    requires if l % 2 == 0 then Shows(t, b, l - 1, w, h, raster, top + Height(l - 1), left)
             else Shows(t, b, l - 1, w, h, raster, top, left + Width(l - 1))
    ensures Shows(t, j, l, w, h, raster, top, left)
  {
    forall r, c | InRange(l, r, c)
      ensures Pix(t, j, l, r, c) == At(w, h, raster, top + r, left + c)
    {
      if l % 2 == 0 && r >= Height(l - 1) {
        assert top + Height(l - 1) + (r - Height(l - 1)) == top + r;
      } else if l % 2 == 1 && c >= Width(l - 1) {
        assert left + Width(l - 1) + (c - Width(l - 1)) == left + c;
      }
    }
  }

  method Split(s: Store, startWidth: int, endWidth: int, startHeight: int, endHeight: int,
               w: int, h: int, raster: seq<Byte>, ghost l: nat) returns (o: Outcome)
    requires s.Valid() && startWidth >= 0 && startHeight >= 0 && (w > 0 && h > 0 ==> |raster| >= w * h)
    requires endWidth - startWidth == Width(l) && endHeight - startHeight == Height(l)
    modifies s, s.nodes, s.hashMap
    ensures s.Valid() && Extends(old(s.Table()), s.Table())
    ensures o.Exit? ==> s.next == NODES_MAX
    ensures o.Ret? ==> if l <= LEVELS_MAX then Shows(s.Table(), o.value, l, w, h, raster, startHeight, startWidth)
                       else o.value == NULL
    decreases l, 1
  {
    LevelOfSides(l);
    SidesByParity(l);
    var width, height := endWidth - startWidth, endHeight - startHeight;
    var level := MinLevel(width, height);
    if width * height == 1 {
      LeafUniform(s.Table(), 0, 0);
      if startHeight < h && startWidth < w {
        IndexInRaster(w, h, startHeight, startWidth);
        return Ret(raster[startHeight * w + startWidth]);
      }
      return Ret(0);
    }
    if width > height {
      o := SplitColumns(s, startWidth, endWidth, startHeight, endHeight, level, w, h, raster);
    } else {
      o := SplitRows(s, startWidth, endWidth, startHeight, endHeight, level, w, h, raster);
    }
  }

  method SplitColumns(s: Store, startWidth: int, endWidth: int, startHeight: int, endHeight: int, l: nat,
                      w: int, h: int, raster: seq<Byte>) returns (o: Outcome)
    requires s.Valid() && startWidth >= 0 && startHeight >= 0 && (w > 0 && h > 0 ==> |raster| >= w * h)
    requires endWidth - startWidth == Width(l) && endHeight - startHeight == Height(l) && l % 2 == 1
    modifies s, s.nodes, s.hashMap
    ensures s.Valid() && Extends(old(s.Table()), s.Table())
    ensures o.Exit? ==> s.next == NODES_MAX
    ensures o.Ret? ==> if l <= LEVELS_MAX then Shows(s.Table(), o.value, l, w, h, raster, startHeight, startWidth)
                       else o.value == NULL
    decreases l, 0
  {
    var width := (endWidth - startWidth) / 2;
    var left :- Split(s, startWidth, startWidth + width, startHeight, endHeight, w, h, raster, l - 1);
    ghost var t1 := s.Table();
    var right :- Split(s, startWidth + width, endWidth, startHeight, endHeight, w, h, raster, l - 1);
    o := JoinShown(s, t1, l, left, right, w, h, raster, startHeight, startWidth);
  }

  method SplitRows(s: Store, startWidth: int, endWidth: int, startHeight: int, endHeight: int, l: nat,
                   w: int, h: int, raster: seq<Byte>) returns (o: Outcome)
    requires s.Valid() && startWidth >= 0 && startHeight >= 0 && (w > 0 && h > 0 ==> |raster| >= w * h)
    requires endWidth - startWidth == Width(l) && endHeight - startHeight == Height(l) && l % 2 == 0 && l > 0
    modifies s, s.nodes, s.hashMap
    ensures s.Valid() && Extends(old(s.Table()), s.Table())
    ensures o.Exit? ==> s.next == NODES_MAX
    ensures o.Ret? ==> if l <= LEVELS_MAX then Shows(s.Table(), o.value, l, w, h, raster, startHeight, startWidth)
                       else o.value == NULL
    decreases l, 0
  {
    var height := (endHeight - startHeight) / 2;
    var top :- Split(s, startWidth, endWidth, startHeight, startHeight + height, w, h, raster, l - 1);
    ghost var t1 := s.Table();
    var bottom :- Split(s, startWidth, endWidth, startHeight + height, endHeight, w, h, raster, l - 1);
    o := JoinShown(s, t1, l, top, bottom, w, h, raster, startHeight, startWidth);
  }

  // The lookup that ends both branches; a level out of bounds makes it return -1.
  method JoinShown(s: Store, ghost t1: Table, l: nat, a: int, b: int,
                   ghost w: int, ghost h: int, ghost raster: seq<Byte>, ghost top: int, ghost left: int)
    returns (o: Outcome)
    requires s.Valid() && l > 0 && top >= 0 && left >= 0 && (w > 0 && h > 0 ==> |raster| >= w * h)
    requires Reduced(t1) && Extends(t1, s.Table())
    requires l <= LEVELS_MAX ==> Shows(t1, a, l - 1, w, h, raster, top, left)
    requires l <= LEVELS_MAX ==>
               if l % 2 == 0 then Shows(s.Table(), b, l - 1, w, h, raster, top + Height(l - 1), left)
               else Shows(s.Table(), b, l - 1, w, h, raster, top, left + Width(l - 1))
    modifies s, s.nodes, s.hashMap
    ensures s.Valid() && Extends(old(s.Table()), s.Table())
    ensures o.Exit? ==> s.next == NODES_MAX
    ensures o.Ret? ==> if l <= LEVELS_MAX then Shows(s.Table(), o.value, l, w, h, raster, top, left)
                       else o.value == NULL
  {
    ghost var t2 := s.Table();
    if l > LEVELS_MAX {
      o := s.Lookup(l, a, b);
      return;
    }
    ShowsExtends(t1, t2, a, l - 1, w, h, raster, top, left);
    o := s.Join(l, a, b);
    if o.Ret? {
      ghost var u := s.Table();
      ShowsExtends(t2, u, a, l - 1, w, h, raster, top, left);
      if l % 2 == 0 {
        ShowsExtends(t2, u, b, l - 1, w, h, raster, top + Height(l - 1), left);
      } else {
        ShowsExtends(t2, u, b, l - 1, w, h, raster, top, left + Width(l - 1));
      }
      ShowsJoin(u, o.value, l, a, b, w, h, raster, top, left);
    }
  }

  ghost function SquareExponent(w: int, h: int): nat {
    if Exponent(w) >= Exponent(h) then Exponent(w) else Exponent(h)
  }

  // NULL for an empty width and for squares beyond level 32; otherwise the smallest
  // enclosing square, black outside the raster.
  method FromRaster(s: Store, w: int, h: int, raster: seq<Byte>) returns (o: Outcome)
    requires s.Valid() && (w > 0 && h > 0 ==> |raster| >= w * h)
    modifies s, s.nodes, s.hashMap
    ensures s.Valid() && Extends(old(s.Table()), s.Table())
    ensures o.Exit? ==> s.next == NODES_MAX
    ensures o.Ret? ==> var l := 2 * SquareExponent(w, h);
                       if w > 0 && l <= 32 then
                         && Shows(s.Table(), o.value, l, w, h, raster, 0, 0)
                         && forall r, c | InRange(l, r, c) && (r >= h || c >= w) :: Pix(s.Table(), o.value, l, r, c) == 0
                       else o.value == NULL
  {
    if w <= 0 || w <= 0 {
      return Ret(NULL);
    }
    var square := 0;
    while !(w <= Pow2(square) && h <= Pow2(square))
      invariant square > 0 ==> w > Pow2(square - 1) || h > Pow2(square - 1)
      decreases (if w > h then w else h) - Pow2(square)
    {
      square := square + 1;
    }
    SquareFound(w, h, square);
    SquareSides(square);
    var side := Pow2(square);
    o := Split(s, 0, side, 0, side, w, h, raster, 2 * square);
    if o.Ret? && 2 * square <= LEVELS_MAX {
      forall r, c | InRange(2 * square, r, c) && (r >= h || c >= w)
        ensures Pix(s.Table(), o.value, 2 * square, r, c) == 0
      {
        assert At(w, h, raster, 0 + r, 0 + c) == 0;
      }
    }
  }

  lemma SquareFound(w: int, h: int, d: nat)
    requires w <= Pow2(d) && h <= Pow2(d) && (d > 0 ==> w > Pow2(d - 1) || h > Pow2(d - 1))
    ensures d == SquareExponent(w, h)
  {
    var a, b := Exponent(w), Exponent(h);
    ExponentCovers(w); ExponentCovers(h);
    if a < d { Pow2Monotone(a, d - 1); }
    if b < d { Pow2Monotone(b, d - 1); }
    if a > d { Pow2Monotone(d, a - 1); }
    if b > d { Pow2Monotone(d, b - 1); }
  }

  // Without a height every pixel is outside of the raster: the image is black, not an error.
  lemma NoRows(t: Table, j: int, l: nat, w: int, h: int, raster: seq<Byte>)
    requires ValidTable(t) && h <= 0 && Shows(t, j, l, w, h, raster, 0, 0)
    ensures j == 0
  {
    forall r, c | InRange(l, r, c)
      ensures Pix(t, j, l, r, c) == Pix(t, 0, l, r, c)
    {
      assert Pix(t, j, l, r, c) == At(w, h, raster, 0 + r, 0 + c);
      LeafUniform(t, 0, l);
    }
    LeafUniform(t, 0, l);
    Canonicity(t, j, 0, l);
  }

  // Width 1 and height 0 give the black leaf; height 1 and width 0 give null.
  method NoHeightNoWidth(s: Store) returns (tall: Outcome, wide: Outcome)
    requires s.Valid()
    modifies s, s.nodes, s.hashMap
    ensures tall.Ret? ==> tall.value == 0
    ensures wide.Ret? ==> wide.value == NULL
  {
    assert Exponent(1) == 0 && Exponent(0) == 0;
    tall := FromRaster(s, 1, 0, []);
    if tall.Ret? { NoRows(s.Table(), tall.value, 0, 1, 0, []); }
    wide := FromRaster(s, 0, 1, []);
  }

  // ----- one pixel -----

  // Coordinates are in the range of the node's own level.
  method Apply(s: Store, i: int, r: int, c: int) returns (p: Byte)
    requires s.Valid() && 0 <= i < s.next && InRange(s.nodes[i].level, r, c)
    ensures p == Pix(s.Table(), i, s.nodes[i].level, r, c)
  {
    ghost var t := s.Table();
    LeafIsLevelZero(t, i);
    var level := s.nodes[i].level;
    if level == 0 { return i; }
    ghost var own := level;
    Shape(level);
    var left, top, right, bottom := 0, 0, Pow2(level - level / 2), Pow2(level / 2);
    var current := i;
    while true
      invariant Seeking(t, i, own, r, c, current, level, top, left) && LEAVES <= current
      invariant bottom == top + Height(level) && right == left + Width(level)
      decreases level
    {
      var node := s.nodes[current];
      ghost var top0, left0 := top, left;
      var low;
      low, left, top, right, bottom := Halve(level, left, top, right, bottom, r, c);
      var next := if low then node.left else node.right;
      SeekDown(t, i, own, r, c, current, level, top0, left0, low, top, left);
      if next < LEAVES && level == node.level {
        LeafUniform(t, next, level - 1);
        return next;
      }
      if level == node.level {
        current := next;
      }
      LeafIsLevelZero(t, current);
      level := level - 1;
    }
  }

  // The pixel sought in i is the one at (r - top, c - left) of current, read at this level.
  ghost predicate Seeking(t: Table, i: int, own: nat, r: int, c: int, current: int, level: nat, top: int, left: int)
    requires Reduced(t) && Ref(t, i, own) && InRange(own, r, c)
  {
    && Ref(t, current, level) && InRange(level, r - top, c - left)
    && Pix(t, i, own, r, c) == Pix(t, current, level, r - top, c - left)
  }

  lemma SeekDown(t: Table, i: int, own: nat, r: int, c: int, current: int, level: nat, top: int, left: int, low: bool, top': int, left': int)
    requires Reduced(t) && Ref(t, i, own) && InRange(own, r, c) && level > 0
    requires Seeking(t, i, own, r, c, current, level, top, left) && InRange(level - 1, r - top', c - left')
    requires low == if level % 2 == 0 then r - top < Height(level - 1) else c - left < Width(level - 1)
    requires top' == (if level % 2 == 0 && !low then top + Height(level - 1) else top)
    requires left' == (if level % 2 == 1 && !low then left + Width(level - 1) else left)
    ensures Seeking(t, i, own, r, c, if low then Lo(t, current, level) else Hi(t, current, level), level - 1, top', left')
  {
    PixStep(t, current, level, r - top, c - left, if low then Lo(t, current, level) else Hi(t, current, level), r - top', c - left');
  }

  // One bisection: the columns at an odd level, the rows at an even one.
  method Halve(level: nat, left: int, top: int, right: int, bottom: int, r: int, c: int)
    returns (low: bool, left': int, top': int, right': int, bottom': int)
    requires level > 0 && bottom == top + Height(level) && right == left + Width(level)
    requires InRange(level, r - top, c - left)
    ensures bottom' == top' + Height(level - 1) && right' == left' + Width(level - 1)
    ensures InRange(level - 1, r - top', c - left')
    ensures low == if level % 2 == 0 then r - top < Height(level - 1) else c - left < Width(level - 1)
    ensures top' == (if level % 2 == 0 && !low then top + Height(level - 1) else top)
    ensures left' == (if level % 2 == 1 && !low then left + Width(level - 1) else left)
  {
    left', top', right', bottom' := left, top, right, bottom;
    if level % 2 == 1 {
      var mid := (right + left) / 2;
      low := c < mid;
      if low { right' := mid; } else { left' := mid; }
    } else {
      var mid := (bottom + top) / 2;
      low := r < mid;
      if low { bottom' := mid; } else { top' := mid; }
    }
  }

  // One level down: the child on the side of the coordinates.
  lemma PixStep(t: Table, i: int, l: nat, r: int, c: int, j: int, r': int, c': int)
    requires Reduced(t) && l > 0 && Ref(t, i, l) && InRange(l, r, c)
    requires var low := if l % 2 == 0 then r < Height(l - 1) else c < Width(l - 1);
             && j == (if low then Lo(t, i, l) else Hi(t, i, l))
             && r' == (if l % 2 == 0 && !low then r - Height(l - 1) else r)
             && c' == (if l % 2 == 1 && !low then c - Width(l - 1) else c)
    ensures Ref(t, j, l - 1) && InRange(l - 1, r', c') && Pix(t, i, l, r, c) == Pix(t, j, l - 1, r', c')
  {}

  // ----- back to a raster -----

  // What bdd_to_raster leaves in the first w * h bytes.
  ghost predicate Rasterized(t: Table, i: int, w: nat, h: nat, out: seq<Byte>)
    requires Reduced(t) && 0 <= i < |t| && |out| >= w * h
  {
    forall r, c | 0 <= r < h && 0 <= c < w :: PixelOut(t, i, w, h, out, r, c)
  }

  ghost predicate PixelOut(t: Table, i: int, w: nat, h: nat, out: seq<Byte>, r: int, c: int)
    requires Reduced(t) && 0 <= i < |t| && |out| >= w * h && 0 <= r < h && 0 <= c < w
  {
    IndexInRaster(w, h, r, c);
    var l := t[i].level;
    out[r * w + c] == Pix(t, i, l, r % Height(l), c % Width(l))
  }

  method ToRaster(s: Store, i: int, w: nat, h: nat, raster: array<Byte>)
    requires s.Valid() && 0 <= i < s.next && raster.Length >= w * h
    modifies raster
    ensures s.Valid() && s.Table() == old(s.Table())
    ensures Rasterized(s.Table(), i, w, h, raster[..]) && raster[w * h..] == old(raster[w * h..])
  {
    ghost var t := s.Table();
    var level := s.nodes[i].level;
    Shape(level);
    var widthBound, heightBound := Pow2(level - level / 2), Pow2(level / 2);
    var current := 0;
    for row := 0 to h
      invariant current == row * w
      invariant s.Valid() && s.Table() == t
      invariant DoneTo(t, i, w, h, raster[..], row, 0) && raster[w * h..] == old(raster[w * h..])
    {
      for col := 0 to w
        invariant current == row * w + col
        invariant s.Valid() && s.Table() == t
        invariant DoneTo(t, i, w, h, raster[..], row, col) && raster[w * h..] == old(raster[w * h..])
      {
        PutPixel(s, i, w, h, raster, row, col, current, row % heightBound, col % widthBound);
        current := current + 1;
      }
    }
  }

  method PutPixel(s: Store, i: int, w: nat, h: nat, raster: array<Byte>, row: nat, col: nat, current: int, r: int, c: int)
    requires s.Valid() && 0 <= i < s.next && raster.Length >= w * h && row < h && col < w && current == row * w + col
    requires r == row % Height(s.nodes[i].level) && c == col % Width(s.nodes[i].level)
    requires DoneTo(s.Table(), i, w, h, raster[..], row, col)
    modifies raster
    ensures s.Valid() && s.Table() == old(s.Table())
    ensures DoneTo(s.Table(), i, w, h, raster[..], row, col + 1) && raster[w * h..] == old(raster[w * h..])
  {
    ghost var t, before := s.Table(), raster[..];
    IndexInRaster(w, h, row, col);
    var p := Apply(s, i, r, c);
    raster[current] := p;
    WritePixel(t, i, w, h, before, row, col, p);
    assert raster[..] == before[current := p];
  }

  // All pixels before (row, col) are written.
  ghost predicate DoneTo(t: Table, i: int, w: nat, h: nat, out: seq<Byte>, row: nat, col: nat)
    requires Reduced(t) && 0 <= i < |t| && |out| >= w * h
  {
    forall r, c | 0 <= r < h && 0 <= c < w && (r < row || (r == row && c < col)) :: PixelOut(t, i, w, h, out, r, c)
  }

  lemma WritePixel(t: Table, i: int, w: nat, h: nat, out: seq<Byte>, row: nat, col: nat, p: Byte)
    requires Reduced(t) && 0 <= i < |t| && |out| >= w * h && row < h && col < w
    requires DoneTo(t, i, w, h, out, row, col)
    requires var l := t[i].level; p == Pix(t, i, l, row % Height(l), col % Width(l))
    ensures 0 <= row * w + col < w * h
    ensures DoneTo(t, i, w, h, out[row * w + col := p], row, col + 1)
  {
    IndexInRaster(w, h, row, col);
    var after := out[row * w + col := p];
    forall r, c | 0 <= r < h && 0 <= c < w && (r < row || (r == row && c < col + 1))
      ensures PixelOut(t, i, w, h, after, r, c)
    {
      if r < row || c < col {
        assert PixelOut(t, i, w, h, out, r, c);
        EarlierIndex(w, r, c, row, col);
        IndexInRaster(w, h, r, c);
      } else {
        assert r == row && c == col;
      }
    }
  }

  lemma EarlierIndex(w: nat, r: nat, c: nat, row: nat, col: nat)
    requires c < w && col < w && (r < row || (r == row && c < col))
    ensures r * w + c < row * w + col
  {
    if r < row { MulLess(r, row, w); }
  }

  // ----- there and back -----

  // The raster written from a node that shows a raster is that raster, whatever levels the
  // root of the node skipped.
  lemma RasterRoundTrip(t: Table, j: int, l: nat, w: nat, h: nat, raster: seq<Byte>, out: seq<Byte>)
    requires Reduced(t) && |raster| >= w * h && |out| >= w * h
    requires h <= Height(l) && w <= Width(l)
    requires Shows(t, j, l, w, h, raster, 0, 0) && Rasterized(t, j, w, h, out)
    ensures out[..w * h] == raster[..w * h]
  {
    assert w == 0 ==> w * h == 0;
    forall k | 0 <= k < w * h
      ensures out[k] == raster[k]
    {
      var r, c := k / w, k % w;
      RowOfIndex(w, h, k);
      assert PixelOut(t, j, w, h, out, r, c);
      LeafIsLevelZero(t, j);
      SkippedLevels(t, j, t[j].level, l, r, c);
      assert Pix(t, j, l, r, c) == At(w, h, raster, 0 + r, 0 + c);
    }
  }

  lemma RowOfIndex(w: nat, h: nat, k: int)
    requires 0 <= k < w * h && w > 0
    ensures 0 <= k / w < h && 0 <= k % w < w && k == (k / w) * w + k % w
  {
    DividedHalf(k, h, w);
  }

  method RoundTrip(s: Store, w: int, h: int, raster: seq<Byte>, out: array<Byte>) returns (o: Outcome)
    requires s.Valid() && w >= 1 && h >= 1 && |raster| >= w * h && out.Length >= w * h
    requires 2 * SquareExponent(w, h) <= LEVELS_MAX
    modifies s, s.nodes, s.hashMap, out
    ensures s.Valid() && Extends(old(s.Table()), s.Table())
    ensures if o.Exit? then s.next == NODES_MAX else out[..w * h] == raster[..w * h]
  {
    o := FromRaster(s, w, h, raster);
    if o.Ret? {
      ToRaster(s, o.value, w, h, out);
      var d := SquareExponent(w, h);
      ExponentCovers(w); ExponentCovers(h);
      Pow2Monotone(Exponent(w), d); Pow2Monotone(Exponent(h), d);
      SquareSides(d);
      RasterRoundTrip(s.Table(), o.value, 2 * d, w, h, raster, out[..]);
    }
  }
}
