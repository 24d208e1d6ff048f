/**
 The node table of the BDD engine as a value, and the image each of its nodes stands for.
 Indices below 256 are leaves and stand for their own pixel value.  A node of level l > 0
 has two children of smaller level; an even level splits the rows in two halves, an odd
 level the columns, and a level above the node's own splits the image into two copies.
 */
module BddTable {
  import opened Common
  import opened Powers

  const LEAVES: nat := 256
  const LEVELS_MAX: nat := 32
  const NODES_MAX: nat := 0x10_0000
  const WHITE: nat := 255

  datatype Node = Node(level: nat, left: int, right: int)

  type Table = seq<Node>

  ghost predicate GoodNode(t: Table, i: nat)
    requires i < |t|
  {
    && 1 <= t[i].level <= LEVELS_MAX
    && 0 <= t[i].left < i && 0 <= t[i].right < i
    && t[i].left != t[i].right
    && t[t[i].left].level < t[i].level
    && t[t[i].right].level < t[i].level
  }

  // Leaves are the zeroed entries below 256; every other node has two distinct older
  // children of lower level.
  ghost predicate Reduced(t: Table)
  {
    && LEAVES <= |t|
    && (forall i | 0 <= i < LEAVES :: t[i] == Node(0, 0, 0))
    && (forall i | LEAVES <= i < |t| :: GoodNode(t, i))
  }

  ghost predicate Inner(t: Table, i: int)
  {
    LEAVES <= i < |t|
  }

  // No two inner nodes have the same level and children.
  ghost predicate Unique(t: Table)
  {
    forall i, j {:trigger Inner(t, i), Inner(t, j)} | Inner(t, i) && Inner(t, j) && t[i] == t[j] :: i == j
  }

  ghost predicate ValidTable(t: Table)
  {
    Reduced(t) && Unique(t)
  }

  // Index i may be read at level l.
  ghost predicate Ref(t: Table, i: int, l: int)
  {
    0 <= i < |t| && t[i].level <= l
  }

  ghost predicate InRange(l: nat, r: int, c: int)
  {
    0 <= r < Height(l) && 0 <= c < Width(l)
  }

  // The children of i read at level l: i itself where the level is skipped.
  ghost function Lo(t: Table, i: int, l: nat): (j: int)
    requires Reduced(t) && Ref(t, i, l) && l > 0
    ensures Ref(t, j, l - 1)
  {
    if t[i].level < l then i else (assert GoodNode(t, i); t[i].left)
  }

  ghost function Hi(t: Table, i: int, l: nat): (j: int)
    requires Reduced(t) && Ref(t, i, l) && l > 0
    ensures Ref(t, j, l - 1)
  {
    if t[i].level < l then i else (assert GoodNode(t, i); t[i].right)
  }

  // The pixel at row r, column c of node i read at level l.
  ghost function Pix(t: Table, i: int, l: nat, r: int, c: int): Byte
    requires Reduced(t) && Ref(t, i, l) && InRange(l, r, c)
    decreases l
  {
    if l == 0 then
      assert i >= LEAVES ==> GoodNode(t, i);
      i
    else if l % 2 == 0 then
      var half := Height(l - 1);
      if r < half then Pix(t, Lo(t, i, l), l - 1, r, c) else Pix(t, Hi(t, i, l), l - 1, r - half, c)
    else
      var half := Width(l - 1);
      if c < half then Pix(t, Lo(t, i, l), l - 1, r, c) else Pix(t, Hi(t, i, l), l - 1, r, c - half)
  }

  // j is what joining a and b at level l gives: b below or right of a.
  ghost predicate Joins(t: Table, j: int, l: nat, a: int, b: int)
    requires Reduced(t)
  {
    l > 0 && Ref(t, j, l) && Lo(t, j, l) == a && Hi(t, j, l) == b
  }

  lemma LeafIsLevelZero(t: Table, i: int)
    requires Reduced(t) && 0 <= i < |t|
    ensures i < LEAVES <==> t[i].level == 0
  {
    assert i >= LEAVES ==> GoodNode(t, i);
  }

  // ----- older nodes keep their meaning -----

  // u is t with nodes appended.
  ghost predicate Extends(t: Table, u: Table)
  {
    |t| <= |u| && forall i | 0 <= i < |t| :: u[i] == t[i]
  }

  lemma {:induction false} PixExtends(t: Table, u: Table, i: int, l: nat, r: int, c: int)
    requires Reduced(t) && Reduced(u) && Extends(t, u) && Ref(t, i, l) && InRange(l, r, c)
    ensures Ref(u, i, l) && Pix(u, i, l, r, c) == Pix(t, i, l, r, c)
    decreases l
  {
    assert t[i] == u[i];
    if l > 0 {
      if l % 2 == 0 {
        var half := Height(l - 1);
        if r < half { PixExtends(t, u, Lo(t, i, l), l - 1, r, c); }
        else { PixExtends(t, u, Hi(t, i, l), l - 1, r - half, c); }
      } else {
        var half := Width(l - 1);
        if c < half { PixExtends(t, u, Lo(t, i, l), l - 1, r, c); }
        else { PixExtends(t, u, Hi(t, i, l), l - 1, r, c - half); }
      }
    }
  }

  // ----- canonicity -----

  ghost predicate SameImage(t: Table, i: int, u: Table, j: int, l: nat)
    requires Reduced(t) && Reduced(u) && Ref(t, i, l) && Ref(u, j, l)
  {
    forall r, c | InRange(l, r, c) :: Pix(t, i, l, r, c) == Pix(u, j, l, r, c)
  }

  lemma SameHalves(t: Table, i: int, u: Table, j: int, l: nat)
    requires l > 0 && Reduced(t) && Reduced(u) && Ref(t, i, l) && Ref(u, j, l) && SameImage(t, i, u, j, l)
    ensures SameImage(t, Lo(t, i, l), u, Lo(u, j, l), l - 1)
    ensures SameImage(t, Hi(t, i, l), u, Hi(u, j, l), l - 1)
  {
    var k := l - 1;
    forall r, c | InRange(k, r, c)
      ensures Pix(t, Lo(t, i, l), k, r, c) == Pix(u, Lo(u, j, l), k, r, c)
      ensures Pix(t, Hi(t, i, l), k, r, c) == Pix(u, Hi(u, j, l), k, r, c)
    {
      assert InRange(l, r, c) && Pix(t, i, l, r, c) == Pix(u, j, l, r, c);
      if l % 2 == 0 {
        var s := r + Height(l - 1);
        assert InRange(l, s, c) && Pix(t, i, l, s, c) == Pix(u, j, l, s, c);
      } else {
        var d := c + Width(l - 1);
        assert InRange(l, r, d) && Pix(t, i, l, r, d) == Pix(u, j, l, r, d);
      }
    }
  }

  // Two indices that stand for the same image at a common level are the same index.
  lemma {:induction false} Canonicity(t: Table, i: int, j: int, l: nat)
    requires ValidTable(t) && Ref(t, i, l) && Ref(t, j, l) && SameImage(t, i, t, j, l)
    ensures i == j
    decreases l
  {
    if l == 0 {
      assert InRange(0, 0, 0) && Pix(t, i, 0, 0, 0) == Pix(t, j, 0, 0, 0);
    } else {
      SameHalves(t, i, t, j, l);
      Canonicity(t, Lo(t, i, l), Lo(t, j, l), l - 1);
      Canonicity(t, Hi(t, i, l), Hi(t, j, l), l - 1);
      if t[i].level == l { assert Inner(t, i) && GoodNode(t, i); }
      if t[j].level == l { assert Inner(t, j) && GoodNode(t, j); }
    }
  }

  ghost predicate ConstantImage(t: Table, i: int, l: nat)
    requires Reduced(t) && Ref(t, i, l)
  {
    exists v :: Uniform(t, i, l, v)
  }

  ghost predicate Uniform(t: Table, i: int, l: nat, v: int)
    requires Reduced(t) && Ref(t, i, l)
  {
    forall r, c | InRange(l, r, c) :: Pix(t, i, l, r, c) == v
  }

  lemma {:induction false} LeafUniform(t: Table, i: int, l: nat)
    requires Reduced(t) && 0 <= i < LEAVES
    ensures Ref(t, i, l) && Uniform(t, i, l, i)
    decreases l
  {
    if l > 0 {
      LeafUniform(t, i, l - 1);
      assert Lo(t, i, l) == i == Hi(t, i, l);
    }
  }

  // A node is constant exactly when it is a leaf.
  lemma ConstantIffLeaf(t: Table, i: int, l: nat)
    requires ValidTable(t) && Ref(t, i, l)
    ensures ConstantImage(t, i, l) <==> i < LEAVES
    ensures forall v | Uniform(t, i, l, v) :: v == i
  {
    forall v | Uniform(t, i, l, v)
      ensures v == i && i < LEAVES
    {
      assert InRange(l, 0, 0) && Pix(t, i, l, 0, 0) == v;
      LeafUniform(t, v, l);
      Canonicity(t, i, v, l);
    }
    if i < LEAVES { LeafUniform(t, i, l); }
  }

  // ----- levels above the node's own -----

  lemma {:induction false} SkippedLevels(t: Table, i: int, m: nat, l: nat, r: int, c: int)
    requires Reduced(t) && m <= l && Ref(t, i, m) && InRange(l, r, c)
    ensures InRange(m, r % Height(m), c % Width(m))
    ensures Pix(t, i, l, r, c) == Pix(t, i, m, r % Height(m), c % Width(m))
    decreases l
  {
    if m == l {
      SmallMod(r, Height(m)); SmallMod(c, Width(m));
    } else {
      var k := l - 1;
      var r' := if l % 2 == 0 && r >= Height(k) then r - Height(k) else r;
      var c' := if l % 2 == 1 && c >= Width(k) then c - Width(k) else c;
      SkipStep(t, i, l, r, c, r', c');
      SkippedLevels(t, i, m, k, r', c');
      HeightMod(m, k, r);
      WidthMod(m, k, c);
    }
  }

  lemma SkipStep(t: Table, i: int, l: nat, r: int, c: int, r': int, c': int)
    requires Reduced(t) && l > 0 && Ref(t, i, l - 1) && InRange(l, r, c)
    requires r' == if l % 2 == 0 && r >= Height(l - 1) then r - Height(l - 1) else r
    requires c' == if l % 2 == 1 && c >= Width(l - 1) then c - Width(l - 1) else c
    ensures InRange(l - 1, r', c') && Pix(t, i, l, r, c) == Pix(t, i, l - 1, r', c')
  {
    assert Lo(t, i, l) == i == Hi(t, i, l);
  }

  lemma HeightMod(m: nat, l: nat, r: int)
    requires m <= l
    ensures (r - Height(l)) % Height(m) == r % Height(m)
  {
    Shape(m); Shape(l); Pow2Add(l / 2 - m / 2, m / 2);
    ModMinusMultiple(r, Pow2(l / 2 - m / 2), Height(m));
  }

  lemma WidthMod(m: nat, l: nat, c: int)
    requires m <= l
    ensures (c - Width(l)) % Width(m) == c % Width(m)
  {
    Shape(m); Shape(l);
    var k := (l - l / 2) - (m - m / 2);
    Pow2Add(k, m - m / 2);
    ModMinusMultiple(c, Pow2(k), Width(m));
  }

  // ----- the path from root to leaf read off the bits of row and column -----

  predicate Bit(x: nat, k: nat) {
    (x / Pow2(k)) % 2 == 1
  }

  // The leaf reached when an even level l tests bit l/2-1 of the row, an odd one bit l/2
  // of the column, most significant first; skipped levels test nothing.
  ghost function ByBits(t: Table, i: int, r: nat, c: nat): (p: int)
    requires Reduced(t) && 0 <= i < |t|
    decreases i
  {
    if i < LEAVES then i
    else
      assert GoodNode(t, i);
      var n := t[i];
      var one := if n.level % 2 == 0 then Bit(r, n.level / 2 - 1) else Bit(c, n.level / 2);
      ByBits(t, if one then n.right else n.left, r, c)
  }

  lemma {:induction false} ByBitsMod(t: Table, i: int, l: nat, r: nat, c: nat, r': nat, c': nat)
    requires Reduced(t) && Ref(t, i, l)
    requires r' == r % Height(l) && c' == c % Width(l)
    ensures ByBits(t, i, r, c) == ByBits(t, i, r', c')
    decreases i
  {
    if i >= LEAVES {
      assert GoodNode(t, i);
      var n := t[i];
      Shape(l);
      if n.level % 2 == 0 {
        BitOfMod(r, n.level / 2 - 1, l / 2);
      } else {
        BitOfMod(c, n.level / 2, l - l / 2);
      }
      ByBitsMod(t, n.left, l, r, c, r', c');
      ByBitsMod(t, n.right, l, r, c, r', c');
    }
  }

  lemma BitOfMod(x: nat, k: nat, m: nat)
    requires k < m
    ensures Bit(x % Pow2(m), k) == Bit(x, k)
  {
    Pow2Add(m - k - 1, k);
    EvenMultiple(x, Pow2(k), Pow2(m - k - 1));
  }

  // Reducing x modulo an even multiple of p keeps the parity of x / p.
  lemma EvenMultiple(x: nat, p: nat, e: nat)
    requires p > 0 && e > 0
    ensures ((x % (2 * (e * p))) / p) % 2 == (x / p) % 2
  {
    var m := 2 * (e * p);
    var q, s := x / m, x % m;
    var a, b := s / p, s % p;
    var h := q * e;
    assert q * m == 2 * h * p by {
      assert q * (e * p) == h * p;
    }
    assert x == (2 * h + a) * p + b by {
      assert x == q * m + s && s == a * p + b;
    }
    DivModUnique(x, 2 * h + a, b, p);
    assert (2 * h + a) % 2 == a % 2;
  }

  lemma TopBit(x: nat, k: nat)
    requires x < 2 * Pow2(k)
    ensures Bit(x, k) <==> x >= Pow2(k)
  {
    if x >= Pow2(k) { DivModUnique(x, 1, x - Pow2(k), Pow2(k)); } else { DivModUnique(x, 0, x, Pow2(k)); }
  }

  // One halving of the rows is one bit of the row read.
  lemma RowBit(t: Table, i: int, l: nat, r: int, c: int, j: int, r': int)
    requires Reduced(t) && Ref(t, i, l) && InRange(l, r, c) && l > 0 && l % 2 == 0
    requires j == if r < Height(l - 1) then Lo(t, i, l) else Hi(t, i, l)
    requires r' == if r < Height(l - 1) then r else r - Height(l - 1)
    ensures ByBits(t, i, r, c) == ByBits(t, j, r', c)
  {
    var k := l - 1;
    Shape(k);
    assert k / 2 == l / 2 - 1;
    TopBit(r, l / 2 - 1);
    DivModUnique(r, if r < Height(k) then 0 else 1, r', Height(k));
    SmallMod(c, Width(k));
    ByBitsMod(t, j, k, r, c, r', c);
    LeafIsLevelZero(t, i);
  }

  lemma ColumnBit(t: Table, i: int, l: nat, r: int, c: int, j: int, c': int)
    requires Reduced(t) && Ref(t, i, l) && InRange(l, r, c) && l % 2 == 1
    requires j == if c < Width(l - 1) then Lo(t, i, l) else Hi(t, i, l)
    requires c' == if c < Width(l - 1) then c else c - Width(l - 1)
    ensures ByBits(t, i, r, c) == ByBits(t, j, r, c')
  {
    var k := l - 1;
    Shape(k);
    assert k - k / 2 == l / 2;
    TopBit(c, l / 2);
    DivModUnique(c, if c < Width(k) then 0 else 1, c', Width(k));
    SmallMod(r, Height(k));
    ByBitsMod(t, j, k, r, c, r, c');
    LeafIsLevelZero(t, i);
  }

  // Halving intervals and reading coordinate bits are the same walk.
  lemma {:induction false} PixIsByBits(t: Table, i: int, l: nat, r: int, c: int)
    requires Reduced(t) && Ref(t, i, l) && InRange(l, r, c)
    ensures Pix(t, i, l, r, c) == ByBits(t, i, r, c)
    decreases l
  {
    if l == 0 {
      LeafIsLevelZero(t, i);
    } else if l % 2 == 0 {
      var half := Height(l - 1);
      var j, r' := if r < half then Lo(t, i, l) else Hi(t, i, l), if r < half then r else r - half;
      RowBit(t, i, l, r, c, j, r');
      PixIsByBits(t, j, l - 1, r', c);
    } else {
      var half := Width(l - 1);
      var j, c' := if c < half then Lo(t, i, l) else Hi(t, i, l), if c < half then c else c - half;
      ColumnBit(t, i, l, r, c, j, c');
      PixIsByBits(t, j, l - 1, r, c');
    }
  }
}
