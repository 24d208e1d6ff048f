/** Rotating the square of a node by a quarter turn counterclockwise: bdd_rotate. */
module BddRotate {
  import opened Common
  import opened Powers
  import opened BddTable
  import opened BddStore
  import opened BddMap

  ghost predicate InSquare(d: nat, r: int, c: int)
  {
    0 <= r < Pow2(d) && 0 <= c < Pow2(d)
  }

  // The pixel of i read at level 2d, where rows and columns have the same number.
  ghost function SquarePix(t: Table, i: int, d: nat, r: int, c: int): Byte
    requires Reduced(t) && Ref(t, i, 2 * d) && InSquare(d, r, c)
  {
    SquareSides(d);
    Pix(t, i, 2 * d, r, c)
  }

  // The square of side 2^d of j is that of i turned counterclockwise: its pixel at (r, c)
  // is the pixel of i at (c, 2^d - 1 - r).
  ghost predicate Rotated(t: Table, i: int, j: int, d: nat)
    requires Reduced(t)
  {
    && Ref(t, i, 2 * d) && Ref(t, j, 2 * d)
    && forall r, c | InSquare(d, r, c) :: SquarePix(t, j, d, r, c) == SquarePix(t, i, d, c, Pow2(d) - 1 - r)
  }

  // The quadrants of i read at level 2d.
  ghost function Quad(t: Table, i: int, d: nat, below: bool, right: bool): (j: int)
    requires Reduced(t) && d > 0 && Ref(t, i, 2 * d)
    ensures Ref(t, j, 2 * (d - 1))
  {
    var half := if below then Hi(t, i, 2 * d) else Lo(t, i, 2 * d);
    if right then Hi(t, half, 2 * d - 1) else Lo(t, half, 2 * d - 1)
  }

  lemma QuadPix(t: Table, i: int, d: nat, r: int, c: int)
    requires Reduced(t) && d > 0 && Ref(t, i, 2 * d) && InSquare(d, r, c)
    ensures var h := Pow2(d - 1);
            var y, x := if r >= h then r - h else r, if c >= h then c - h else c;
            InSquare(d - 1, y, x) &&
            SquarePix(t, i, d, r, c) == SquarePix(t, Quad(t, i, d, r >= h, c >= h), d - 1, y, x)
  {
    SquareSides(d);
    SquareSides(d - 1);
    var h, l := Pow2(d - 1), 2 * d - 1;
    assert l % 2 == 1 && l - 1 == 2 * (d - 1);
    var half, y := if r >= h then Hi(t, i, 2 * d) else Lo(t, i, 2 * d), if r >= h then r - h else r;
    assert Pix(t, i, 2 * d, r, c) == Pix(t, half, l, y, c);
    var quad, x := if c >= h then Hi(t, half, l) else Lo(t, half, l), if c >= h then c - h else c;
    assert Pix(t, half, l, y, c) == Pix(t, quad, l - 1, y, x);
  }

  lemma RotatedQuads(t: Table, i: int, j: int, d: nat)
    requires Reduced(t) && d > 0 && Ref(t, i, 2 * d) && Ref(t, j, 2 * d)
    requires Rotated(t, Quad(t, i, d, false, true), Quad(t, j, d, false, false), d - 1)
    requires Rotated(t, Quad(t, i, d, true, true), Quad(t, j, d, false, true), d - 1)
    requires Rotated(t, Quad(t, i, d, false, false), Quad(t, j, d, true, false), d - 1)
    requires Rotated(t, Quad(t, i, d, true, false), Quad(t, j, d, true, true), d - 1)
    ensures Rotated(t, i, j, d)
  {
    forall r, c | InSquare(d, r, c)
      ensures SquarePix(t, j, d, r, c) == SquarePix(t, i, d, c, Pow2(d) - 1 - r)
    {
      QuadPix(t, j, d, r, c);
      QuadPix(t, i, d, c, Pow2(d) - 1 - r);
    }
  }

  lemma RotatedExtends(t: Table, u: Table, i: int, j: int, d: nat)
    requires Reduced(t) && Reduced(u) && Extends(t, u) && Rotated(t, i, j, d)
    ensures Rotated(u, i, j, d)
  {
    SquareSides(d);
    forall r, c | InSquare(d, r, c)
      ensures SquarePix(u, j, d, r, c) == SquarePix(u, i, d, c, Pow2(d) - 1 - r)
    {
      PixExtends(t, u, i, 2 * d, c, Pow2(d) - 1 - r);
      PixExtends(t, u, j, 2 * d, r, c);
    }
  }

  lemma RotatedRef(t: Table, i: int, j: int, d: nat)
    requires Reduced(t) && Rotated(t, i, j, d)
    ensures Ref(t, j, 2 * d)
  {}

  ghost predicate RotatedHalf(t: Table, a: int, b: int, j: int, d: nat)
    requires Reduced(t)
  {
    && d > 0 && Ref(t, j, 2 * d - 1)
    && Rotated(t, a, Lo(t, j, 2 * d - 1), d - 1)
    && Rotated(t, b, Hi(t, j, 2 * d - 1), d - 1)
  }

  lemma RotatedHalfExtends(t: Table, u: Table, a: int, b: int, j: int, d: nat)
    requires Reduced(t) && Reduced(u) && Extends(t, u) && RotatedHalf(t, a, b, j, d)
    ensures RotatedHalf(u, a, b, j, d)
  {
    RotatedExtends(t, u, a, Lo(t, j, 2 * d - 1), d - 1);
    RotatedExtends(t, u, b, Hi(t, j, 2 * d - 1), d - 1);
  }

  lemma RotatedHalves(t: Table, u: Table, i: int, j: int, top: int, bottom: int, d: nat)
    requires Reduced(t) && Reduced(u) && Extends(t, u) && d > 0 && Ref(t, i, 2 * d)
    requires RotatedHalf(u, Quad(t, i, d, false, true), Quad(t, i, d, true, true), top, d)
    requires RotatedHalf(u, Quad(t, i, d, false, false), Quad(t, i, d, true, false), bottom, d)
    requires Joins(u, j, 2 * d, top, bottom)
    ensures Rotated(u, i, j, d)
  {
    assert forall below, right :: Quad(u, i, d, below, right) == Quad(t, i, d, below, right);
    RotatedQuads(u, i, j, d);
  }

  // The root level is skipped: the upper and the lower half are the same columns.
  lemma RotatedSides(t: Table, i: int, j: int, top: int, bottom: int, d: nat)
    requires Reduced(t) && d > 0 && LEAVES <= i < |t| && t[i].level == 2 * d - 1
    requires Rotated(t, t[i].right, top, d - 1) && Rotated(t, t[i].left, bottom, d - 1)
    requires Joins(t, j, 2 * d, top, bottom)
    ensures Rotated(t, i, j, d)
  {
    RotatedQuads(t, i, j, d);
  }

  // Both levels are skipped: the four quadrants are equal.
  lemma RotatedCopies(t: Table, i: int, j: int, d: nat)
    requires Reduced(t) && d > 0 && Ref(t, i, 2 * (d - 1)) && Rotated(t, i, j, d - 1)
    ensures Rotated(t, i, j, d)
  {
    RotatedQuads(t, i, j, d);
  }

  lemma RotatedLeaf(t: Table, i: int, d: nat)
    requires Reduced(t) && 0 <= i < LEAVES
    ensures Rotated(t, i, i, d)
  {
    LeafUniform(t, i, 2 * d);
    SquareSides(d);
  }

  method Rotate(s: Store, i: int, level: nat) returns (o: Outcome)
    requires s.Valid() && level % 2 == 0 && Ref(s.Table(), i, level)
    modifies s, s.nodes, s.hashMap
    ensures s.Valid() && Extends(old(s.Table()), s.Table())
    ensures if o.Exit? then s.next == NODES_MAX else Rotated(s.Table(), i, o.value, level / 2)
    decreases level, 2
  {
    ghost var t, d := s.Table(), level / 2;
    LeafIsLevelZero(t, i);
    var node := s.nodes[i];
    if node.level == 0 {
      RotatedLeaf(t, i, d);
      return Ret(i);
    }
    assert GoodNode(t, i) && d > 0;
    assert 2 * d == level;
    if node.level == level {
      o := RotateFull(s, i, level);
    } else if node.level == level - 1 {
      o := RotateSides(s, i, level);
    } else {
      var j :- Rotate(s, i, level - 2);
      RotatedCopies(s.Table(), i, j, d);
      o := Ret(j);
    }
  }

  method Quadrants(s: Store, i: int, level: nat, ghost d: nat)
    returns (topLeft: int, topRight: int, bottomLeft: int, bottomRight: int)
    requires s.Valid() && level == 2 * d && d > 0 && LEAVES <= i < s.next && s.nodes[i].level == level
    ensures topLeft == Quad(s.Table(), i, d, false, false) && topRight == Quad(s.Table(), i, d, false, true)
    ensures bottomLeft == Quad(s.Table(), i, d, true, false) && bottomRight == Quad(s.Table(), i, d, true, true)
  {
    ghost var t := s.Table();
    assert GoodNode(t, i);
    var node := s.nodes[i];
    var top, bottom := s.nodes[node.left], s.nodes[node.right];
    topLeft, topRight := node.left, node.left;
    if top.level == level - 1 {
      topLeft, topRight := top.left, top.right;
    }
    bottomLeft, bottomRight := node.right, node.right;
    if bottom.level == level - 1 {
      bottomLeft, bottomRight := bottom.left, bottom.right;
    }
  }

  // No level is skipped at the root.
  method RotateFull(s: Store, i: int, level: nat) returns (o: Outcome)
    requires s.Valid() && level % 2 == 0 && 2 <= level
    requires LEAVES <= i < s.next && s.nodes[i].level == level
    modifies s, s.nodes, s.hashMap
    ensures s.Valid() && Extends(old(s.Table()), s.Table())
    ensures if o.Exit? then s.next == NODES_MAX else Rotated(s.Table(), i, o.value, level / 2)
    decreases level, 1
  {
    ghost var t, d := s.Table(), level / 2;
    assert GoodNode(t, i) && 2 * d == level;
    var topLeft, topRight, bottomLeft, bottomRight := Quadrants(s, i, level, d);
    var newTop :- RotateHalf(s, topRight, bottomRight, level);
    ghost var t1 := s.Table();
    var newBottom :- RotateHalf(s, topLeft, bottomLeft, level);
    RotatedHalfExtends(t1, s.Table(), topRight, bottomRight, newTop, d);
    o := JoinHalves(s, t, i, newTop, newBottom, level, d);
  }

  // The rotated halves make the rotated square.
  method JoinHalves(s: Store, ghost t: Table, ghost i: int, newTop: int, newBottom: int, level: nat, ghost d: nat) returns (o: Outcome)
    requires s.Valid() && d > 0 && level == 2 * d <= LEVELS_MAX && Reduced(t) && Extends(t, s.Table()) && Ref(t, i, level)
    requires RotatedHalf(s.Table(), Quad(t, i, d, false, true), Quad(t, i, d, true, true), newTop, d)
    requires RotatedHalf(s.Table(), Quad(t, i, d, false, false), Quad(t, i, d, true, false), newBottom, d)
    modifies s, s.nodes, s.hashMap
    ensures s.Valid() && Extends(old(s.Table()), s.Table())
    ensures if o.Exit? then s.next == NODES_MAX else Rotated(s.Table(), i, o.value, d)
  {
    ghost var t2 := s.Table();
    o := s.Join(level, newTop, newBottom);
    if o.Ret? {
      ghost var u := s.Table();
      RotatedHalfExtends(t2, u, Quad(t, i, d, false, true), Quad(t, i, d, true, true), newTop, d);
      RotatedHalfExtends(t2, u, Quad(t, i, d, false, false), Quad(t, i, d, true, false), newBottom, d);
      RotatedHalves(t, u, i, o.value, newTop, newBottom, d);
    }
  }

  // The root's level is the skipped level below: left and right half.
  method RotateSides(s: Store, i: int, level: nat) returns (o: Outcome)
    requires s.Valid() && level % 2 == 0 && 2 <= level
    requires LEAVES <= i < s.next && s.nodes[i].level == level - 1
    modifies s, s.nodes, s.hashMap
    ensures s.Valid() && Extends(old(s.Table()), s.Table())
    ensures if o.Exit? then s.next == NODES_MAX else Rotated(s.Table(), i, o.value, level / 2)
    decreases level, 1
  {
    ghost var t, d := s.Table(), level / 2;
    assert GoodNode(t, i) && 2 * d == level;
    var node := s.nodes[i];
    var newTop :- Rotate(s, node.right, level - 2);
    ghost var t1 := s.Table();
    var newBottom :- Rotate(s, node.left, level - 2);
    o := JoinRotated(s, t1, node.right, newTop, node.left, newBottom, level, d);
    if o.Ret? {
      RotatedSides(s.Table(), i, o.value, newTop, newBottom, d);
    }
  }

  // Two rotated quadrants side by side: the upper or the lower half of the result.
  method RotateHalf(s: Store, a: int, b: int, level: nat) returns (o: Outcome)
    requires s.Valid() && level % 2 == 0 && 2 <= level <= LEVELS_MAX
    requires Ref(s.Table(), a, level - 2) && Ref(s.Table(), b, level - 2)
    modifies s, s.nodes, s.hashMap
    ensures s.Valid() && Extends(old(s.Table()), s.Table())
    ensures if o.Exit? then s.next == NODES_MAX else RotatedHalf(s.Table(), a, b, o.value, level / 2)
    decreases level, 0
  {
    ghost var d := level / 2;
    var left :- Rotate(s, a, level - 2);
    ghost var t1 := s.Table();
    var right :- Rotate(s, b, level - 2);
    o := JoinRotated(s, t1, a, left, b, right, level - 1, d);
  }

  // Joining two rotated squares; the first was rotated in an older table.
  method JoinRotated(s: Store, ghost t1: Table, ghost a: int, left: int, ghost b: int, right: int, l: nat, ghost d: nat)
    returns (o: Outcome)
    requires s.Valid() && d > 0 && 2 * d - 1 <= l <= 2 * d && l <= LEVELS_MAX
    requires Reduced(t1) && Extends(t1, s.Table())
    requires Rotated(t1, a, left, d - 1) && Rotated(s.Table(), b, right, d - 1)
    modifies s, s.nodes, s.hashMap
    ensures s.Valid() && Extends(old(s.Table()), s.Table())
    ensures if o.Exit? then s.next == NODES_MAX
            else Joins(s.Table(), o.value, l, left, right)
                 && Rotated(s.Table(), a, left, d - 1) && Rotated(s.Table(), b, right, d - 1)
  {
    ghost var t2 := s.Table();
    RotatedExtends(t1, t2, a, left, d - 1);
    RotatedRef(t2, a, left, d - 1);
    RotatedRef(t2, b, right, d - 1);
    o := s.Join(l, left, right);
    if o.Ret? {
      RotatedExtends(t2, s.Table(), a, left, d - 1);
      RotatedExtends(t2, s.Table(), b, right, d - 1);
    }
  }

  // Four quarter turns at the same level end at the very index they started from.
  lemma FourRotations(t: Table, i: int, i1: int, i2: int, i3: int, i4: int, d: nat)
    requires ValidTable(t)
    requires Rotated(t, i, i1, d) && Rotated(t, i1, i2, d) && Rotated(t, i2, i3, d) && Rotated(t, i3, i4, d)
    ensures i4 == i
  {
    SquareSides(d);
    var s := Pow2(d) - 1;
    forall r, c | InRange(2 * d, r, c)
      ensures Pix(t, i4, 2 * d, r, c) == Pix(t, i, 2 * d, r, c)
    {
      assert SquarePix(t, i4, d, r, c) == SquarePix(t, i3, d, c, s - r);
      assert SquarePix(t, i3, d, c, s - r) == SquarePix(t, i2, d, s - r, s - c);
      assert SquarePix(t, i2, d, s - r, s - c) == SquarePix(t, i1, d, s - c, r);
      assert SquarePix(t, i1, d, s - c, r) == SquarePix(t, i, d, r, c);
    }
    Canonicity(t, i4, i, 2 * d);
  }

  // The method calls: four turns in a table that grows meanwhile.
  method RotateFourTimes(s: Store, i: int, level: nat) returns (o: Outcome)
    requires s.Valid() && level % 2 == 0 && Ref(s.Table(), i, level)
    modifies s, s.nodes, s.hashMap
    ensures s.Valid() && Extends(old(s.Table()), s.Table())
    ensures if o.Exit? then s.next == NODES_MAX else o.value == i
  {
    ghost var d := level / 2;
    assert level == 2 * d;
    var i1 :- Rotate(s, i, level);
    ghost var t1 := s.Table();
    RotatedRef(t1, i, i1, d);
    var i2 :- Rotate(s, i1, level);
    ghost var t2 := s.Table();
    RotatedRef(t2, i1, i2, d);
    var i3 :- Rotate(s, i2, level);
    ghost var t3 := s.Table();
    RotatedRef(t3, i2, i3, d);
    var i4 :- Rotate(s, i3, level);
    ghost var t4 := s.Table();
    LiftRotated(t1, t2, t4, i, i1, d);
    RotatedExtends(t2, t4, i1, i2, d);
    RotatedExtends(t3, t4, i2, i3, d);
    FourRotations(t4, i, i1, i2, i3, i4, d);
    o := Ret(i4);
  }

  lemma LiftRotated(t: Table, u: Table, v: Table, i: int, j: int, d: nat)
    requires Reduced(t) && Reduced(u) && Reduced(v) && Extends(t, u) && Extends(u, v) && Rotated(t, i, j, d)
    ensures Rotated(v, i, j, d)
  {
    RotatedExtends(t, u, i, j, d);
    RotatedExtends(u, v, i, j, d);
  }

  // Rotating and mapping commute, down to the index of the result.
  lemma RotationCommutesWithMap(t: Table, i: int, j: int, m: int, jm: int, mj: int, d: nat, f: Byte -> Byte)
    requires ValidTable(t)
    requires Rotated(t, i, j, d) && Mapped(t, j, jm, 2 * d, f)
    requires Mapped(t, i, m, 2 * d, f) && Rotated(t, m, mj, d)
    ensures jm == mj
  {
    SquareSides(d);
    forall r, c | InRange(2 * d, r, c)
      ensures Pix(t, jm, 2 * d, r, c) == Pix(t, mj, 2 * d, r, c)
    {
      var x := Pow2(d) - 1 - r;
      assert SquarePix(t, j, d, r, c) == SquarePix(t, i, d, c, x);
      assert SquarePix(t, mj, d, r, c) == SquarePix(t, m, d, c, x);
      assert Pix(t, m, 2 * d, c, x) == f(Pix(t, i, 2 * d, c, x));
    }
    Canonicity(t, jm, mj, 2 * d);
  }
}
