/** Applying a function to every pixel: bdd_map. */
module BddMap {
  import opened Common
  import opened BddTable
  import opened BddStore

  // Read at level l, image j is image i with f applied to each pixel.
  ghost predicate Mapped(t: Table, i: int, j: int, l: nat, f: Byte -> Byte)
    requires Reduced(t)
  {
    && Ref(t, i, l) && Ref(t, j, l)
    && forall r, c | InRange(l, r, c) :: Pix(t, j, l, r, c) == f(Pix(t, i, l, r, c))
  }

  lemma MappedHalves(t: Table, i: int, j: int, l: nat, f: Byte -> Byte)
    requires Reduced(t) && l > 0 && Ref(t, i, l) && Ref(t, j, l)
    requires Mapped(t, Lo(t, i, l), Lo(t, j, l), l - 1, f)
    requires Mapped(t, Hi(t, i, l), Hi(t, j, l), l - 1, f)
    ensures Mapped(t, i, j, l, f)
  {}

  lemma {:induction false} MappedAbove(t: Table, i: int, j: int, m: nat, l: nat, f: Byte -> Byte)
    requires Reduced(t) && m <= l && Mapped(t, i, j, m, f)
    ensures Mapped(t, i, j, l, f)
    decreases l
  {
    if m < l {
      MappedAbove(t, i, j, m, l - 1, f);
      MappedHalves(t, i, j, l, f);
    }
  }

  // At every level at which i can be read.
  ghost predicate MapsTo(t: Table, i: int, j: int, f: Byte -> Byte)
    requires Reduced(t)
  {
    forall l: nat | Ref(t, i, l) :: Mapped(t, i, j, l, f)
  }

  lemma MapsToFrom(t: Table, i: int, j: int, m: nat, f: Byte -> Byte)
    requires Reduced(t) && 0 <= i < |t| && m == t[i].level && Mapped(t, i, j, m, f)
    ensures MapsTo(t, i, j, f)
  {
    forall l: nat | Ref(t, i, l)
      ensures Mapped(t, i, j, l, f)
    {
      MappedAbove(t, i, j, m, l, f);
    }
  }

  lemma MapsToExtends(t: Table, u: Table, i: int, j: int, f: Byte -> Byte)
    requires Reduced(t) && Reduced(u) && Extends(t, u) && 0 <= i < |t| && MapsTo(t, i, j, f)
    ensures MapsTo(u, i, j, f)
  {
    LeafIsLevelZero(t, i);
    var m: nat := t[i].level;
    assert Mapped(t, i, j, m, f);
    forall r, c | InRange(m, r, c)
      ensures Pix(u, j, m, r, c) == f(Pix(u, i, m, r, c))
    {
      PixExtends(t, u, i, m, r, c);
      PixExtends(t, u, j, m, r, c);
    }
    MapsToFrom(u, i, j, m, f);
  }

  lemma MapsToJoin(t: Table, i: int, j: int, a: int, b: int, f: Byte -> Byte)
    requires Reduced(t) && LEAVES <= i < |t|
    requires MapsTo(t, t[i].left, a, f) && MapsTo(t, t[i].right, b, f) && Joins(t, j, t[i].level, a, b)
    ensures MapsTo(t, i, j, f)
  {
    assert GoodNode(t, i);
    MappedHalves(t, i, j, t[i].level, f);
    MapsToFrom(t, i, j, t[i].level, f);
  }

  method Map(s: Store, i: int, f: Byte -> Byte) returns (o: Outcome)
    requires s.Valid() && 0 <= i < s.next
    modifies s, s.nodes, s.hashMap
    ensures s.Valid() && Extends(old(s.Table()), s.Table())
    ensures if o.Exit? then s.next == NODES_MAX else MapsTo(s.Table(), i, o.value, f)
    decreases i
  {
    ghost var t := s.Table();
    LeafIsLevelZero(t, i);
    var level := s.nodes[i].level;
    if level == 0 {
      MapsToFrom(t, i, f(i), 0, f);
      return Ret(f(i));
    }
    assert GoodNode(t, i);
    var left, right := s.nodes[i].left, s.nodes[i].right;
    var a :- Map(s, left, f);
    ghost var t1 := s.Table();
    assert t1[i] == t[i];
    var b :- Map(s, right, f);
    ghost var t2 := s.Table();
    MapsToExtends(t1, t2, left, a, f);
    MapsToRef(t2, left, a, level - 1, f);
    MapsToRef(t2, right, b, level - 1, f);
    o := s.Join(level, a, b);
    if o.Ret? {
      ghost var t3 := s.Table();
      MapsToExtends(t2, t3, left, a, f);
      MapsToExtends(t2, t3, right, b, f);
      MapsToJoin(t3, i, o.value, a, b, f);
    }
  }

  lemma MapsToRef(t: Table, i: int, j: int, l: nat, f: Byte -> Byte)
    requires Reduced(t) && Ref(t, i, l) && MapsTo(t, i, j, f)
    ensures Ref(t, j, l)
  {
    assert Mapped(t, i, j, l, f);
  }

  // The two functions the program passes to bdd_map.
  function Complement(p: Byte): Byte { 255 - p }

  function CapPixel(threshold: int): Byte -> Byte {
    p => if p >= threshold then 255 else 0
  }

  // Complementing twice gives the very node one started from.
  lemma ComplementTwice(t: Table, i: int, j: int, k: int, l: nat)
    requires ValidTable(t) && Mapped(t, i, j, l, Complement) && Mapped(t, j, k, l, Complement)
    ensures k == i
  {
    forall r, c | InRange(l, r, c)
      ensures Pix(t, k, l, r, c) == Pix(t, i, l, r, c)
    {
      assert Pix(t, j, l, r, c) == Complement(Pix(t, i, l, r, c));
    }
    Canonicity(t, k, i, l);
  }

  // A second filter with the same threshold changes nothing.
  lemma CapTwice(t: Table, i: int, j: int, k: int, l: nat, threshold: int)
    requires 0 <= threshold <= 255
    requires ValidTable(t) && Mapped(t, i, j, l, CapPixel(threshold)) && Mapped(t, j, k, l, CapPixel(threshold))
    ensures k == j
  {
    forall r, c | InRange(l, r, c)
      ensures Pix(t, k, l, r, c) == Pix(t, j, l, r, c)
    {
      assert Pix(t, j, l, r, c) == CapPixel(threshold)(Pix(t, i, l, r, c));
    }
    Canonicity(t, k, j, l);
  }
}
