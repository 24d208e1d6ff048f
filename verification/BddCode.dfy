/**
 The serialized form of a node: a list of instructions, each building one node from those
 built before it, and its encoding as bytes.  Instructions are numbered from 1.
 */
module BddCode {
  import opened Common
  import opened Powers
  import opened BddTable

  const AT: int := 64

  datatype Instr = Leaf(value: Byte) | Branch(level: nat, left: nat, right: nat)

  type Program = seq<Instr>

  function Level(x: Instr): nat {
    if x.Leaf? then 0 else x.level
  }

  // Children are built earlier and at lower levels.
  ghost predicate GoodInstr(p: Program, k: nat)
    requires k < |p|
  {
    p[k].Branch? ==>
      && 1 <= p[k].level <= LEVELS_MAX
      && 1 <= p[k].left <= k && 1 <= p[k].right <= k
      && Level(p[p[k].left - 1]) < p[k].level
      && Level(p[p[k].right - 1]) < p[k].level
  }

  ghost predicate WellFormed(p: Program)
  {
    forall k | 0 <= k < |p| :: GoodInstr(p, k)
  }

  // ----- what a program stands for -----

  ghost function CodeLo(p: Program, k: nat, l: nat): (j: nat)
    requires WellFormed(p) && k < |p| && Level(p[k]) <= l && l > 0
    ensures j < |p| && Level(p[j]) <= l - 1
  {
    if Level(p[k]) < l then k else (assert GoodInstr(p, k); p[k].left - 1)
  }

  ghost function CodeHi(p: Program, k: nat, l: nat): (j: nat)
    requires WellFormed(p) && k < |p| && Level(p[k]) <= l && l > 0
    ensures j < |p| && Level(p[j]) <= l - 1
  {
    if Level(p[k]) < l then k else (assert GoodInstr(p, k); p[k].right - 1)
  }

  // The pixel of the k-th instruction's node, read at level l, without any node table.
  ghost function CodePix(p: Program, k: nat, l: nat, r: int, c: int): Byte
    requires WellFormed(p) && k < |p| && Level(p[k]) <= l && InRange(l, r, c)
    decreases l
  {
    if l == 0 then
      assert GoodInstr(p, k);
      p[k].value
    else if l % 2 == 0 then
      var half := Height(l - 1);
      if r < half then CodePix(p, CodeLo(p, k, l), l - 1, r, c) else CodePix(p, CodeHi(p, k, l), l - 1, r - half, c)
    else
      var half := Width(l - 1);
      if c < half then CodePix(p, CodeLo(p, k, l), l - 1, r, c) else CodePix(p, CodeHi(p, k, l), l - 1, r, c - half)
  }

  // Node i is what instruction k builds, read at level l.
  ghost predicate BuiltAt(t: Table, i: int, p: Program, k: nat, l: nat)
    requires Reduced(t) && WellFormed(p) && k < |p|
  {
    && Level(p[k]) <= l && Ref(t, i, l)
    && forall r, c | InRange(l, r, c) :: Pix(t, i, l, r, c) == CodePix(p, k, l, r, c)
  }

  ghost predicate Built(t: Table, i: int, p: Program, k: nat)
    requires Reduced(t) && WellFormed(p) && k < |p|
  {
    forall l: nat | Level(p[k]) <= l :: BuiltAt(t, i, p, k, l)
  }

  lemma BuiltHalves(t: Table, i: int, p: Program, k: nat, l: nat)
    requires Reduced(t) && WellFormed(p) && k < |p| && l > 0 && Level(p[k]) <= l && Ref(t, i, l)
    requires BuiltAt(t, Lo(t, i, l), p, CodeLo(p, k, l), l - 1)
    requires BuiltAt(t, Hi(t, i, l), p, CodeHi(p, k, l), l - 1)
    ensures BuiltAt(t, i, p, k, l)
  {}

  lemma {:induction false} BuiltFrom(t: Table, i: int, p: Program, k: nat, m: nat, l: nat)
    requires Reduced(t) && WellFormed(p) && k < |p| && m <= l && BuiltAt(t, i, p, k, m)
    ensures BuiltAt(t, i, p, k, l)
    decreases l
  {
    if m < l {
      BuiltFrom(t, i, p, k, m, l - 1);
      BuiltHalves(t, i, p, k, l);
    }
  }

  lemma BuiltLeaf(t: Table, p: Program, k: nat)
    requires Reduced(t) && WellFormed(p) && k < |p| && p[k].Leaf?
    ensures Built(t, p[k].value, p, k)
  {
    var i := p[k].value;
    LeafUniform(t, i, 0);
    assert BuiltAt(t, i, p, k, 0);
    forall l: nat
      ensures BuiltAt(t, i, p, k, l)
    {
      BuiltFrom(t, i, p, k, 0, l);
    }
  }

  lemma BuiltBranch(t: Table, i: int, p: Program, k: nat, a: int, b: int)
    requires Reduced(t) && WellFormed(p) && k < |p| && p[k].Branch? && GoodInstr(p, k)
    requires Built(t, a, p, p[k].left - 1) && Built(t, b, p, p[k].right - 1)
    requires Joins(t, i, p[k].level, a, b)
    ensures Built(t, i, p, k)
  {
    BuiltHalves(t, i, p, k, p[k].level);
    forall l: nat | p[k].level <= l
      ensures BuiltAt(t, i, p, k, l)
    {
      BuiltFrom(t, i, p, k, p[k].level, l);
    }
  }

  lemma BuiltExtends(t: Table, u: Table, i: int, p: Program, k: nat)
    requires Reduced(t) && Reduced(u) && Extends(t, u) && WellFormed(p) && k < |p| && Built(t, i, p, k)
    ensures Built(u, i, p, k)
  {
    forall l: nat | Level(p[k]) <= l
      ensures BuiltAt(u, i, p, k, l)
    {
      assert BuiltAt(t, i, p, k, l);
      forall r, c | InRange(l, r, c)
        ensures Pix(u, i, l, r, c) == CodePix(p, k, l, r, c)
      {
        PixExtends(t, u, i, l, r, c);
      }
    }
  }

  // ----- programs that list the nodes of a table -----

  // Instruction k describes node order[k] of the table.
  ghost predicate Describes(t: Table, order: seq<int>, p: Program)
  {
    |order| == |p| && forall k | 0 <= k < |p| :: DescribesNode(t, order, p, k)
  }

  ghost predicate DescribesNode(t: Table, order: seq<int>, p: Program, k: nat)
    requires |order| == |p| && k < |p|
  {
    && 0 <= order[k] < |t|
    && if order[k] < LEAVES then p[k] == Leaf(order[k])
       else
         && p[k].Branch? && p[k].level == t[order[k]].level
         && 1 <= p[k].left <= k && order[p[k].left - 1] == t[order[k]].left
         && 1 <= p[k].right <= k && order[p[k].right - 1] == t[order[k]].right
  }

  lemma DescribesWellFormed(t: Table, order: seq<int>, p: Program)
    requires Reduced(t) && Describes(t, order, p)
    ensures WellFormed(p)
  {
    forall k: nat | k < |p|
      ensures GoodInstr(p, k)
    {
      assert DescribesNode(t, order, p, k);
      if order[k] >= LEAVES {
        assert GoodNode(t, order[k]);
        LevelDescribed(t, order, p, p[k].left - 1);
        LevelDescribed(t, order, p, p[k].right - 1);
      }
    }
  }

  lemma LevelDescribed(t: Table, order: seq<int>, p: Program, k: nat)
    requires Reduced(t) && Describes(t, order, p) && k < |p|
    ensures 0 <= order[k] < |t| && Level(p[k]) == t[order[k]].level
  {
    assert DescribesNode(t, order, p, k);
    LeafIsLevelZero(t, order[k]);
  }

  // A listed node is what its own instruction builds.
  lemma {:induction false} DescribedIsBuilt(t: Table, order: seq<int>, p: Program, k: nat)
    requires Reduced(t) && Describes(t, order, p) && WellFormed(p) && k < |p|
    ensures Built(t, order[k], p, k)
    decreases k
  {
    assert DescribesNode(t, order, p, k);
    if order[k] < LEAVES {
      BuiltLeaf(t, p, k);
    } else {
      assert GoodInstr(p, k) && GoodNode(t, order[k]);
      DescribedIsBuilt(t, order, p, p[k].left - 1);
      DescribedIsBuilt(t, order, p, p[k].right - 1);
      BuiltBranch(t, order[k], p, k, t[order[k]].left, t[order[k]].right);
    }
  }

  // Two nodes built by the same instruction, in any two tables, stand for the same image.
  lemma SameCodeSameImage(t: Table, i: int, u: Table, j: int, p: Program, k: nat, l: nat)
    requires Reduced(t) && Reduced(u) && WellFormed(p) && k < |p| && Level(p[k]) <= l
    requires Built(t, i, p, k) && Built(u, j, p, k)
    ensures Ref(t, i, l) && Ref(u, j, l) && SameImage(t, i, u, j, l)
  {
    assert BuiltAt(t, i, p, k, l) && BuiltAt(u, j, p, k, l);
  }

  // ----- bytes -----

  // Four bytes, least significant first.
  function Word(n: nat): (b: seq<Byte>)
    ensures |b| == 4
  {
    [n % 256, n / 256 % 256, n / 0x1_0000 % 256, n / 0x100_0000 % 256]
  }

  function WordValue(b: seq<Byte>, pos: nat): nat
    requires pos + 4 <= |b|
  {
    b[pos] as int + (b[pos + 1] as int) * 256 + (b[pos + 2] as int) * 0x1_0000 + (b[pos + 3] as int) * 0x100_0000
  }

  lemma WordRoundTrip(n: nat)
    requires n < 0x1_0000_0000
    ensures WordValue(Word(n), 0) == n
    ensures var b: seq<int> := Word(n); n == b[0] + 0x100 * b[1] + 0x1_0000 * b[2] + 0x100_0000 * b[3]
  {
    var a := n / 256;
    var b := a / 256;
    assert n / 0x1_0000 == b && n / 0x100_0000 == b / 256;
  }

  ghost predicate Encodable(x: Instr)
  {
    x.Branch? ==> 1 <= x.level <= LEVELS_MAX && x.left < 0x1_0000_0000 && x.right < 0x1_0000_0000
  }

  ghost predicate AllEncodable(p: Program)
  {
    forall k | 0 <= k < |p| :: Encodable(p[k])
  }

  function Opcode(level: nat): Byte {
    (AT + level) % 256
  }

  function Encode(x: Instr): seq<Byte> {
    if x.Leaf? then [AT, x.value] else [Opcode(x.level)] + Word(x.left) + Word(x.right)
  }

  function EncodeAll(p: Program): seq<Byte> {
    if p == [] then [] else Encode(p[0]) + EncodeAll(p[1..])
  }

  lemma {:induction false} EncodeAppend(p: Program, x: Instr)
    ensures EncodeAll(p + [x]) == EncodeAll(p) + Encode(x)
  {
    var q := p + [x];
    if p == [] {
      assert q[1..] == [] && q[0] == x;
    } else {
      assert q[1..] == p[1..] + [x] && q[0] == p[0];
      EncodeAppend(p[1..], x);
    }
  }

  // The bytes of a front part are a front part of the bytes.
  lemma {:induction false} EncodePrefix(p: Program, q: Program)
    requires q <= p
    ensures EncodeAll(q) <= EncodeAll(p)
    decreases |q|
  {
    if q != [] { EncodePrefix(p[1..], q[1..]); }
  }

  datatype Parsed = Parsed(code: Program, complete: bool)

  // The instructions from pos on, up to the end or to the first that is cut short or has an
  // unknown opcode.
  function Parse(b: seq<Byte>, pos: nat): Parsed
    requires pos <= |b|
    decreases |b| - pos
  {
    if pos == |b| then Parsed([], true)
    else if b[pos] == AT then
      if pos + 2 > |b| then Parsed([], false)
      else
        var rest := Parse(b, pos + 2);
        Parsed([Leaf(b[pos + 1])] + rest.code, rest.complete)
    else if AT < b[pos] <= AT + LEVELS_MAX then
      if pos + 9 > |b| then Parsed([], false)
      else
        var rest := Parse(b, pos + 9);
        Parsed([Branch(b[pos] - AT, WordValue(b, pos + 1), WordValue(b, pos + 5))] + rest.code, rest.complete)
    else Parsed([], false)
  }

  // The opcode that ends the range stands for level 32.
  lemma LastOpcode(left: nat, right: nat)
    requires left < 0x1_0000_0000 && right < 0x1_0000_0000
    ensures var b := Encode(Branch(32, left, right));
            b[0] == '`' as int && Parse(b, 0) == Parsed([Branch(32, left, right)], true)
  {
    var p := [Branch(32, left, right)];
    assert p[1..] == [] && EncodeAll(p) == Encode(p[0]) + [];
    assert EncodeAll(p)[0..] == EncodeAll(p) == Encode(p[0]);
    ParseEncoded(EncodeAll(p), 0, p);
  }

  lemma ParseLeaf(b: seq<Byte>, pos: nat, v: Byte)
    requires pos + 2 <= |b| && b[pos] == AT && b[pos + 1] == v
    ensures var rest := Parse(b, pos + 2);
            Parse(b, pos) == Parsed([Leaf(v)] + rest.code, rest.complete)
  {}

  lemma ParseBranch(b: seq<Byte>, pos: nat, level: nat, left: nat, right: nat)
    requires 1 <= level <= LEVELS_MAX && pos + 9 <= |b| && b[pos] == AT + level
    requires WordValue(b, pos + 1) == left && WordValue(b, pos + 5) == right
    ensures var rest := Parse(b, pos + 9);
            Parse(b, pos) == Parsed([Branch(level, left, right)] + rest.code, rest.complete)
  {}

  lemma ParseOne(b: seq<Byte>, pos: nat, x: Instr)
    requires Encodable(x) && pos + |Encode(x)| <= |b| && b[pos..pos + |Encode(x)|] == Encode(x)
    ensures var rest := Parse(b, pos + |Encode(x)|);
            Parse(b, pos) == Parsed([x] + rest.code, rest.complete)
  {
    var e := Encode(x);
    assert forall k | 0 <= k < |e| :: b[pos + k] == b[pos..pos + |e|][k] == e[k];
    assert b[pos + 0] == e[0];
    match x
    case Leaf(v) =>
      assert b[pos + 1] == e[1];
      ParseLeaf(b, pos, v);
    case Branch(level, left, right) =>
      assert forall k | 0 <= k < 4 :: e[1 + k] == Word(left)[k];
      assert forall k | 0 <= k < 4 :: e[5 + k] == Word(right)[k];
      WordRead(b, pos + 1, left);
      WordRead(b, pos + 5, right);
      ParseBranch(b, pos, level, left, right);
  }

  lemma WordRead(b: seq<Byte>, pos: nat, n: nat)
    requires n < 0x1_0000_0000 && pos + 4 <= |b| && forall k | 0 <= k < 4 :: b[pos + k] == Word(n)[k]
    ensures WordValue(b, pos) == n
  {
    WordRoundTrip(n);
    assert b[pos + 0] == Word(n)[0] && b[pos + 1] == Word(n)[1] && b[pos + 2] == Word(n)[2] && b[pos + 3] == Word(n)[3];
  }

  lemma CutFirst(b: seq<Byte>, pos: nat, e: seq<Byte>, rest: seq<Byte>)
    requires pos <= |b| && b[pos..] == e + rest
    ensures pos + |e| <= |b| && b[pos..pos + |e|] == e && b[pos + |e|..] == rest
  {
    assert b[pos..pos + |e|] == b[pos..][..|e|];
    assert b[pos + |e|..] == b[pos..][|e|..];
  }

  // Parsing undoes encoding.
  lemma {:induction false} ParseEncoded(b: seq<Byte>, pos: nat, p: Program)
    requires pos <= |b| && AllEncodable(p) && b[pos..] == EncodeAll(p)
    ensures Parse(b, pos) == Parsed(p, true)
    decreases |p|
  {
    if p != [] {
      var x, q := p[0], p[1..];
      assert p == [x] + q && Encodable(x) && forall k | 0 <= k < |q| :: q[k] == p[k + 1];
      var e := Encode(x);
      CutFirst(b, pos, e, EncodeAll(q));
      ParseEncoded(b, pos + |e|, q);
      ParseOne(b, pos, x);
    }
  }

  lemma ParseHeadLeaf(b: seq<Byte>, pos: nat, p: Program, n: nat, complete: bool)
    requires pos + 2 <= |b| && b[pos] == AT && n <= |p| && Parse(b, pos) == Parsed(p[n..], complete)
    ensures n < |p| && p[n] == Leaf(b[pos + 1]) && Parse(b, pos + 2) == Parsed(p[n + 1..], complete)
  {
    var rest := Parse(b, pos + 2);
    assert p[n..] == [Leaf(b[pos + 1])] + rest.code;
    TailOf(p, n, Leaf(b[pos + 1]), rest.code);
  }

  lemma ParseHeadBranch(b: seq<Byte>, pos: nat, p: Program, n: nat, complete: bool)
    requires pos + 9 <= |b| && AT < b[pos] <= AT + LEVELS_MAX && n <= |p| && Parse(b, pos) == Parsed(p[n..], complete)
    ensures n < |p| && p[n] == Branch(b[pos] - AT, WordValue(b, pos + 1), WordValue(b, pos + 5))
    ensures Parse(b, pos + 9) == Parsed(p[n + 1..], complete)
  {
    var x, rest := Branch(b[pos] - AT, WordValue(b, pos + 1), WordValue(b, pos + 5)), Parse(b, pos + 9);
    assert p[n..] == [x] + rest.code;
    TailOf(p, n, x, rest.code);
  }

  lemma TailOf(p: Program, n: nat, x: Instr, q: Program)
    requires n <= |p| && p[n..] == [x] + q
    ensures n < |p| && p[n] == x && p[n + 1..] == q
  {
    assert |p[n..]| == 1 + |q|;
    assert p[n..][0] == x && p[n..][1..] == q;
    assert p[n..][1..] == p[n + 1..];
  }
}
