/** Writing a node to a byte stream and reading it back: bdd_serialize, bdd_deserialize. */
module BddSerial {
  import opened Common
  import opened BddTable
  import opened BddStore
  import opened BddCode

  const EOF: int := -1

  class Stream {
    var bytes: seq<Byte>

    constructor ()
      ensures bytes == []
    {
      bytes := [];
    }

    method Put(c: Byte)
      modifies this
      ensures bytes == old(bytes) + [c]
    {
      bytes := bytes + [c];
    }

    // A four-byte number, least significant byte first.
    method PutWord(n: nat)
      modifies this
      ensures bytes == old(bytes) + Word(n)
    {
      var rest := n;
      ghost var w := Word(n);
      for i := 0 to 4
        invariant bytes == old(bytes) + w[..i]
        invariant rest == (if i == 0 then n else if i == 1 then n / 256 else if i == 2 then n / 0x1_0000
                           else if i == 3 then n / 0x100_0000 else n / 0x100_0000 / 256)
      {
        Put(rest % 256);
        assert w[..i + 1] == w[..i] + [w[i]];
        rest := rest / 256;
      }
      assert w[..4] == w;
    }
  }

  // ----- the order in which a node's descendants are written -----

  ghost function Reach(t: Table, i: int): set<int>
    requires Reduced(t) && 0 <= i < |t|
    decreases i
  {
    if i < LEAVES then {i}
    else
      assert GoodNode(t, i);
      {i} + Reach(t, t[i].left) + Reach(t, t[i].right)
  }

  ghost function PostOrder(t: Table, order: seq<int>, i: int): seq<int>
    requires Reduced(t) && 0 <= i < |t|
    decreases i
  {
    if i < LEAVES then Added(order, i)
    else
      assert GoodNode(t, i);
      Added(PostOrder(t, PostOrder(t, order, t[i].left), t[i].right), i)
  }

  ghost function Added(order: seq<int>, i: int): seq<int> {
    if i in order then order else order + [i]
  }

  lemma {:induction false} ReachBelow(t: Table, i: int, j: int)
    requires Reduced(t) && 0 <= i < |t| && j in Reach(t, i)
    ensures 0 <= j <= i
    decreases i
  {
    if i >= LEAVES && j != i {
      assert GoodNode(t, i);
      if j in Reach(t, t[i].left) { ReachBelow(t, t[i].left, j); } else { ReachBelow(t, t[i].right, j); }
    }
  }

  // The listing adds exactly the nodes reachable from i, and i itself comes last if new.
  lemma {:induction false} PostOrderListsReach(t: Table, order: seq<int>, i: int)
    requires Reduced(t) && 0 <= i < |t|
    ensures order <= PostOrder(t, order, i)
    ensures forall j :: j in PostOrder(t, order, i) <==> j in order || j in Reach(t, i)
    ensures (forall j | j in Reach(t, i) && j in order :: j < i) ==>
              |PostOrder(t, order, i)| > 0 && PostOrder(t, order, i)[|PostOrder(t, order, i)| - 1] == i
    decreases i
  {
    if i >= LEAVES {
      assert GoodNode(t, i);
      var a := PostOrder(t, order, t[i].left);
      var b := PostOrder(t, a, t[i].right);
      PostOrderListsReach(t, order, t[i].left);
      PostOrderListsReach(t, a, t[i].right);
      forall j | j in Reach(t, t[i].left) || j in Reach(t, t[i].right)
        ensures j < i
      {
        if j in Reach(t, t[i].left) { ReachBelow(t, t[i].left, j); } else { ReachBelow(t, t[i].right, j); }
      }
      assert i in Reach(t, i);
    }
  }

  // ----- writing -----

  // The map gives each listed node its number, counting from 1, and 0 to all others.
  ghost predicate Numbers(m: seq<int>, order: seq<int>)
  {
    && (forall k | 0 <= k < |order| :: 0 <= order[k] < |m| && m[order[k]] == k + 1)
    && (forall i | 0 <= i < |m| && m[i] != 0 :: 1 <= m[i] <= |order| && order[m[i] - 1] == i)
  }

  lemma NumberedIn(m: seq<int>, order: seq<int>, i: int)
    requires Numbers(m, order) && 0 <= i < |m|
    ensures m[i] != 0 <==> i in order
    ensures i in order ==> 1 <= m[i] <= |order| && order[m[i] - 1] == i
  {
    if i in order {
      var k :| 0 <= k < |order| && order[k] == i;
      assert m[order[k]] == k + 1;
    }
  }

  lemma NumbersNext(m: seq<int>, order: seq<int>, i: int)
    requires Numbers(m, order) && 0 <= i < |m| && i !in order
    ensures Numbers(m[i := |order| + 1], order + [i])
  {}

  lemma DescribesNext(t: Table, order: seq<int>, p: Program, i: int, x: Instr)
    requires Describes(t, order, p) && DescribesNode(t, order + [i], p + [x], |p|)
    ensures Describes(t, order + [i], p + [x])
  {
    forall k: nat | k < |p|
      ensures DescribesNode(t, order + [i], p + [x], k)
    {
      assert DescribesNode(t, order, p, k);
    }
  }

  // Numbers fit in four bytes: each listed node has its own index.
  lemma DescribedEncodable(t: Table, m: seq<int>, order: seq<int>, p: Program)
    requires Reduced(t) && |t| <= NODES_MAX && Describes(t, order, p) && Numbers(m, order)
    ensures |order| <= |t| && AllEncodable(p)
  {
    forall k | 0 <= k < |order| ensures 0 <= order[k] < |t| { assert DescribesNode(t, order, p, k); }
    Pigeonhole(order, 0, |t|);
    DescribesWellFormed(t, order, p);
    forall k: nat | k < |p|
      ensures Encodable(p[k])
    {
      assert GoodInstr(p, k);
    }
  }

  // What has been written so far: the listed nodes with their numbers and their code.
  ghost predicate Written(t: Table, m: seq<int>, order: seq<int>, p: Program, counter: int)
  {
    Numbers(m, order) && Describes(t, order, p) && counter == |order| + 1
  }

  method SerializeHelper(s: Store, i: int, indexMap: array<int>, out: Stream, counter: int,
                         ghost order: seq<int>, ghost p: Program)
    returns (counter': int, ghost p': Program)
    requires s.Valid() && 0 <= i < s.next && indexMap.Length == NODES_MAX && indexMap != s.hashMap
    requires Written(s.Table(), indexMap[..], order, p, counter) && out.bytes == EncodeAll(p)
    modifies indexMap, out
    ensures s.Valid() && s.Table() == old(s.Table())
    ensures Written(s.Table(), indexMap[..], PostOrder(s.Table(), order, i), p', counter') && out.bytes == EncodeAll(p')
    decreases i
  {
    ghost var t := s.Table();
    LeafIsLevelZero(t, i);
    counter', p' := counter, p;
    if s.nodes[i].level == 0 {
      counter', p' := EmitLeaf(t, i, indexMap, out, counter, order, p);
    } else {
      assert GoodNode(t, i);
      var left, right := s.nodes[i].left, s.nodes[i].right;
      ghost var a := PostOrder(t, order, left);
      counter', p' := SerializeHelper(s, left, indexMap, out, counter', order, p');
      ghost var b := PostOrder(t, a, right);
      counter', p' := SerializeHelper(s, right, indexMap, out, counter', a, p');
      counter', p' := EmitBranch(s, i, indexMap, out, counter', order, p');
    }
  }

  method EmitLeaf(ghost t: Table, i: int, indexMap: array<int>, out: Stream, counter: int,
                  ghost order: seq<int>, ghost p: Program)
    returns (counter': int, ghost p': Program)
    requires ValidTable(t) && |t| <= NODES_MAX && 0 <= i < LEAVES && indexMap.Length == NODES_MAX
    requires Written(t, indexMap[..], order, p, counter) && out.bytes == EncodeAll(p)
    modifies indexMap, out
    ensures Written(t, indexMap[..], Added(order, i), p', counter') && out.bytes == EncodeAll(p')
  {
    ghost var m := indexMap[..];
    counter', p' := counter, p;
    NumberedIn(m, order, i);
    if indexMap[i] == 0 {
      Emitted(t, m, order, p, i, Leaf(i));
      out.Put(AT);
      out.Put(i);
      assert out.bytes == old(out.bytes) + Encode(Leaf(i));
      p' := p + [Leaf(i)];
      indexMap[i] := counter;
      counter' := counter + 1;
      assert indexMap[..] == m[i := counter];
    }
  }

  method PutInstr(out: Stream, level: nat, left: nat, right: nat)
    modifies out
    ensures out.bytes == old(out.bytes) + Encode(Branch(level, left, right))
  {
    out.Put(Opcode(level));
    out.PutWord(left);
    out.PutWord(right);
    assert out.bytes == old(out.bytes) + ([Opcode(level)] + Word(left) + Word(right));
  }

  // The end of the helper for an inner node, both children being listed.
  method EmitBranch(s: Store, i: int, indexMap: array<int>, out: Stream, counter: int,
                    ghost order: seq<int>, ghost p: Program)
    returns (counter': int, ghost p': Program)
    requires s.Valid() && LEAVES <= i < s.next && indexMap.Length == NODES_MAX && indexMap != s.hashMap
    requires GoodNode(s.Table(), i)
    requires var o := PostOrder(s.Table(), PostOrder(s.Table(), order, s.nodes[i].left), s.nodes[i].right);
             Written(s.Table(), indexMap[..], o, p, counter)
    requires out.bytes == EncodeAll(p)
    modifies indexMap, out
    ensures s.Valid() && s.Table() == old(s.Table())
    ensures Written(s.Table(), indexMap[..], PostOrder(s.Table(), order, i), p', counter') && out.bytes == EncodeAll(p')
  {
    ghost var t := s.Table();
    var left, right := s.nodes[i].left, s.nodes[i].right;
    ghost var b := PostOrder(t, PostOrder(t, order, left), right);
    counter', p' := counter, p;
    ghost var m := indexMap[..];
    NumberedIn(m, b, i);
    ghost var x := EmittedBranch(t, m, order, b, p, i);
    if indexMap[i] == 0 {
      PutInstr(out, s.nodes[i].level, indexMap[left], indexMap[right]);
      p' := p + [x];
      indexMap[i] := counter;
      counter' := counter + 1;
      assert indexMap[..] == m[i := counter];
    }
  }

  lemma ChildrenListed(t: Table, order: seq<int>, i: int)
    requires Reduced(t) && LEAVES <= i < |t| && GoodNode(t, i)
    ensures var b := PostOrder(t, PostOrder(t, order, t[i].left), t[i].right);
            t[i].left in b && t[i].right in b
  {
    var left, right := t[i].left, t[i].right;
    PostOrderListsReach(t, order, left);
    PostOrderListsReach(t, PostOrder(t, order, left), right);
    assert left in Reach(t, left) && right in Reach(t, right);
  }

  lemma EmittedBranch(t: Table, m: seq<int>, order: seq<int>, b: seq<int>, p: Program, i: int) returns (x: Instr)
    requires ValidTable(t) && |t| <= NODES_MAX && |m| == NODES_MAX && LEAVES <= i < |t| && GoodNode(t, i)
    requires b == PostOrder(t, PostOrder(t, order, t[i].left), t[i].right) && Written(t, m, b, p, |b| + 1)
    ensures m[t[i].left] >= 1 && m[t[i].right] >= 1 && x == Branch(t[i].level, m[t[i].left], m[t[i].right])
    ensures i !in b ==>
              Written(t, m[i := |b| + 1], b + [i], p + [x], |b| + 2) && EncodeAll(p + [x]) == EncodeAll(p) + Encode(x)
  {
    var left, right := t[i].left, t[i].right;
    ChildrenListed(t, order, i);
    NumberedIn(m, b, left);
    NumberedIn(m, b, right);
    x := Branch(t[i].level, m[left], m[right]);
    if i !in b {
      Emitted(t, m, b, p, i, x);
    }
  }

  // Listing one more node, whose children are listed.
  lemma Emitted(t: Table, m: seq<int>, order: seq<int>, p: Program, i: int, x: Instr)
    requires ValidTable(t) && |t| <= NODES_MAX && |m| == NODES_MAX && 0 <= i < |t| && i !in order
    requires Written(t, m, order, p, |order| + 1)
    requires DescribesNode(t, order + [i], p + [x], |p|)
    ensures Written(t, m[i := |order| + 1], order + [i], p + [x], |order| + 2)
    ensures Encodable(x) && EncodeAll(p + [x]) == EncodeAll(p) + Encode(x)
  {
    DescribesNext(t, order, p, i, x);
    NumbersNext(m, order, i);
    DescribedEncodable(t, m, order, p);
    DescribedEncodable(t, m[i := |order| + 1], order + [i], p + [x]);
    assert (p + [x])[|p|] == x;
    EncodeAppend(p, x);
  }

  // -1 for no node.  Otherwise the bytes are the code of a program that lists exactly the
  // nodes reachable from the given one, each once, children first and the node last.
  method Serialize(s: Store, i: int, indexMap: array<int>, out: Stream) returns (r: int, ghost p: Program)
    requires s.Valid() && (i == NULL || 0 <= i < s.next) && indexMap.Length == NODES_MAX && indexMap != s.hashMap
    requires out.bytes == []
    modifies indexMap, out
    ensures s.Valid() && s.Table() == old(s.Table())
    ensures if i == NULL then r == -1 && out.bytes == []
            else r == 0 && SerialOf(s.Table(), i, p) && out.bytes == EncodeAll(p)
  {
    if i == NULL { return -1, []; }
    ghost var t := s.Table();
    for k := 0 to NODES_MAX
      invariant s.Valid() && s.Table() == t && out.bytes == []
      invariant forall j | 0 <= j < k :: indexMap[j] == 0
    {
      indexMap[k] := 0;
    }
    var counter := 1;
    counter, p := SerializeHelper(s, i, indexMap, out, counter, [], []);
    r := 0;
    PostOrderListsReach(t, [], i);
    DescribedEncodable(t, indexMap[..], PostOrder(t, [], i), p);
  }

  // The listing of the nodes of i.
  ghost function Listing(t: Table, i: int): seq<int>
    requires Reduced(t) && 0 <= i < |t|
  {
    PostOrder(t, [], i)
  }

  ghost predicate SerialOf(t: Table, i: int, p: Program)
    requires Reduced(t) && 0 <= i < |t|
  {
    && Describes(t, Listing(t, i), p)
    && AllEncodable(p)
    && |p| > 0 && |p| <= |t|
  }

  // ----- reading -----

  // ids[k] is the node built by instruction k.
  ghost predicate AllBuilt(t: Table, ids: seq<int>, p: Program, n: nat)
    requires Reduced(t) && WellFormed(p)
  {
    n <= |p| && |ids| == n && forall k | 0 <= k < n :: Built(t, ids[k], p, k)
  }

  lemma AllBuiltExtends(t: Table, u: Table, ids: seq<int>, p: Program, n: nat, x: int)
    requires Reduced(t) && Reduced(u) && Extends(t, u) && WellFormed(p) && AllBuilt(t, ids, p, n)
    requires n < |p| && Built(u, x, p, n)
    ensures AllBuilt(u, ids + [x], p, n + 1)
  {
    forall k | 0 <= k < n + 1
      ensures Built(u, (ids + [x])[k], p, k)
    {
      if k < n { BuiltExtends(t, u, ids[k], p, k); }
    }
  }

  lemma BuiltRef(t: Table, i: int, p: Program, k: nat, l: nat)
    requires Reduced(t) && WellFormed(p) && k < |p| && Built(t, i, p, k) && Level(p[k]) <= l
    ensures Ref(t, i, l)
  {
    assert BuiltAt(t, i, p, k, l);
  }

  // One branch instruction: a lookup with the nodes its numbers stand for.
  method BuildBranch(s: Store, level: nat, a: int, b: int, ghost p: Program, ghost k: nat) returns (o: Outcome)
    requires s.Valid() && WellFormed(p) && k < |p| && p[k].Branch? && p[k].level == level && GoodInstr(p, k)
    requires Built(s.Table(), a, p, p[k].left - 1) && Built(s.Table(), b, p, p[k].right - 1)
    modifies s, s.nodes, s.hashMap
    ensures s.Valid() && Extends(old(s.Table()), s.Table())
    ensures if o.Exit? then s.next == NODES_MAX else Built(s.Table(), o.value, p, k)
    ensures Node(level, a, b) in old(s.Table()) ==>
              s.Table() == old(s.Table()) && o.Ret? && 0 <= o.value < |s.Table()| && s.Table()[o.value] == Node(level, a, b)
  {
    ghost var t := s.Table();
    BuiltRef(t, a, p, p[k].left - 1, level - 1);
    BuiltRef(t, b, p, p[k].right - 1, level - 1);
    o := s.Join(level, a, b);
    if o.Ret? {
      BuiltExtends(t, s.Table(), a, p, p[k].left - 1);
      BuiltExtends(t, s.Table(), b, p, p[k].right - 1);
      BuiltBranch(s.Table(), o.value, p, k, a, b);
    }
  }

  // Four bytes of the input; short input gives the end-of-file mark.
  method ReadWord(input: seq<Byte>, pos: nat) returns (value: int, pos': nat)
    requires pos <= |input|
    ensures if pos + 4 > |input| then value == EOF else value == WordValue(input, pos) && pos' == pos + 4
  {
    value, pos' := 0, pos;
    var unit: int := 1;
    for i := 0 to 4
      invariant pos' == pos + i <= |input|
      invariant unit == (if i == 0 then 1 else if i == 1 then 256 else if i == 2 then 0x1_0000
                         else if i == 3 then 0x100_0000 else 0x1_0000_0000)
      invariant value == (if i > 0 then input[pos] as int else 0) + (if i > 1 then (input[pos + 1] as int) * 256 else 0)
                         + (if i > 2 then (input[pos + 2] as int) * 0x1_0000 else 0)
                         + (if i > 3 then (input[pos + 3] as int) * 0x100_0000 else 0)
    {
      if pos' == |input| { return EOF, pos'; }
      value := value + (input[pos'] as int) * unit;
      pos' := pos' + 1;
      unit := unit * 256;
    }
  }

  // What the reader has done after serial instructions, the first of them from order if the
  // program describes nodes of the table it started with.
  ghost predicate Read(t0: Table, t: Table, m: seq<int>, p: Program, serial: nat, order: seq<int>)
    requires Reduced(t) && WellFormed(p)
  {
    && serial <= |p| < |m|
    && Extends(t0, t)
    && AllBuilt(t, m[1..serial + 1], p, serial)
    && (Describes(t0, order, p) ==> t == t0 && m[1..serial + 1] == order[..serial])
  }

  lemma ReadNext(t0: Table, t: Table, u: Table, m: seq<int>, p: Program, serial: nat, order: seq<int>, x: int)
    requires Reduced(t0) && Reduced(t) && Reduced(u) && Extends(t, u) && WellFormed(p)
    requires Read(t0, t, m, p, serial, order) && serial < |p| && Built(u, x, p, serial)
    requires Describes(t0, order, p) ==> u == t && x == order[serial]
    ensures Read(t0, u, m[serial + 1 := x], p, serial + 1, order)
  {
    var m' := m[serial + 1 := x];
    assert m'[1..serial + 2] == m[1..serial + 1] + [x];
    AllBuiltExtends(t, u, m[1..serial + 1], p, serial, x);
    if Describes(t0, order, p) {
      assert order[..serial + 1] == order[..serial] + [order[serial]];
    }
  }

  lemma ReadLeaf(t0: Table, t: Table, m: seq<int>, p: Program, serial: nat, order: seq<int>)
    requires Reduced(t0) && Reduced(t) && WellFormed(p)
    requires Read(t0, t, m, p, serial, order) && serial < |p| && p[serial].Leaf?
    ensures Read(t0, t, m[serial + 1 := p[serial].value], p, serial + 1, order)
  {
    BuiltLeaf(t, p, serial);
    if Describes(t0, order, p) {
      assert DescribesNode(t0, order, p, serial);
    }
    ReadNext(t0, t, t, m, p, serial, order, p[serial].value);
  }

  // The entries of the map that a branch refers to.
  lemma ReadChildren(t0: Table, t: Table, m: seq<int>, p: Program, serial: nat, order: seq<int>)
    requires Reduced(t0) && Reduced(t) && WellFormed(p)
    requires Read(t0, t, m, p, serial, order) && serial < |p| && p[serial].Branch?
    ensures GoodInstr(p, serial)
    ensures Built(t, m[p[serial].left], p, p[serial].left - 1) && Built(t, m[p[serial].right], p, p[serial].right - 1)
    ensures Describes(t0, order, p) ==>
              t == t0 && 0 <= order[serial] < |t0| && t0[order[serial]] == Node(p[serial].level, m[p[serial].left], m[p[serial].right])
  {
    assert GoodInstr(p, serial);
    var ids, l, r := m[1..serial + 1], p[serial].left, p[serial].right;
    assert ids[l - 1] == m[l] && ids[r - 1] == m[r];
    assert Built(t, ids[l - 1], p, l - 1) && Built(t, ids[r - 1], p, r - 1);
    if Describes(t0, order, p) {
      assert DescribesNode(t0, order, p, serial);
      assert order[..serial][l - 1] == order[l - 1] && order[..serial][r - 1] == order[r - 1];
    }
  }

  // One branch instruction, the numbers of its children already read.
  method ReadBranch(s: Store, indexMap: array<int>, level: nat, left: nat, right: nat, serial: nat,
                    ghost t0: Table, ghost p: Program, ghost order: seq<int>) returns (o: Outcome)
    requires s.Valid() && indexMap.Length == NODES_MAX && indexMap != s.hashMap
    requires ValidTable(t0) && WellFormed(p) && serial < |p| && p[serial] == Branch(level, left, right)
    requires Read(t0, s.Table(), indexMap[..], p, serial, order)
    modifies s, s.nodes, s.hashMap, indexMap
    ensures s.Valid() && Extends(old(s.Table()), s.Table())
    ensures if o.Exit? then s.next == NODES_MAX && !Describes(t0, order, p) && indexMap[0] == old(indexMap[0])
            else Read(t0, s.Table(), indexMap[..], p, serial + 1, order) && indexMap[0] == old(indexMap[0])
  {
    ghost var t, m := s.Table(), indexMap[..];
    ReadChildren(t0, t, m, p, serial, order);
    var j :- BuildBranch(s, level, indexMap[left], indexMap[right], p, serial);
    if Describes(t0, order, p) {
      assert Inner(t0, j) && Inner(t0, order[serial]) by { assert t0[j] == t0[order[serial]]; LeafIsLevelZero(t0, j); LeafIsLevelZero(t0, order[serial]); }
    }
    ReadNext(t0, t, s.Table(), m, p, serial, order, j);
    indexMap[serial + 1] := j;
    assert indexMap[..] == m[serial + 1 := j];
    o := Ret(j);
  }

  // One leaf instruction.
  method PutLeaf(indexMap: array<int>, serial: nat, input: seq<Byte>, pos: nat,
                 ghost t0: Table, ghost t: Table, ghost p: Program, ghost complete: bool, ghost order: seq<int>)
    requires Reduced(t0) && Reduced(t) && WellFormed(p) && Reading(t0, t, indexMap[..], p, complete, serial, order, input, pos)
    requires pos + 2 <= |input| && input[pos] == AT
    modifies indexMap
    ensures Reading(t0, t, indexMap[..], p, complete, serial + 1, order, input, pos + 2)
    ensures indexMap.Length > 0 && indexMap[0] == old(indexMap[0])
  {
    ghost var m := indexMap[..];
    NextLeaf(t0, t, m, p, complete, serial, order, input, pos);
    indexMap[serial + 1] := input[pos + 1];
    assert indexMap[..] == m[serial + 1 := input[pos + 1]];
  }

  // One branch instruction with the numbers of its children, or the end-of-file mark.
  method NextBranch(s: Store, indexMap: array<int>, serial: nat, input: seq<Byte>, pos: nat,
                    ghost t0: Table, ghost p: Program, ghost complete: bool, ghost order: seq<int>)
    returns (o: Outcome, pos': int)
    requires s.Valid() && indexMap.Length == NODES_MAX && indexMap != s.hashMap && ValidTable(t0) && WellFormed(p)
    requires Reading(t0, s.Table(), indexMap[..], p, complete, serial, order, input, pos)
    requires pos < |input| && AT < input[pos] <= AT + LEVELS_MAX
    modifies s, s.nodes, s.hashMap, indexMap
    ensures s.Valid() && Extends(old(s.Table()), s.Table()) && indexMap[0] == old(indexMap[0])
    ensures pos' == EOF ==> !complete && s.Table() == old(s.Table())
    ensures pos' != EOF ==>
              if o.Exit? then s.next == NODES_MAX && !Describes(t0, order, p)
              else pos' == pos + 9 && Reading(t0, s.Table(), indexMap[..], p, complete, serial + 1, order, input, pos + 9)
  {
    o := Ret(NULL);
    var left, afterLeft := ReadWord(input, pos + 1);
    if left == EOF { return o, EOF; }
    var right, afterRight := ReadWord(input, afterLeft);
    if right == EOF { return o, EOF; }
    ParseHeadBranch(input, pos, p, serial, complete);
    o := ReadBranch(s, indexMap, input[pos] - AT, left, right, serial, t0, p, order);
    pos' := afterRight;
  }

  // One instruction; the end-of-file mark if it is cut short or has an unknown opcode.
  method NextInstr(s: Store, indexMap: array<int>, serial: nat, input: seq<Byte>, pos: nat,
                   ghost t0: Table, ghost p: Program, ghost complete: bool, ghost order: seq<int>)
    returns (o: Outcome, pos': int)
    requires s.Valid() && indexMap.Length == NODES_MAX && indexMap != s.hashMap && ValidTable(t0) && WellFormed(p)
    requires Reading(t0, s.Table(), indexMap[..], p, complete, serial, order, input, pos) && pos < |input|
    modifies s, s.nodes, s.hashMap, indexMap
    ensures s.Valid() && Extends(old(s.Table()), s.Table()) && indexMap[0] == old(indexMap[0])
    ensures pos' == EOF ==> !complete && s.Table() == old(s.Table())
    ensures pos' != EOF ==>
              if o.Exit? then s.next == NODES_MAX && !Describes(t0, order, p)
              else pos < pos' <= |input| && Reading(t0, s.Table(), indexMap[..], p, complete, serial + 1, order, input, pos')
  {
    o, pos' := Ret(NULL), EOF;
    var character := input[pos];
    if character == AT {
      if pos + 1 == |input| { return; }
      PutLeaf(indexMap, serial, input, pos, t0, s.Table(), p, complete, order);
      pos' := pos + 2;
    } else if AT < character <= AT + LEVELS_MAX {
      o, pos' := NextBranch(s, indexMap, serial, input, pos, t0, p, complete, order);
    }
  }

  // The instructions are those of Parse.  NULL for input that is cut short or has an unknown
  // opcode; nothing read leaves entry 0 of the index map.  A program that describes nodes of
  // this very table, in whatever order, rebuilds their indices and no new node.
  method Deserialize(s: Store, input: seq<Byte>, indexMap: array<int>, ghost order: seq<int>) returns (o: Outcome)
    requires s.Valid() && indexMap.Length == NODES_MAX && indexMap != s.hashMap
    requires WellFormed(Parse(input, 0).code) && |Parse(input, 0).code| < NODES_MAX
    modifies s, s.nodes, s.hashMap, indexMap
    ensures s.Valid() && Extends(old(s.Table()), s.Table())
    ensures o.Exit? ==> s.next == NODES_MAX
    ensures var q := Parse(input, 0);
            o.Ret? ==>
              if !q.complete then o.value == NULL
              else if q.code == [] then o.value == old(indexMap[0])
              else Built(s.Table(), o.value, q.code, |q.code| - 1)
    ensures var q := Parse(input, 0);
            Describes(old(s.Table()), order, q.code) ==>
              s.Table() == old(s.Table()) && o.Ret? &&
              (q.complete && q.code != [] ==> o.value == order[|order| - 1])
  {
    ghost var t0, q := s.Table(), Parse(input, 0);
    ghost var p := q.code;
    var serial, pos := 0, 0;
    while pos < |input|
      invariant s.Valid() && indexMap[0] == old(indexMap[0])
      invariant Reading(t0, s.Table(), indexMap[..], p, q.complete, serial, order, input, pos)
      decreases |input| - pos
    {
      var made, next := NextInstr(s, indexMap, serial, input, pos, t0, p, q.complete, order);
      if next == EOF { return Ret(NULL); }
      var j :- made;
      serial := serial + 1;
      pos := next;
    }
    AllRead(t0, s.Table(), indexMap[..], p, q.complete, serial, order, input, pos);
    o := Ret(indexMap[serial]);
  }

  // At pos serial instructions have been read, and the rest is what is left of the program.
  ghost predicate Reading(t0: Table, t: Table, m: seq<int>, p: Program, complete: bool, serial: nat, order: seq<int>, input: seq<Byte>, pos: nat)
    requires Reduced(t) && WellFormed(p)
  {
    && Extends(t0, t) && Read(t0, t, m, p, serial, order)
    && pos <= |input| && Parse(input, pos) == Parsed(p[serial..], complete)
  }

  lemma NextLeaf(t0: Table, t: Table, m: seq<int>, p: Program, complete: bool, serial: nat, order: seq<int>, input: seq<Byte>, pos: nat)
    requires Reduced(t0) && Reduced(t) && WellFormed(p) && Reading(t0, t, m, p, complete, serial, order, input, pos)
    requires pos + 2 <= |input| && input[pos] == AT
    ensures serial + 1 < |m|
    ensures Reading(t0, t, m[serial + 1 := input[pos + 1]], p, complete, serial + 1, order, input, pos + 2)
  {
    ParseHeadLeaf(input, pos, p, serial, complete);
    ReadLeaf(t0, t, m, p, serial, order);
  }

  lemma AllRead(t0: Table, t: Table, m: seq<int>, p: Program, complete: bool, serial: nat, order: seq<int>, input: seq<Byte>, pos: nat)
    requires Reduced(t0) && Reduced(t) && WellFormed(p) && Reading(t0, t, m, p, complete, serial, order, input, pos) && pos == |input|
    ensures complete && serial == |p| < |m|
    ensures p != [] ==> Built(t, m[serial], p, |p| - 1)
    ensures Describes(t0, order, p) ==> t == t0 && (p != [] ==> m[serial] == order[|order| - 1])
  {
    assert p[serial..] == [] && serial == |p|;
    if serial > 0 {
      assert m[1..serial + 1][serial - 1] == m[serial];
      if Describes(t0, order, p) { assert order[..serial] == order; }
    }
  }

  // ----- there and back -----

  ghost predicate Distinct(o: seq<int>)
  {
    forall a, b | 0 <= a < |o| && 0 <= b < |o| && o[a] == o[b] :: a == b
  }

  lemma {:induction false} PostOrderDistinct(t: Table, order: seq<int>, i: int)
    requires Reduced(t) && 0 <= i < |t| && Distinct(order)
    ensures Distinct(PostOrder(t, order, i))
    decreases i
  {
    if i >= LEAVES {
      assert GoodNode(t, i);
      PostOrderDistinct(t, order, t[i].left);
      PostOrderDistinct(t, PostOrder(t, order, t[i].left), t[i].right);
    }
  }

  // The program of a node has one instruction for each node reachable from it; the children
  // of an instruction come before it and the node itself is built last.
  lemma SerialListing(t: Table, i: int, p: Program)
    requires ValidTable(t) && 0 <= i < |t| && SerialOf(t, i, p)
    ensures var o := Listing(t, i);
            && |o| == |p| && o[|o| - 1] == i
            && (forall j :: j in o <==> j in Reach(t, i))
            && Distinct(o)
    ensures WellFormed(p)
  {
    PostOrderListsReach(t, [], i);
    PostOrderDistinct(t, [], i);
    DescribesWellFormed(t, Listing(t, i), p);
  }

  // The left child is written before the right one: the bytes of a node start with those of its
  // left child alone.
  lemma LeftFirst(t: Table, i: int, p: Program, q: Program)
    requires ValidTable(t) && LEAVES <= i < |t| && SerialOf(t, i, p)
    requires 0 <= t[i].left < |t| && SerialOf(t, t[i].left, q)
    ensures |q| < |p| && q == p[..|q|]
    ensures EncodeAll(q) <= EncodeAll(p)
  {
    assert GoodNode(t, i);
    var o, a := Listing(t, i), Listing(t, t[i].left);
    SerialListing(t, i, p);
    SerialListing(t, t[i].left, q);
    PostOrderListsReach(t, a, t[i].right);
    assert a <= o;
    assert i !in a by { if i in a { ReachBelow(t, t[i].left, i); } }
    forall k | 0 <= k < |q|
      ensures q[k] == p[k]
    {
      assert DescribesNode(t, a, q, k) && DescribesNode(t, o, p, k);
    }
    EncodePrefix(p, q);
  }

  // A node of level 1 over two leaves: each leaf as `@` and its value, then `A` and the serial
  // numbers 1 and 2, least significant byte first.
  lemma TwoPixels(t: Table, i: int, p: Program)
    requires ValidTable(t) && LEAVES <= i < |t| && t[i].level == 1 && SerialOf(t, i, p)
    ensures EncodeAll(p) == ['@' as int, t[i].left] + ['@' as int, t[i].right] + (['A' as int] + [1, 0, 0, 0] + [2, 0, 0, 0])
  {
    var a, b := t[i].left, t[i].right;
    assert GoodNode(t, i);
    LeafIsLevelZero(t, a);
    LeafIsLevelZero(t, b);
    assert PostOrder(t, [], a) == [] + [a] == [a];
    assert PostOrder(t, [a], b) == [a] + [b] == [a, b];
    assert Listing(t, i) == [a, b] + [i] == [a, b, i];
    assert DescribesNode(t, [a, b, i], p, 0) && DescribesNode(t, [a, b, i], p, 1) && DescribesNode(t, [a, b, i], p, 2);
    assert p == [Leaf(a), Leaf(b), Branch(1, 1, 2)];
    TwoPixelBytes(a, b);
  }

  lemma TwoPixelBytes(a: Byte, b: Byte)
    ensures EncodeAll([Leaf(a), Leaf(b), Branch(1, 1, 2)]) == [64, a] + [64, b] + ([65] + [1, 0, 0, 0] + [2, 0, 0, 0])
  {
    EncodeThree(Leaf(a), Leaf(b), Branch(1, 1, 2));
    SmallWords();
  }

  lemma EncodeThree(x: Instr, y: Instr, z: Instr)
    ensures EncodeAll([x, y, z]) == Encode(x) + Encode(y) + Encode(z)
  {
    assert [x] == [] + [x] && [x, y] == [x] + [y] && [x, y, z] == [x, y] + [z];
    EncodeAppend([], x);
    EncodeAppend([x], y);
    EncodeAppend([x, y], z);
  }

  lemma SmallWords()
    ensures Word(1) == [1, 0, 0, 0] && Word(2) == [2, 0, 0, 0]
  {}

  // Reading the bytes of a node parses exactly its program.
  lemma SerialParses(t: Table, i: int, p: Program)
    requires ValidTable(t) && 0 <= i < |t| && SerialOf(t, i, p)
    ensures Parse(EncodeAll(p), 0) == Parsed(p, true) && WellFormed(p)
  {
    assert EncodeAll(p)[0..] == EncodeAll(p);
    ParseEncoded(EncodeAll(p), 0, p);
    SerialListing(t, i, p);
  }

  // What any table builds from the program of a node stands for the same image.
  lemma SerialMeaning(t: Table, i: int, p: Program, u: Table, j: int, l: nat)
    requires ValidTable(t) && ValidTable(u) && 0 <= i < |t| && SerialOf(t, i, p) && WellFormed(p)
    requires Built(u, j, p, |p| - 1) && Ref(t, i, l)
    ensures Ref(u, j, l) && SameImage(t, i, u, j, l)
  {
    SerialListing(t, i, p);
    var o := Listing(t, i);
    LevelDescribed(t, o, p, |p| - 1);
    DescribedIsBuilt(t, o, p, |p| - 1);
    SameCodeSameImage(t, i, u, j, p, |p| - 1, l);
  }

  // Writing a node and reading it back into the same table gives its very index and leaves
  // the table as it was.
  method SerializeThenDeserialize(s: Store, i: int, indexMap: array<int>, out: Stream) returns (o: Outcome)
    requires s.Valid() && 0 <= i < s.next && indexMap.Length == NODES_MAX && indexMap != s.hashMap && out.bytes == []
    requires |Reach(s.Table(), i)| < NODES_MAX
    modifies s, s.nodes, s.hashMap, indexMap, out
    ensures s.Valid() && s.Table() == old(s.Table()) && o == Ret(i)
  {
    ghost var t := s.Table();
    var r, p := Serialize(s, i, indexMap, out);
    SerialListing(t, i, p);
    SerialParses(t, i, p);
    ListingSize(Listing(t, i), Reach(t, i));
    o := Deserialize(s, out.bytes, indexMap, Listing(t, i));
  }

  lemma {:induction false} ListingSize(o: seq<int>, reach: set<int>)
    requires Distinct(o) && forall j :: j in o <==> j in reach
    ensures |o| == |reach|
    decreases |o|
  {
    if o == [] {
      forall j
        ensures j !in reach
      {
        assert j !in o;
      }
      assert reach == {};
    } else {
      var x, rest := o[|o| - 1], o[..|o| - 1];
      assert o == rest + [x];
      assert x !in rest && x in reach;
      ListingSize(rest, reach - {x});
    }
  }

  // Reading it into another table gives a node with the same image at every level.
  method DeserializeElsewhere(u: Store, bytes: seq<Byte>, indexMap: array<int>, ghost t: Table, ghost i: int, ghost p: Program)
    returns (o: Outcome)
    requires u.Valid() && indexMap.Length == NODES_MAX && indexMap != u.hashMap
    requires ValidTable(t) && 0 <= i < |t| && SerialOf(t, i, p) && bytes == EncodeAll(p) && |p| < NODES_MAX
    modifies u, u.nodes, u.hashMap, indexMap
    ensures u.Valid() && Extends(old(u.Table()), u.Table())
    ensures if o.Exit? then u.next == NODES_MAX
            else forall l: nat | Ref(t, i, l) :: Ref(u.Table(), o.value, l) && SameImage(t, i, u.Table(), o.value, l)
  {
    SerialParses(t, i, p);
    o := Deserialize(u, bytes, indexMap, []);
    if o.Ret? {
      forall l: nat | Ref(t, i, l)
        ensures Ref(u.Table(), o.value, l) && SameImage(t, i, u.Table(), o.value, l)
      {
        SerialMeaning(t, i, p, u.Table(), o.value, l);
      }
    }
  }
}
