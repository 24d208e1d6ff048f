/** The global node table with its open-addressed hash map, and the lookup that fills both. */
module BddStore {
  import opened BddTable

  const HASH_SIZE: nat := 2097169
  const NULL: int := -1

  // exit() leaves the program; every caller of a step that exits leaves with it.
  datatype Outcome = Exit | Ret(value: int) {
    predicate IsFailure() { Exit? }
    function PropagateFailure(): Outcome requires Exit? { this }
    function Extract(): int requires Ret? { value }
  }

  function Hash(n: Node): (h: int)
    requires n.left >= 0 && n.right >= 0
    ensures 0 <= h < HASH_SIZE
  {
    (n.left % 256) * 256 + n.right % 256 + (n.level % 16) * 65536
  }

  // The slot k steps after start, around the end of the map.
  function Slot(start: int, k: int): (h: int)
    requires 0 <= start < HASH_SIZE && 0 <= k < HASH_SIZE
    ensures IsSlot(h)
  {
    if start + k < HASH_SIZE then start + k else start + k - HASH_SIZE
  }

  lemma NextSlot(start: int, k: int)
    requires 0 <= start < HASH_SIZE && 0 <= k < HASH_SIZE - 1
    ensures (Slot(start, k) + 1) % HASH_SIZE == Slot(start, k + 1) != start
  {}

  ghost predicate MapsInto(hm: seq<int>, n: nat)
  {
    |hm| == HASH_SIZE && forall h {:trigger IsSlot(h)} | IsSlot(h) :: hm[h] == NULL || LEAVES <= hm[h] < n
  }

  // Probing for node p meets p after k occupied slots.
  ghost predicate Reaches(hm: seq<int>, n: Node, p: int, k: int)
    requires |hm| == HASH_SIZE && n.left >= 0 && n.right >= 0
  {
    && 0 <= k < HASH_SIZE
    && hm[Slot(Hash(n), k)] == p
    && forall m | 0 <= m < k :: hm[Slot(Hash(n), m)] != NULL
  }

  ghost predicate Reachable(hm: seq<int>, n: Node, p: int)
    requires |hm| == HASH_SIZE && n.left >= 0 && n.right >= 0
  {
    exists k :: Reaches(hm, n, p, k)
  }

  ghost predicate IsSlot(h: int)
  {
    0 <= h < HASH_SIZE
  }

  // The map holds each inner node of the table once, on its own probe path.
  ghost predicate MapOf(hm: seq<int>, t: Table)
  {
    && MapsInto(hm, |t|)
    && (forall g, h {:trigger IsSlot(g), IsSlot(h)} | IsSlot(g) && IsSlot(h) && hm[g] == hm[h] != NULL :: g == h)
    && (forall p {:trigger Inner(t, p)} | Inner(t, p) ::
          t[p].left >= 0 && t[p].right >= 0 && Reachable(hm, t[p], p))
  }

  class Store {
    const nodes: array<Node>
    const hashMap: array<int>
    var next: nat

    ghost predicate Valid()
      reads this, nodes, hashMap
    {
      && nodes.Length == NODES_MAX && hashMap.Length == HASH_SIZE
      && LEAVES <= next <= NODES_MAX
      && ValidTable(nodes[..next])
      && (forall k | next <= k < NODES_MAX :: nodes[k] == Node(0, 0, 0))
      && MapOf(hashMap[..], nodes[..next])
    }

    ghost function Table(): (t: Table)
      requires Valid()
      reads this, nodes, hashMap
      ensures ValidTable(t) && |t| == next
    {
      nodes[..next]
    }

    constructor ()
      ensures Valid() && fresh(nodes) && fresh(hashMap)
      ensures |Table()| == LEAVES
    {
      nodes := new Node[NODES_MAX](_ => Node(0, 0, 0));
      hashMap := new int[HASH_SIZE](_ => NULL);
      next := LEAVES;
    }

    // -1 for arguments out of bounds.  Otherwise the one index whose children at this level
    // are the given ones: an old index when there is one, and else the next free index.
    // exit() happens only when the table is full.
    method Lookup(level: int, left: int, right: int) returns (o: Outcome)
      requires Valid()
      requires 0 <= level <= LEVELS_MAX && 0 <= left < NODES_MAX && 0 <= right < NODES_MAX && left != right ==>
                 level >= 1 && Ref(Table(), left, level - 1) && Ref(Table(), right, level - 1)
      modifies this, nodes, hashMap
      ensures Valid() && Extends(old(Table()), Table())
      ensures !(0 <= level <= 32 && 0 <= left < 0x10_0000 && 0 <= right < 0x10_0000) ==>
                o == Ret(-1) && Table() == old(Table())
      ensures 0 <= level <= 32 && 0 <= left < 0x10_0000 && 0 <= right < 0x10_0000 ==>
                if left == right then o == Ret(left) && Table() == old(Table())
                else LookedUp(old(Table()), Table(), Node(level, left, right), o)
    {
      if level < 0 || level > LEVELS_MAX { return Ret(-1); }
      if left < 0 || left >= NODES_MAX { return Ret(-1); }
      if right < 0 || right >= NODES_MAX { return Ret(-1); }
      if left == right { return Ret(left); }
      var node := Node(level, left, right);
      var slot, k := Probe(node);
      if hashMap[slot] != NULL {
        return Ret(hashMap[slot]);
      }
      o := Append(node, slot, k);
    }

    // The lookup as its callers in the engine use it: with proper children.
    method Join(level: nat, left: int, right: int) returns (o: Outcome)
      requires Valid() && 1 <= level <= LEVELS_MAX
      requires Ref(Table(), left, level - 1) && Ref(Table(), right, level - 1)
      modifies this, nodes, hashMap
      ensures Valid() && Extends(old(Table()), Table())
      ensures if o.Exit? then next == NODES_MAX else Joins(Table(), o.value, level, left, right)
      ensures Node(level, left, right) in old(Table()) ==>
                Table() == old(Table()) && o.Ret? && 0 <= o.value < |Table()| && Table()[o.value] == Node(level, left, right)
    {
      assert left == right ==> Node(level, left, right) !in Table() by {
        ghost var t := Table();
        forall k | 0 <= k < |t|
          ensures left == right ==> t[k] != Node(level, left, right)
        {
          assert k >= LEAVES ==> GoodNode(t, k);
        }
      }
      o := Lookup(level, left, right);
    }

    // The search of the lookup: it stops at the slot of an equal node or at a gap, and at a
    // gap only if the table has no equal node.
    method Probe(node: Node) returns (slot: int, ghost k: int)
      requires Valid() && 1 <= node.level && 0 <= node.left && 0 <= node.right
      ensures 0 <= k < HASH_SIZE && slot == Slot(Hash(node), k)
      ensures forall m | 0 <= m < k :: hashMap[Slot(Hash(node), m)] != NULL
      ensures if hashMap[slot] == NULL then node !in Table()
              else LEAVES <= hashMap[slot] < next && Table()[hashMap[slot]] == node
    {
      ghost var t, hm := Table(), hashMap[..];
      var start := Hash(node);
      k, slot := 0, start;
      ghost var gap := GapOnPath(hm, t, start);
      while hashMap[slot] != NULL
        invariant 0 <= k <= gap && slot == Slot(start, k)
        invariant forall m | 0 <= m < k :: hm[Slot(start, m)] != NULL && t[hm[Slot(start, m)]] != node
        decreases gap - k
      {
        assert hm[slot] == hashMap[slot] && LEAVES <= hm[slot] < |t| && t[hm[slot]] == nodes[hashMap[slot]];
        if nodes[hashMap[slot]] == node {
          return;
        }
        NextSlot(start, k);
        slot := (slot + 1) % HASH_SIZE;
        k := k + 1;
        if slot == start {
          assert false;
          return;
        }
      }
      AbsentAtGap(hm, t, node, k);
    }

    // The tail of the lookup: the node goes to the next free index and to the gap found.
    method Append(node: Node, gap: int, ghost k: int) returns (o: Outcome)
      requires Valid() && node !in Table()
      requires 1 <= node.level <= LEVELS_MAX && node.left != node.right
      requires Ref(Table(), node.left, node.level - 1) && Ref(Table(), node.right, node.level - 1)
      requires 0 <= k < HASH_SIZE && gap == Slot(Hash(node), k) && hashMap[gap] == NULL
      requires forall m | 0 <= m < k :: hashMap[Slot(Hash(node), m)] != NULL
      modifies this, nodes, hashMap
      ensures Valid() && Extends(old(Table()), Table())
      ensures LookedUp(old(Table()), Table(), node, o)
    {
      ghost var t, hm := Table(), hashMap[..];
      if next < NODES_MAX {
        if nodes[next] == Node(0, 0, 0) {
          InsertNode(t, node);
          InsertSlot(hm, t, node, k);
          nodes[next] := node;
          hashMap[gap] := next;
          next := next + 1;
          SeqUpdates(nodes, t, next - 1);
          assert hashMap[..] == hm[gap := |t|];
          return Ret(next - 1);
        }
      }
      return Exit;
    }
  }

  lemma SeqUpdates(a: array<Node>, t: Table, n: nat)
    requires n == |t| < a.Length && a[..n] == t
    ensures a[..n + 1] == t + [a[n]]
  {}

  // What a lookup of two distinct children leaves behind.
  ghost predicate LookedUp(t: Table, u: Table, n: Node, o: Outcome)
    requires Reduced(u)
  {
    match o
    case Exit => u == t && |t| == NODES_MAX && n !in t
    case Ret(i) => Joins(u, i, n.level, n.left, n.right)
                   && LEAVES <= i < |u| && u[i] == n && (if n in t then u == t else u == t + [n] && i == |t|)
  }

  // The first gap on the probe path shows that the node is not in the table.
  lemma AbsentAtGap(hm: seq<int>, t: Table, n: Node, k: int)
    requires MapOf(hm, t) && n.level >= 1 && n.left >= 0 && n.right >= 0 && 0 <= k < HASH_SIZE
    requires hm[Slot(Hash(n), k)] == NULL
    requires forall m | 0 <= m < k :: hm[Slot(Hash(n), m)] != NULL && t[hm[Slot(Hash(n), m)]] != n
    requires LEAVES <= |t| && forall i | 0 <= i < LEAVES :: t[i] == Node(0, 0, 0)
    ensures n !in t
  {
    forall p | LEAVES <= p < |t|
      ensures t[p] != n
    {
      assert Inner(t, p);
      assert Reachable(hm, t[p], p);
      var j :| Reaches(hm, t[p], p, j);
    }
  }

  lemma InsertNode(t: Table, n: Node)
    requires ValidTable(t) && n !in t && 1 <= n.level <= LEVELS_MAX && n.left != n.right
    requires Ref(t, n.left, n.level - 1) && Ref(t, n.right, n.level - 1)
    ensures ValidTable(t + [n])
  {
    var u := t + [n];
    forall i | LEAVES <= i < |u|
      ensures GoodNode(u, i)
    {
      if i < |t| { assert GoodNode(t, i); }
    }
    forall i, j | Inner(u, i) && Inner(u, j) && u[i] == u[j]
      ensures i == j
    {
      assert (i < |t| ==> Inner(t, i)) && (j < |t| ==> Inner(t, j));
    }
  }

  lemma InsertSlot(hm: seq<int>, t: Table, n: Node, k: int)
    requires MapOf(hm, t) && n.level >= 1 && n.left >= 0 && n.right >= 0 && 0 <= k < HASH_SIZE && |t| >= LEAVES
    requires hm[Slot(Hash(n), k)] == NULL
    requires forall m | 0 <= m < k :: hm[Slot(Hash(n), m)] != NULL
    ensures MapOf(hm[Slot(Hash(n), k) := |t|], t + [n])
  {
    var hm', u := hm[Slot(Hash(n), k) := |t|], t + [n];
    forall p | Inner(u, p)
      ensures u[p].left >= 0 && u[p].right >= 0 && Reachable(hm', u[p], p)
    {
      if p < |t| {
        assert Inner(t, p) && Reachable(hm, t[p], p);
        var j :| Reaches(hm, t[p], p, j);
        assert Reaches(hm', u[p], p, j);
      } else {
        assert Reaches(hm', n, p, k);
      }
    }
  }

  // The map has more slots than the table has nodes, so every probe meets a gap.
  lemma GapOnPath(hm: seq<int>, t: Table, start: int) returns (k: int)
    requires MapOf(hm, t) && LEAVES <= |t| <= NODES_MAX && 0 <= start < HASH_SIZE
    ensures 0 <= k < HASH_SIZE && hm[Slot(start, k)] == NULL
  {
    if NULL !in hm {
      forall h | 0 <= h < HASH_SIZE ensures LEAVES <= hm[h] < |t| { assert IsSlot(h); }
      forall g, h | 0 <= g < HASH_SIZE && 0 <= h < HASH_SIZE && hm[g] == hm[h]
        ensures g == h
      {
        assert IsSlot(g) && IsSlot(h);
      }
      Pigeonhole(hm, LEAVES, |t|);
      assert false;
    }
    var h :| 0 <= h < HASH_SIZE && hm[h] == NULL;
    k := if h >= start then h - start else h - start + HASH_SIZE;
  }

  lemma {:induction false} Pigeonhole(s: seq<int>, lo: int, hi: int)
    requires lo <= hi
    requires forall h | 0 <= h < |s| :: lo <= s[h] < hi
    requires forall g, h | 0 <= g < |s| && 0 <= h < |s| && s[g] == s[h] :: g == h
    ensures |s| <= hi - lo
    decreases hi - lo
  {
    if s == [] { return; }
    assert lo <= s[0] < hi;
    if hi - 1 in s {
      var k :| 0 <= k < |s| && s[k] == hi - 1;
      Pigeonhole(s[..k] + s[k + 1..], lo, hi - 1);
    } else {
      Pigeonhole(s, lo, hi - 1);
    }
  }
}
