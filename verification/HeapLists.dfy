/**
 Memory as the allocator's pointers see it, and circular doubly linked lists in it.  A pointer
 is the row of a block's header, or -1-c for the head of list c.  The links of a block are the
 two rows after its header; the heads are stored apart.
 */
module HeapLists {

  const LISTS: nat := 8

  datatype Mem = Mem(rows: seq<int>, next: seq<int>, prev: seq<int>)

  function Head(c: int): int { -1 - c }

  ghost predicate IsPtr(m: Mem, p: int)
  {
    |m.next| == |m.prev| == LISTS && if p >= 0 then p + 2 < |m.rows| else -1 - p < LISTS
  }

  ghost function NextLink(m: Mem, p: int): int
    requires IsPtr(m, p)
  {
    if p >= 0 then m.rows[p + 1] else m.next[-1 - p]
  }

  ghost function PrevLink(m: Mem, p: int): int
    requires IsPtr(m, p)
  {
    if p >= 0 then m.rows[p + 2] else m.prev[-1 - p]
  }

  ghost function SetNext(m: Mem, p: int, v: int): Mem
    requires IsPtr(m, p)
  {
    if p >= 0 then m.(rows := m.rows[p + 1 := v]) else m.(next := m.next[-1 - p := v])
  }

  ghost function SetPrev(m: Mem, p: int, v: int): Mem
    requires IsPtr(m, p)
  {
    if p >= 0 then m.(rows := m.rows[p + 2 := v]) else m.(prev := m.prev[-1 - p := v])
  }

  // Going around list c with members l: the head, the members, the head again.
  ghost function Node(c: int, l: seq<int>, k: int): int
    requires 0 <= k <= |l| + 1
  {
    if 1 <= k <= |l| then l[k - 1] else Head(c)
  }

  ghost predicate LinkedAt(m: Mem, c: int, l: seq<int>, k: int)
    requires 0 <= k <= |l|
  {
    var a, b := Node(c, l, k), Node(c, l, k + 1);
    IsPtr(m, a) && IsPtr(m, b) && NextLink(m, a) == b && PrevLink(m, b) == a
  }

  ghost predicate Linked(m: Mem, c: int, l: seq<int>)
  {
    && 0 <= c < LISTS
    && (forall k {:trigger LinkedAt(m, c, l, k)} | 0 <= k <= |l| :: LinkedAt(m, c, l, k))
  }

  // Members are rows at which blocks can be, three or more apart.
  ghost predicate Members(l: seq<int>)
  {
    && (forall k | 0 <= k < |l| :: l[k] >= 0)
    && (forall j, k | 0 <= j < |l| && 0 <= k < |l| && j != k :: Far(l[j], l[k]))
  }

  // The header and the link rows of two blocks are disjoint.
  ghost predicate Far(a: int, b: int) {
    a + 3 <= b || b + 3 <= a
  }

  ghost function Removed(l: seq<int>, j: nat): seq<int>
    requires j < |l|
  {
    l[..j] + l[j + 1..]
  }

  lemma LinkedNode(m: Mem, c: int, l: seq<int>, j: nat)
    requires Linked(m, c, l) && j < |l|
    ensures IsPtr(m, l[j]) && NextLink(m, l[j]) == Node(c, l, j + 2) && PrevLink(m, l[j]) == Node(c, l, j)
    ensures IsPtr(m, Node(c, l, j)) && IsPtr(m, Node(c, l, j + 2))
  {
    assert LinkedAt(m, c, l, j) && LinkedAt(m, c, l, j + 1);
  }

  lemma LinkedHead(m: Mem, c: int, l: seq<int>)
    requires Linked(m, c, l)
    ensures IsPtr(m, Head(c)) && NextLink(m, Head(c)) == Node(c, l, 1) && IsPtr(m, Node(c, l, 1))
  {
    assert LinkedAt(m, c, l, 0);
  }

  // What taking a member out of its list does to memory.
  ghost function Unlinked(m: Mem, x: int): Mem
    requires IsPtr(m, x) && IsPtr(m, PrevLink(m, x)) && IsPtr(m, NextLink(m, x))
  {
    SetPrev(SetNext(m, PrevLink(m, x), NextLink(m, x)), NextLink(m, x), PrevLink(m, x))
  }

  lemma UnlinkedList(m: Mem, c: int, l: seq<int>, j: nat)
    requires Linked(m, c, l) && Members(l) && j < |l|
    ensures IsPtr(m, l[j]) && IsPtr(m, PrevLink(m, l[j])) && IsPtr(m, NextLink(m, l[j]))
    ensures Linked(Unlinked(m, l[j]), c, Removed(l, j)) && Members(Removed(l, j))
  {
    LinkedNode(m, c, l, j);
    var u, r := Unlinked(m, l[j]), Removed(l, j);
    forall k | 0 <= k <= |r|
      ensures LinkedAt(u, c, r, k)
    {
      if k < j {
        assert LinkedAt(m, c, l, k) && Node(c, r, k) == Node(c, l, k) && Node(c, r, k + 1) == Node(c, l, k + 1);
      } else if k > j {
        assert LinkedAt(m, c, l, k + 1) && Node(c, r, k) == Node(c, l, k + 1) && Node(c, r, k + 1) == Node(c, l, k + 2);
      } else {
        assert Node(c, r, k) == Node(c, l, j) && Node(c, r, k + 1) == Node(c, l, j + 2);
      }
    }
  }

  // What putting x at the front of list c does to memory.
  ghost function Pushed(m: Mem, c: int, x: int): Mem
    requires 0 <= c < LISTS && x >= 0 && IsPtr(m, x) && IsPtr(m, Head(c)) && IsPtr(m, NextLink(m, Head(c)))
  {
    var h := NextLink(m, Head(c));
    SetNext(SetPrev(SetPrev(SetNext(m, x, h), x, Head(c)), h, x), Head(c), x)
  }

  lemma PushedList(m: Mem, c: int, l: seq<int>, x: int)
    requires Linked(m, c, l) && Members(l) && x >= 0 && IsPtr(m, x)
    requires forall k | 0 <= k < |l| :: Far(x, l[k])
    ensures IsPtr(m, Head(c)) && IsPtr(m, NextLink(m, Head(c)))
    ensures Linked(Pushed(m, c, x), c, [x] + l) && Members([x] + l)
  {
    LinkedHead(m, c, l);
    var u, r := Pushed(m, c, x), [x] + l;
    forall k | 0 <= k <= |r|
      ensures LinkedAt(u, c, r, k)
    {
      if k >= 2 {
        assert LinkedAt(m, c, l, k - 1) && Node(c, r, k) == Node(c, l, k - 1) && Node(c, r, k + 1) == Node(c, l, k);
      } else if k == 1 {
        assert Node(c, r, 1) == x && Node(c, r, 2) == Node(c, l, 1);
      }
    }
  }

  // A list does not notice writes outside its own links.
  ghost predicate SameLinks(m: Mem, u: Mem, c: int, l: seq<int>)
  {
    && 0 <= c < LISTS && |m.rows| <= |u.rows| && |m.next| == |m.prev| == |u.next| == |u.prev| == LISTS
    && u.next[c] == m.next[c] && u.prev[c] == m.prev[c]
    && forall k | 0 <= k < |l| :: 0 <= l[k] && l[k] + 2 < |m.rows|
         && u.rows[l[k] + 1] == m.rows[l[k] + 1] && u.rows[l[k] + 2] == m.rows[l[k] + 2]
  }

  lemma LinkedFrame(m: Mem, u: Mem, c: int, l: seq<int>)
    requires Linked(m, c, l) && SameLinks(m, u, c, l)
    ensures Linked(u, c, l)
  {
    forall k | 0 <= k <= |l|
      ensures LinkedAt(u, c, l, k)
    {
      assert LinkedAt(m, c, l, k);
    }
  }
}
