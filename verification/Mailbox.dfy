/**
 * The mailbox queue of the chat server (hw5/src/mailbox.c).
 *
 * The first half is the interleaving of the threads that use one mailbox: every
 * section under the mutex is one step and every semaphore wait taken outside it is
 * a step of its own.  The second half is the circular doubly linked queue itself,
 * including the loop that empties it when the last reference goes.
 */
module Mailbox {
  import opened Common

  datatype NoticeType = NoNotice | Bounce | Receipt

  // A mailbox is named by its address.
  type Address = int

  datatype Entry =
    | Message(msgid: int, from: Address, body: string, length: int)
    | Notice(kind: NoticeType, id: int)

  datatype Status = Active | Defunct

  // ---------------------------------------------------------------------------
  // Interleaved threads
  // ---------------------------------------------------------------------------

  type Thread = nat

  /**
   * `passed` holds the threads that have returned from `sem_wait` and not yet taken
   * the mutex; `taken` lists what `mb_next_entry` has returned so far, leaving out
   * its NULL results, which `nulls` counts.  `crashed` records a take that found the
   * queue empty while the mailbox was active: the C code would then dereference the
   * sentinel's null content.
   */
  datatype State = State(
    status: Status, queue: seq<Entry>, sem: nat, passed: set<Thread>,
    taken: seq<Entry>, nulls: nat, shutdowns: nat, crashed: bool)

  datatype Step =
    | Add(entry: Entry)
    | Shutdown
    | Pass(thread: Thread)
    | Take(thread: Thread)

  const Fresh: State := State(Active, [], 0, {}, [], 0, 0, false)

  // A thread waiting for the semaphore cannot move while its value is zero, and takes the
  // mutex only after it has passed.
  predicate Enabled(s: State, step: Step) {
    match step
    case Add(_) => true
    case Shutdown => true
    case Pass(t) => t !in s.passed && s.sem > 0
    case Take(t) => t in s.passed
  }

  function Next(s: State, step: Step): State
    requires Enabled(s, step)
  {
    match step
    case Add(e) => s.(queue := s.queue + [e], sem := s.sem + 1)
    case Shutdown => s.(status := Defunct, sem := s.sem + 1, shutdowns := s.shutdowns + 1)
    case Pass(t) => s.(sem := s.sem - 1, passed := s.passed + {t})
    case Take(t) =>
      var here := s.(passed := s.passed - {t});
      if s.status == Defunct then here.(nulls := s.nulls + 1)
      else if s.queue == [] then here.(crashed := true)
      else here.(queue := s.queue[1..], taken := s.taken + [s.queue[0]])
  }

  // `steps` can be taken one after the other from `s`.
  predicate Run(s: State, steps: seq<Step>)
    decreases |steps|
  {
    steps == [] || (Enabled(s, steps[0]) && Run(Next(s, steps[0]), steps[1..]))
  }

  function End(s: State, steps: seq<Step>): State
    requires Run(s, steps)
    decreases |steps|
  {
    if steps == [] then s else End(Next(s, steps[0]), steps[1..])
  }

  // Everything added by a run, in order, whatever the other threads do meanwhile.
  function Added(steps: seq<Step>): seq<Entry> {
    if steps == [] then []
    else (if steps[0].Add? then [steps[0].entry] else []) + Added(steps[1..])
  }

  predicate Safe(s: State) {
    && !s.crashed
    && (s.status == Active ==> s.nulls == 0 && s.shutdowns == 0)
    && (s.status == Defunct ==> s.shutdowns > 0)
    && s.sem + |s.passed| + s.nulls == |s.queue| + s.shutdowns
  }

  lemma StepIsSafe(s: State, step: Step)
    requires Safe(s) && Enabled(s, step)
    ensures Safe(Next(s, step))
    ensures Next(s, step).taken + Next(s, step).queue == s.taken + s.queue + Added([step])
    ensures s.status == Defunct ==>
      Next(s, step).status == Defunct && Next(s, step).taken == s.taken
  {
    match step
    case Add(e) =>
      assert s.taken + (s.queue + [e]) == s.taken + s.queue + [e];
      assert Added([step]) == [e];
    case Shutdown =>
    case Pass(t) =>
    case Take(t) =>
      assert |s.passed - {t}| == |s.passed| - 1;
      if s.status == Active {
        assert |s.queue| > 0;
        assert s.taken + [s.queue[0]] + s.queue[1..] == s.taken + s.queue;
      }
  }

  lemma AddedInOrder(steps: seq<Step>)
    requires steps != []
    ensures Added(steps) == Added([steps[0]]) + Added(steps[1..])
  {
    assert [steps[0]][1..] == [];
  }

  lemma Regroup(a: seq<Entry>, b: seq<Entry>, c: seq<Entry>)
    ensures (a + b) + c == a + (b + c)
  {
  }

  /**
   * First in, first out, over every interleaving: what has been taken, followed by what
   * is still queued, is exactly what was added, and no run takes from an empty queue.
   */
  lemma {:induction false} EveryRunIsSafe(s: State, steps: seq<Step>)
    requires Safe(s) && Run(s, steps)
    ensures Safe(End(s, steps))
    ensures End(s, steps).taken + End(s, steps).queue == s.taken + s.queue + Added(steps)
    decreases |steps|
  {
    if steps != [] {
      var s' := Next(s, steps[0]);
      StepIsSafe(s, steps[0]);
      EveryRunIsSafe(s', steps[1..]);
      AddedInOrder(steps);
      Regroup(s.taken + s.queue, Added([steps[0]]), Added(steps[1..]));
    }
  }

  lemma {:induction false} FirstInFirstOut(steps: seq<Step>)
    requires Run(Fresh, steps)
    ensures var s := End(Fresh, steps);
      && !s.crashed
      && s.taken <= Added(steps)
      && s.queue == Added(steps)[|s.taken|..]
      && (s.status == Active ==> |s.queue| == s.sem + |s.passed|)
      && (s.nulls > 0 ==> s.status == Defunct)
  {
    EveryRunIsSafe(Fresh, steps);
    var s := End(Fresh, steps);
    assert s.taken + s.queue == Added(steps);
  }

  // Once a mailbox is defunct it stays so, and nothing is delivered from it any more.
  lemma {:induction false} DefunctForGood(s: State, more: seq<Step>)
    requires Safe(s) && s.status == Defunct && Run(s, more)
    ensures End(s, more).status == Defunct && End(s, more).taken == s.taken
    ensures End(s, more).queue == s.queue + Added(more)
    decreases |more|
  {
    if more != [] {
      StepIsSafe(s, more[0]);
      DefunctForGood(Next(s, more[0]), more[1..]);
      var q := Next(s, more[0]).queue;
      assert q == s.queue + Added([more[0]]);
      AddedInOrder(more);
      Regroup(s.queue, Added([more[0]]), Added(more[1..]));
    }
  }

  // The states of all runs of a new mailbox.
  ghost predicate Reached(s: State) {
    exists steps :: Run(Fresh, steps) && End(Fresh, steps) == s
  }

  lemma ReachedIsSafe(s: State)
    requires Reached(s)
    ensures Safe(s)
  {
    var steps :| Run(Fresh, steps) && End(Fresh, steps) == s;
    EveryRunIsSafe(Fresh, steps);
  }

  /**
   * No wake-up is lost.  A thread that asks for an entry is stuck exactly when there is nothing
   * left for it: in an active mailbox every queued entry has a thread on its way to it, and a
   * defunct one has answered once for each shutdown and each leftover entry, or is about to.
   */
  lemma StuckExactlyWhenIdle(s: State, t: Thread)
    requires Reached(s) && t !in s.passed
    ensures !Enabled(s, Pass(t)) <==>
      |s.passed| + s.nulls == if s.status == Active then |s.queue| else |s.queue| + s.shutdowns
  {
    ReachedIsSafe(s);
  }

  // The thread that services a mailbox alone is handed the oldest entry, and NULL as soon as the
  // mailbox has been shut down.
  lemma ServiceThread(s: State, t: Thread)
    requires Reached(s) && s.passed == {} && s.nulls == 0 && (s.queue != [] || s.status == Defunct)
    ensures Enabled(s, Pass(t)) && Enabled(Next(s, Pass(t)), Take(t))
    ensures var after := Next(Next(s, Pass(t)), Take(t));
      && after.passed == {}
      && if s.status == Active
         then after.taken == s.taken + [s.queue[0]] && after.queue == s.queue[1..]
         else after.taken == s.taken && after.nulls == 1
  {
    ReachedIsSafe(s);
    assert {} + {t} - {t} == {};
  }

  // ---------------------------------------------------------------------------
  // The linked queue
  // ---------------------------------------------------------------------------

  class Cell {
    var content: Option<Entry>
    var next: Cell
    var prev: Cell

    constructor (content: Option<Entry>)
      ensures this.content == content && next == this && prev == this
    {
      this.content := content;
      next := this;
      prev := this;
    }
  }

  // The messages the discard hook is told about: those sent by some other mailbox.
  function Bounced(entries: seq<Entry>, self: Address): seq<Entry> {
    if entries == [] then []
    else
      (if entries[0].Message? && entries[0].from != self then [entries[0]] else [])
      + Bounced(entries[1..], self)
  }

  lemma {:induction false} BouncedGrows(entries: seq<Entry>, e: Entry, self: Address)
    ensures Bounced(entries + [e], self)
         == Bounced(entries, self) + (if e.Message? && e.from != self then [e] else [])
  {
    if entries == [] {
      assert [e][1..] == [];
    } else {
      assert (entries + [e])[1..] == entries[1..] + [e];
      BouncedGrows(entries[1..], e, self);
    }
  }

  // How often `e` is listed.
  function Count(entries: seq<Entry>, e: Entry): nat { multiset(entries)[e] }

  // The hook is called as often as the entry was left over, or not at all.
  lemma {:induction false} BouncedOnce(entries: seq<Entry>, self: Address, e: Entry)
    ensures Count(Bounced(entries, self), e)
         == if e.Message? && e.from != self then Count(entries, e) else 0
  {
    if entries != [] {
      assert entries == [entries[0]] + entries[1..];
      BouncedOnce(entries[1..], self, e);
      var first := if entries[0].Message? && entries[0].from != self then [entries[0]] else [];
      assert Bounced(entries, self) == first + Bounced(entries[1..], self);
      assert multiset(entries) == multiset{entries[0]} + multiset(entries[1..]);
    }
  }

  // A leftover message a mailbox has sent to itself, of which the hook is not told.
  lemma OwnMessage(self: Address, id: int, body: string, length: int)
    ensures Bounced([Message(id, self, body, length)], self) == []
  {
    assert [Message(id, self, body, length)][1..] == [];
  }

  class Queue {
    const self: Address
    var status: Status
    var sem: nat
    var hook: bool
    var box: Cell

    // The cells in ring order, the sentinel first.
    ghost var ring: seq<Cell>

    ghost predicate Valid()
      reads this, ring
    {
      && |ring| > 0 && ring[0] == box
      && (forall i, j :: 0 <= i < j < |ring| ==> ring[i] != ring[j])
      && (forall i :: 0 <= i < |ring| - 1 ==> ring[i].next == ring[i + 1])
      && ring[|ring| - 1].next == box
      && (forall i :: 0 < i < |ring| ==> ring[i].prev == ring[i - 1])
      && box.prev == ring[|ring| - 1]
      && (forall i :: 0 < i < |ring| ==> ring[i].content.Some?)
    }

    // The queued entries, oldest first.
    ghost function Contents(): (s: seq<Entry>)
      reads this, ring
      requires Valid()
      ensures |s| == |ring| - 1
    {
      seq(|ring| - 1, i requires 0 <= i < |ring| - 1 reads this, ring requires Valid() =>
        ring[i + 1].content.value)
    }

    // The queue is the shared part of `s`.
    ghost predicate Shows(s: State)
      reads this, ring
      requires Valid()
    {
      Contents() == s.queue && status == s.status && sem == s.sem
    }

    constructor (self: Address, hook: bool)
      ensures Valid() && fresh(ring) && Contents() == []
      ensures status == Active && sem == 0 && this.self == self && this.hook == hook
    {
      this.self := self;
      this.hook := hook;
      status := Active;
      sem := 0;
      box := new Cell(None);
      new;
      ring := [box];
    }

    method AddEntry(entry: Entry)
      requires Valid()
      modifies this, ring
      ensures Valid() && fresh(set c | c in ring && c !in old(ring))
      ensures Contents() == old(Contents()) + [entry] && sem == old(sem) + 1
      ensures status == old(status) && hook == old(hook) && box == old(box)
      ensures forall s :: old(Shows(s)) ==> Shows(Next(s, Add(entry)))
    {
      var item := new Cell(Some(entry));
      item.next := box;
      item.prev := box.prev;
      box.prev.next := item;
      box.prev := item;
      ring := ring + [item];
      sem := sem + 1;
    }

    method ShutDown()
      modifies this`status, this`sem
      ensures status == Defunct && sem == old(sem) + 1
      ensures old(Valid()) ==> Valid() && forall s :: old(Shows(s)) ==> Shows(Next(s, Shutdown))
    {
      status := Defunct;
      sem := sem + 1;
    }

    // The part of `mb_next_entry` under the mutex; the wait before it is a step of its own.
    method TakeEntry() returns (entry: Option<Entry>)
      requires Valid()
      requires status == Active ==> Contents() != []
      modifies this, ring
      ensures Valid() && status == old(status) && sem == old(sem) && hook == old(hook)
      ensures forall c :: c in ring ==> c in old(ring)
      ensures status == Defunct ==> entry == None && Contents() == old(Contents())
      ensures status == Active ==>
        entry == Some(old(Contents())[0]) && Contents() == old(Contents())[1..]
      ensures forall s, t :: old(Shows(s)) && t in s.passed ==> Shows(Next(s, Take(t)))
    {
      if status == Active {
        var item := box.next;
        assert ring[0].next == ring[1] && ring[1].content.Some?;
        assert ring[1].next == if |ring| > 2 then ring[2] else box;
        assert |ring| > 2 ==> ring[2] in ring;
        item.next.prev := box;
        box.next := item.next;
        entry := item.content;
        ring := [box] + ring[2..];
      } else {
        entry := None;
      }
    }

    // No freed cell is the one at `next`, whether that is still ahead or is the sentinel.
    lemma NotFreedYet(next: nat)
      requires Valid() && next < |ring|
      ensures next == 0 ==> ring[next] !in ring[1..]
      ensures next > 0 ==> ring[next] !in ring[1..next]
    {
    }

    /**
     * The body of `mb_unref` once the count is zero: `discarded` lists the entries freed,
     * `hooked` the ones the discard hook saw, and `cells` the queue cells freed.  No cell is
     * read after it was freed and none is freed twice.
     */
    method Finalize() returns (discarded: seq<Entry>, hooked: seq<Entry>, ghost cells: seq<Cell>)
      requires Valid()
      ensures discarded == Contents()
      ensures hooked == if hook then Bounced(discarded, self) else []
      ensures cells == ring[1..] + [box]
      ensures forall i, j :: 0 <= i < j < |cells| ==> cells[i] != cells[j]
    {
      discarded, hooked, cells := [], [], [];
      var head := box;
      var current := box.next;
      ghost var k := 1;
      while current != head
        invariant 1 <= k <= |ring|
        invariant current == if k < |ring| then ring[k] else box
        invariant discarded == Contents()[..k - 1]
        invariant hooked == if hook then Bounced(discarded, self) else []
        invariant cells == ring[1..k]
        decreases |ring| - k
      {
        assert current !in cells;
        var item := current.content.value;
        if hook && item.Message? && item.from != self {
          hooked := hooked + [item];
        }
        BouncedGrows(discarded, item, self);
        discarded := discarded + [item];
        current := current.next;
        assert current == if k + 1 < |ring| then ring[k + 1] else ring[0];
        assert current !in cells by {
          if k + 1 < |ring| { NotFreedYet(k + 1); } else { NotFreedYet(0); }
        }
        assert current.prev == ring[k];
        cells := cells + [current.prev];
        k := k + 1;
      }
      cells := cells + [box];
    }
  }

  /**
   * Every entry ever added to a mailbox is either delivered or discarded, once: with
   * `discarded` the queue that finalization empties.
   */
  lemma {:induction false} DeliveredOrDiscarded(steps: seq<Step>, e: Entry)
    requires Run(Fresh, steps)
    ensures Count(Added(steps), e)
         == Count(End(Fresh, steps).taken, e) + Count(End(Fresh, steps).queue, e)
  {
    EveryRunIsSafe(Fresh, steps);
    var s := End(Fresh, steps);
    assert s.taken + s.queue == Added(steps);
    assert multiset(Added(steps)) == multiset(s.taken) + multiset(s.queue);
  }
}
