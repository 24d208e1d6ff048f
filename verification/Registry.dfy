/**
 * The client registry of the chat server (hw5/src/client_registry.c): the slot array, and
 * the wait of `creg_shutdown_all` against clients that unregister concurrently.
 */
module Registry {

  const MAX_CLIENTS := 64

  class Client {
    const fd: int

    constructor (fd: int)
      ensures this.fd == fd
    {
      this.fd := fd;
    }
  }

  // The clients held by `slots`, in slot order.
  function Listed(slots: seq<Client?>): (r: seq<Client>)
    ensures |r| <= |slots|
  {
    if slots == [] then []
    else
      var rest := Listed(slots[..|slots| - 1]);
      if slots[|slots| - 1] == null then rest else rest + [slots[|slots| - 1]]
  }

  // A slot written with or cleared of a client changes the list by that one client.
  lemma {:induction false} SlotWritten(slots: seq<Client?>, i: nat, c: Client)
    requires i < |slots| && slots[i] == null
    ensures |Listed(slots[i := c])| == |Listed(slots)| + 1
    decreases |slots|
  {
    var n := |slots| - 1;
    if i < n {
      assert slots[i := c][..n] == slots[..n][i := c];
      SlotWritten(slots[..n], i, c);
    } else {
      assert slots[i := c][..n] == slots[..n];
    }
  }

  lemma {:induction false} ListedInOrder(slots: seq<Client?>, k: nat)
    requires k <= |slots|
    ensures Listed(slots[..k]) <= Listed(slots)
    ensures |Listed(slots[..k])| == |Listed(slots)| <==> forall i :: k <= i < |slots| ==> slots[i] == null
    decreases |slots|
  {
    var n := |slots| - 1;
    if k <= n {
      assert slots[..n][..k] == slots[..k];
      ListedInOrder(slots[..n], k);
    } else {
      assert slots[..k] == slots;
    }
  }

  lemma {:induction false} FullMeansNoGap(slots: seq<Client?>)
    ensures |Listed(slots)| == |slots| <==> null !in slots
    decreases |slots|
  {
    if slots != [] {
      var n := |slots| - 1;
      FullMeansNoGap(slots[..n]);
      assert slots == slots[..n] + [slots[n]];
    }
  }

  lemma {:induction false} ListedAreTheClients(slots: seq<Client?>, c: Client)
    ensures c in Listed(slots) <==> c in slots
    decreases |slots|
  {
    if slots != [] {
      var n := |slots| - 1;
      ListedAreTheClients(slots[..n], c);
      assert slots == slots[..n] + [slots[n]];
    }
  }

  class Store {
    var count: nat
    const clients: array<Client?>

    ghost predicate Valid()
      reads this, clients
    {
      && clients.Length == MAX_CLIENTS
      && count == |Listed(clients[..])|
      && forall i, j :: 0 <= i < j < clients.Length && clients[i] != null ==> clients[i] != clients[j]
    }

    // The registry part of a state of the step machine below.
    ghost predicate Shows(s: State)
      reads this
    {
      s.count == count
    }

    constructor ()
      ensures Valid() && fresh(clients) && count == 0 && Listed(clients[..]) == []
    {
      count := 0;
      clients := new Client?[MAX_CLIENTS](_ => null);
      new;
      NoneListed(clients[..]);
    }

    static lemma {:induction false} NoneListed(slots: seq<Client?>)
      requires forall i :: 0 <= i < |slots| ==> slots[i] == null
      ensures Listed(slots) == []
      decreases |slots|
    {
      if slots != [] {
        NoneListed(slots[..|slots| - 1]);
      }
    }

    /**
     * A new client goes into the first empty slot; with 64 clients registered the answer is
     * NULL and nothing changes.
     */
    method Register(fd: int) returns (r: Client?, ghost slot: nat)
      requires Valid()
      modifies this, clients
      ensures Valid()
      ensures r == null <==> old(count) == 64
      ensures r == null ==> clients[..] == old(clients[..]) && count == old(count)
      ensures r != null ==>
        && fresh(r) && r.fd == fd && count == old(count) + 1
        && slot < MAX_CLIENTS && old(clients[slot]) == null
        && (forall i :: 0 <= i < slot ==> old(clients[i]) != null)
        && clients[..] == old(clients[..])[slot := r]
      ensures forall s :: old(Shows(s)) ==>
        if r == null then !Enabled(s, Join) else Enabled(s, Join) && Shows(Next(s, Join))
    {
      if count < MAX_CLIENTS {
        var client := new Client(fd);
        FullMeansNoGap(clients[..]);
        for i := 0 to MAX_CLIENTS
          invariant clients[..] == old(clients[..]) && count == old(count)
          invariant forall j :: 0 <= j < i ==> clients[j] != null
        {
          if clients[i] == null {
            SlotWritten(clients[..], i, client);
            clients[i] := client;
            count := count + 1;
            return client, i;
          }
        }
      } else {
        FullMeansNoGap(clients[..]);
      }
      return null, 0;
    }

    method Unregister(client: Client) returns (r: int)
      requires Valid()
      modifies this, clients
      ensures Valid()
      ensures r == if client in old(clients[..]) then 0 else -1
      ensures r == -1 ==> clients[..] == old(clients[..]) && count == old(count)
      ensures r == 0 ==> count == old(count) - 1 && client !in clients[..]
      ensures r == 0 ==> forall i :: 0 <= i < clients.Length ==>
        clients[i] == if old(clients[i]) == client then null else old(clients[i])
      ensures forall s :: r == 0 && old(Shows(s)) ==> Enabled(s, Leave) && Shows(Next(s, Leave))
    {
      for i := 0 to MAX_CLIENTS
        invariant clients[..] == old(clients[..]) && count == old(count)
        invariant forall j :: 0 <= j < i ==> clients[j] != client
      {
        if clients[i] == client {
          clients[i] := null;
          SlotWritten(clients[..], i, client);
          assert clients[..][i := client] == old(clients[..]);
          count := count - 1;
          return 0;
        }
      }
      return -1;
    }

    /**
     * The list handed out holds exactly the registered clients, in slot order, and ends with
     * NULL, although the loop stops as soon as it has seen `count` of them.
     */
    method AllClients() returns (list: array<Client?>)
      requires Valid()
      ensures fresh(list) && list.Length == count + 1
      ensures list[..] == Listed(clients[..]) + [null]
    {
      list := new Client?[count + 1](_ => null);
      var found := 0;
      var i := 0;
      while i < MAX_CLIENTS
        invariant 0 <= i <= MAX_CLIENTS
        invariant found == |Listed(clients[..i])| <= count
        invariant list[..found] == Listed(clients[..i])
        invariant forall j :: found <= j <= count ==> list[j] == null
      {
        assert clients[..i + 1][..i] == clients[..i];
        ListedInOrder(clients[..], i + 1);
        if clients[i] != null {
          list[found] := clients[i];
          found := found + 1;
        }
        if found == count {
          break;
        }
        i := i + 1;
      }
      assert clients[..MAX_CLIENTS] == clients[..];
      assert found == count && list[..found] == Listed(clients[..]) by {
        if i < MAX_CLIENTS {
          assert clients[..i + 1][..i] == clients[..i];
          ListedInOrder(clients[..], i + 1);
        }
      }
      list[count] := null;
      assert list[..] == list[..found] + [list[count]];
    }

    // The section of `creg_shutdown_all` under the mutex shuts down every connection once.
    method ShutDownSockets() returns (fds: seq<int>)
      requires Valid()
      ensures |fds| == |Listed(clients[..])| == count
      ensures forall k :: 0 <= k < |fds| ==> fds[k] == Listed(clients[..])[k].fd
      ensures forall i :: 0 <= i < MAX_CLIENTS && clients[i] != null ==> clients[i].fd in fds
    {
      fds := [];
      for i := 0 to MAX_CLIENTS
        invariant |fds| == |Listed(clients[..i])|
        invariant forall k :: 0 <= k < |fds| ==> fds[k] == Listed(clients[..i])[k].fd
        invariant forall j :: 0 <= j < i && clients[j] != null ==> clients[j].fd in fds
      {
        assert clients[..i + 1][..i] == clients[..i];
        if clients[i] != null {
          fds := fds + [clients[i].fd];
        }
      }
      assert clients[..MAX_CLIENTS] == clients[..];
    }
  }

  // ---------------------------------------------------------------------------
  // Waiting for the last client
  // ---------------------------------------------------------------------------

  // Where the one thread inside `creg_shutdown_all` is.
  datatype Waiter = Outside | Checking | Waiting

  /**
   * `pending` counts the threads that have removed their client and released the mutex but
   * not posted yet; `registered` and `wakes` count successful registrations and completed
   * semaphore waits; `ended` counts the calls of `creg_shutdown_all` that have returned.
   */
  datatype State = State(
    count: nat, pending: nat, sem: nat, waiter: Waiter,
    registered: nat, wakes: nat, ended: nat)

  datatype Step = Join | Leave | Post | Enter | Check | Wake

  predicate Initial(s: State) {
    && s.count == s.pending == s.sem == 0 && s.waiter == Outside
    && s.registered == s.wakes == s.ended == 0
  }

  predicate Enabled(s: State, step: Step) {
    match step
    case Join => s.count < MAX_CLIENTS
    case Leave => s.count > 0
    case Post => s.pending > 0
    case Enter => s.waiter == Outside
    case Check => s.waiter == Checking
    case Wake => s.waiter == Waiting && s.sem > 0
  }

  function Next(s: State, step: Step): State
    requires Enabled(s, step)
  {
    match step
    case Join => s.(count := s.count + 1, registered := s.registered + 1)
    case Leave => s.(count := s.count - 1, pending := s.pending + 1)
    case Post => s.(pending := s.pending - 1, sem := s.sem + 1)
    case Enter => s.(waiter := Checking)
    case Check =>
      if s.count == 0 then s.(waiter := Outside, ended := s.ended + 1) else s.(waiter := Waiting)
    case Wake => s.(waiter := Checking, sem := s.sem - 1, wakes := s.wakes + 1)
  }

  predicate Run(s: State, steps: seq<Step>)
    decreases |steps|
  {
    steps == [] || (Enabled(s, steps[0]) && Run(Next(s, steps[0]), steps[1..]))
  }

  function End(s: State, steps: seq<Step>): State
    requires Run(s, steps)
    decreases |steps|
  {
    if steps == [] then s else End(Next(s, steps[0]), steps[1..])
  }

  // Every registration is accounted for: still registered, on its way to the semaphore, in it,
  // or spent on a wake-up.  A blocked waiter always has one of the first three left.
  predicate Accounted(s: State) {
    && s.count + s.pending + s.sem + s.wakes == s.registered
    && (s.waiter == Waiting ==> s.count + s.pending + s.sem > 0)
    && s.count <= MAX_CLIENTS
  }

  lemma {:induction false} EveryRunIsAccounted(s: State, steps: seq<Step>)
    requires Accounted(s) && Run(s, steps)
    ensures Accounted(End(s, steps))
    decreases |steps|
  {
    if steps != [] {
      EveryRunIsAccounted(Next(s, steps[0]), steps[1..]);
    }
  }

  // The states of all runs of a new registry.
  ghost predicate Reached(s: State) {
    exists start, steps :: Initial(start) && Run(start, steps) && End(start, steps) == s
  }

  lemma ReachedIsAccounted(s: State)
    requires Reached(s)
    ensures Accounted(s)
  {
    var start, steps :| Initial(start) && Run(start, steps) && End(start, steps) == s;
    EveryRunIsAccounted(start, steps);
  }

  /**
   * No post is lost: when the waiter is blocked and the last client has gone, the semaphore
   * is up or about to be.  Wake-ups never outnumber registrations.
   */
  lemma NoLostPost(s: State)
    requires Reached(s)
    ensures s.waiter == Waiting && s.count == 0 ==> s.sem + s.pending > 0
    ensures s.wakes <= s.registered
  {
    ReachedIsAccounted(s);
  }

  // After the first `k` steps the shutdown call is about to return: it reads a count of zero.
  predicate ReturnsAt(s: State, steps: seq<Step>, k: nat)
    requires Run(s, steps) && k < |steps|
  {
    RunPrefix(s, steps, k);
    var before := End(s, steps[..k]);
    steps[k] == Check && before.waiter == Checking && before.count == 0
  }

  lemma {:induction false} RunPrefix(s: State, steps: seq<Step>, k: nat)
    requires Run(s, steps) && k <= |steps|
    ensures Run(s, steps[..k])
    ensures k < |steps| ==>
      Enabled(End(s, steps[..k]), steps[k])
      && Run(s, steps[..k + 1]) && End(s, steps[..k + 1]) == Next(End(s, steps[..k]), steps[k])
    decreases k
  {
    if k == 0 {
      assert steps != [] ==> steps[..1][1..] == [];
    } else {
      assert steps[..k][1..] == steps[1..][..k - 1];
      assert k < |steps| ==> steps[..k + 1][1..] == steps[1..][..k];
      RunPrefix(Next(s, steps[0]), steps[1..], k - 1);
    }
  }

  // The returns of the shutdown call among the first `n` steps of a run.
  function Returns(s: State, steps: seq<Step>, n: nat): set<nat>
    requires Run(s, steps) && n <= |steps|
  {
    set k: nat | k < n && ReturnsAt(s, steps, k)
  }

  /**
   * Over every run, the shutdown call returns as often as a check of the waiter finds the
   * count at zero: never otherwise, and every time.
   */
  lemma {:induction false} ReturnsOnZero(s: State, steps: seq<Step>, n: nat)
    requires Run(s, steps) && n <= |steps|
    ensures Run(s, steps[..n])
    ensures End(s, steps[..n]).ended == s.ended + |Returns(s, steps, n)|
    decreases n
  {
    RunPrefix(s, steps, n);
    if n > 0 {
      ReturnsOnZero(s, steps, n - 1);
      OneReturn(s, steps, n - 1);
    }
  }

  lemma OneReturn(s: State, steps: seq<Step>, k: nat)
    requires Run(s, steps) && k < |steps|
    ensures Run(s, steps[..k]) && Run(s, steps[..k + 1])
    ensures End(s, steps[..k + 1]).ended - End(s, steps[..k]).ended
         == |Returns(s, steps, k + 1)| - |Returns(s, steps, k)|
  {
    RunPrefix(s, steps, k);
    var last := if ReturnsAt(s, steps, k) then {k} else {};
    assert Returns(s, steps, k + 1) == Returns(s, steps, k) + last;
    assert k !in Returns(s, steps, k);
  }

  // One client that leaves while the call is on its way to the count: the call returns first.
  lemma ReturnBeforePost() returns (s: State)
    ensures Reached(s) && s.ended == 1 && s.pending == 1
  {
    var start := State(0, 0, 0, Outside, 0, 0, 0);
    var s1 := Next(start, Join);
    var s2 := Next(s1, Enter);
    var s3 := Next(s2, Leave);
    s := Next(s3, Check);
    var steps := [Join, Enter, Leave, Check];
    assert steps[1..] == [Enter, Leave, Check] && steps[1..][1..] == [Leave, Check];
    assert steps[1..][1..][1..] == [Check] && steps[1..][1..][1..][1..] == [];
    assert Run(s, []) && End(s, []) == s;
    assert Run(s3, [Check]) && End(s3, [Check]) == s;
    assert Run(s2, [Leave, Check]) && End(s2, [Leave, Check]) == s;
    assert Run(s1, [Enter, Leave, Check]) && End(s1, [Enter, Leave, Check]) == s;
    assert Run(start, steps) && End(start, steps) == s;
    assert Initial(start);
  }

  // What is left to happen when no client joins and the waiter does not start again.
  function Left(s: State): nat {
    4 * s.count + 3 * s.pending + 2 * s.sem + if s.waiter == Checking then 1 else 0
  }

  predicate Closing(steps: seq<Step>) {
    Join !in steps && Enter !in steps
  }

  // ----- posts still owed at the return -----

  // The shutdown call in progress returns in the last of `steps`, when a thread has yet to post, to
  // a semaphore that the caller destroys next.
  ghost predicate ReturnsOwing(s: State, steps: seq<Step>) {
    && Run(s, steps) && steps != [] && Enter !in steps
    && ReturnsAt(s, steps, |steps| - 1) && End(s, steps).pending > 0
  }

  // A waiter about to read the count may return first if any thread has still to post; a blocked
  // one needs a post of its own to wake up, unless the semaphore is up already.
  predicate MayOwe(s: State) {
    match s.waiter
    case Checking => s.count + s.pending > 0
    case Waiting => s.count + s.pending > if s.sem > 0 then 0 else 1
    case Outside => false
  }

  lemma {:induction false} RunAppend(s: State, a: seq<Step>, b: seq<Step>)
    requires Run(s, a) && Run(End(s, a), b)
    ensures Run(s, a + b) && End(s, a + b) == End(End(s, a), b)
    decreases |a|
  {
    if a == [] {
      assert a + b == b;
    } else {
      assert (a + b)[1..] == a[1..] + b;
      RunAppend(Next(s, a[0]), a[1..], b);
    }
  }

  lemma OwingAppend(s: State, a: seq<Step>, b: seq<Step>)
    requires Run(s, a) && Enter !in a && ReturnsOwing(End(s, a), b)
    ensures ReturnsOwing(s, a + b)
  {
    var k := |b| - 1;
    RunAppend(s, a, b);
    RunPrefix(End(s, a), b, k);
    RunAppend(s, a, b[..k]);
    assert (a + b)[..|a + b| - 1] == a + b[..k];
    assert (a + b)[|a + b| - 1] == b[k];
    assert ReturnsAt(End(s, a), b, k);
  }

  // Every client leaves and nobody posts.
  lemma {:induction false} AllLeave(s: State) returns (steps: seq<Step>)
    ensures Run(s, steps) && Closing(steps)
    ensures End(s, steps) == s.(count := 0, pending := s.pending + s.count)
    decreases s.count
  {
    steps := [];
    if s.count > 0 {
      var rest := AllLeave(Next(s, Leave));
      steps := [Leave] + rest;
      assert steps[1..] == rest;
    }
  }

  // From there the waiter wakes up, if it has to, and returns.
  lemma ReturnAtOnce(s: State) returns (steps: seq<Step>)
    requires s.count == 0 && MayOwe(s)
    ensures ReturnsOwing(s, steps) && Closing(steps)
    decreases s.pending, if s.waiter == Waiting then 1 else 0
  {
    match s.waiter
    case Checking =>
      steps := [Check];
      assert steps[..0] == [] && steps[1..] == [];
      assert End(s, steps) == Next(s, Check);
    case Waiting =>
      if s.sem > 0 {
        var rest := ReturnAtOnce(Next(s, Wake));
        OneStep(s, Wake);
        OwingAppend(s, [Wake], rest);
        steps := [Wake] + rest;
      } else {
        var rest := ReturnAtOnce(Next(s, Post));
        OneStep(s, Post);
        OwingAppend(s, [Post], rest);
        steps := [Post] + rest;
      }
  }

  lemma OneStep(s: State, step: Step)
    requires Enabled(s, step)
    ensures Run(s, [step]) && End(s, [step]) == Next(s, step)
  {
    assert [step][1..] == [];
  }

  // Without registrations, what cannot be owed now is not owed at the return.
  lemma {:induction false} NothingOwed(s: State, steps: seq<Step>)
    requires Run(s, steps) && Closing(steps) && steps != [] && ReturnsAt(s, steps, |steps| - 1)
    requires !MayOwe(s)
    ensures End(s, steps).pending == 0
    decreases |steps|
  {
    var k, rest := |steps| - 1, steps[1..];
    assert steps[0] in steps;
    if k == 0 {
      assert steps[..0] == [] && rest == [];
    } else {
      assert steps[..k][1..] == rest[..k - 1];
      assert steps[..k][0] == steps[0] && rest[k - 1] == steps[k];
      RunPrefix(s, steps, k);
      RunPrefix(Next(s, steps[0]), rest, k - 1);
      assert forall step :: step in rest ==> step in steps;
      NothingOwed(Next(s, steps[0]), rest);
    }
  }

  /**
   * Whether the call can return while a thread still owes its post is decided where the call
   * stands: if nobody registers any more, exactly if there is a client or an unposted departure
   * beyond the one that a blocked waiter needs to wake up.
   */
  lemma OwedPost(s: State)
    requires s.waiter != Outside
    ensures (exists steps :: Closing(steps) && ReturnsOwing(s, steps)) <==> MayOwe(s)
  {
    if steps :| Closing(steps) && ReturnsOwing(s, steps) {
      if !MayOwe(s) { NothingOwed(s, steps); }
    }
    if MayOwe(s) {
      var leaves := AllLeave(s);
      var rest := ReturnAtOnce(End(s, leaves));
      OwingAppend(s, leaves, rest);
      assert Closing(leaves + rest);
    }
  }

  // The call from its start.
  ghost predicate CallOwing(s: State, steps: seq<Step>)
    requires s.waiter == Outside
  {
    steps != [] && steps[0] == Enter && Closing(steps[1..]) && ReturnsOwing(Next(s, Enter), steps[1..])
  }

  /**
   * The call made now can return with a post still owed if and only if a client is registered or
   * has left without having posted yet; so a caller who knows every such thread to be done can
   * destroy the registry.
   */
  lemma OwedPostOfCall(s: State)
    requires s.waiter == Outside
    ensures (exists steps :: CallOwing(s, steps)) <==> s.count + s.pending > 0
  {
    var begun := Next(s, Enter);
    OwedPost(begun);
    if steps :| Closing(steps) && ReturnsOwing(begun, steps) {
      assert ([Enter] + steps)[1..] == steps;
      assert CallOwing(s, [Enter] + steps);
    }
    if steps :| CallOwing(s, steps) {
      assert Closing(steps[1..]) && ReturnsOwing(begun, steps[1..]);
    }
  }

  // As long as clients may still register, a post can always come to be owed.
  lemma OwedPostWithJoins(s: State)
    requires s.waiter != Outside
    ensures exists steps :: ReturnsOwing(s, steps)
  {
    var leaves := AllLeave(s);
    var s0 := End(s, leaves);
    var s1 := Next(s0, Join);
    var s2 := Next(s1, Join);
    OwedPost(s2);
    var rest :| Closing(rest) && ReturnsOwing(s2, rest);
    OneStep(s1, Join);
    OneStep(s0, Join);
    OwingAppend(s1, [Join], rest);
    OwingAppend(s0, [Join], [Join] + rest);
    OwingAppend(s, leaves, [Join] + ([Join] + rest));
  }

  // ----- the call returns -----

  // A run in which nobody registers makes progress with every step, so it ends.
  lemma {:induction false} ClosingEnds(s: State, steps: seq<Step>)
    requires Accounted(s) && Run(s, steps) && Closing(steps)
    ensures |steps| <= Left(s) - Left(End(s, steps))
    ensures End(s, steps).count + End(s, steps).sem + End(s, steps).pending
         == s.count + s.sem + s.pending - (End(s, steps).wakes - s.wakes)
    decreases |steps|
  {
    if steps != [] {
      assert forall step :: step in steps[1..] ==> step in steps;
      assert steps[0] in steps;
      EveryRunIsAccounted(s, [steps[0]]);
      EveryRunIsAccounted(Next(s, steps[0]), []);
      assert Accounted(Next(s, steps[0]));
      ClosingEnds(Next(s, steps[0]), steps[1..]);
    }
  }

  /**
   * `creg_shutdown_all` returns.  Once nobody registers any more, however the remaining
   * threads interleave, the run is bounded; and when no thread inside can move, the call has
   * returned, every client is gone and every post has been made.
   */
  lemma {:induction false} ShutdownReturns(s: State, closing: seq<Step>)
    requires Reached(s) && Run(s, closing) && Closing(closing)
    ensures |closing| <= Left(s)
    ensures var end := End(s, closing);
      (forall step | Enabled(end, step) :: step == Join || step == Enter) ==>
        && end.waiter == Outside && end.count == 0 && end.pending == 0
        && (s.waiter != Outside ==> end.ended == s.ended + 1)
  {
    ReachedIsAccounted(s);
    ClosingEnds(s, closing);
    ReturnsOnce(s, closing);
    EveryRunIsAccounted(s, closing);
    if forall step | Enabled(End(s, closing), step) :: step == Join || step == Enter {
      AllDone(End(s, closing));
    }
  }

  // If no thread inside can move, nobody is waiting for anything.
  lemma AllDone(s: State)
    requires Accounted(s)
    requires forall step | Enabled(s, step) :: step == Join || step == Enter
    ensures s.waiter == Outside && s.count == 0 && s.pending == 0
  {
    assert !Enabled(s, Leave) && !Enabled(s, Post) && !Enabled(s, Check) && !Enabled(s, Wake);
  }

  lemma {:induction false} ReturnsOnce(s: State, steps: seq<Step>)
    requires Run(s, steps) && Closing(steps)
    ensures s.waiter == Outside ==> End(s, steps).waiter == Outside && End(s, steps).ended == s.ended
    ensures s.waiter != Outside ==>
      End(s, steps).ended == s.ended + if End(s, steps).waiter == Outside then 1 else 0
    decreases |steps|
  {
    if steps != [] {
      assert forall step :: step in steps[1..] ==> step in steps;
      assert steps[0] in steps;
      ReturnsOnce(Next(s, steps[0]), steps[1..]);
    }
  }
}
