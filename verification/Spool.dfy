/**
 * The print spooler's scheduler state and its atomic steps (hw4/src/custom_functions.c,
 * hw4/src/cli.c): what the user commands, the child-status handler, one job start of the
 * scan and the timed deletion do to it, and what every run of them keeps.
 */
module Spool {
  import opened Common
  import opened SlotBits

  const DELETE_AFTER := 10

  type Pid = int

  datatype PrinterStatus = Disabled | Idle | Busy
  datatype JobStatus = Created | Running | Paused | Finished | Aborted

  datatype Printer = Printer(name: string, kind: string, status: PrinterStatus, pid: Pid)

  // `file` is None while the name is not allocated.
  datatype Job = Job(
    file: Option<string>, eligible: bv32, kind: string, status: JobStatus, pid: Pid, timestamp: int)

  datatype Slot = Slot(printer: nat, job: nat)

  /**
   * `printers` holds the defined printers and `jobs` all 64 slots; `taken` is the slot bitmap,
   * `running` the counter of job processes and `outstanding` the flag the command loop waits
   * on before it ends.  `paths` lists the pairs of types with a conversion path.  `live` is
   * not in the program: it lists the children that have not exited.
   */
  datatype State = State(
    printers: seq<Printer>, jobs: seq<Job>, taken: bv64, running: int, outstanding: bool,
    paths: set<(string, string)>, live: map<Pid, Slot>)

  // ---------------------------------------------------------------------------
  // The invariant
  // ---------------------------------------------------------------------------

  predicate Sized(s: State) {
    |s.printers| <= PRINTERS && |s.jobs| == SLOTS
  }

  predicate PrinterOk(p: Printer) {
    (p.status == Idle ==> p.pid == 0) && (p.status == Busy ==> p.pid != 0)
  }

  predicate Ended(status: JobStatus) {
    status == Finished || status == Aborted
  }

  predicate JobOk(j: Job, taken: bool) {
    && (j.pid != 0 <==> j.status == Running || j.status == Paused)
    && (j.pid != 0 ==> taken)
    && (j.timestamp != 0 <==> taken && Ended(j.status))
    && (j.file.Some? <==> taken)
  }

  predicate Served(s: State, pid: Pid, slot: Slot) {
    && pid > 0 && slot.printer < |s.printers| && slot.job < |s.jobs|
    && s.printers[slot.printer].pid == pid && s.jobs[slot.job].pid == pid
  }

  // Children, printers with a pid and jobs with a pid are in one-to-one correspondence.
  predicate Matched(s: State) {
    && (forall pid :: pid in s.live ==> Served(s, pid, s.live[pid]))
    && (forall p :: 0 <= p < |s.printers| && s.printers[p].pid != 0 ==>
         s.printers[p].pid in s.live && s.live[s.printers[p].pid].printer == p)
    && (forall j :: 0 <= j < |s.jobs| && s.jobs[j].pid != 0 ==>
         s.jobs[j].pid in s.live && s.live[s.jobs[j].pid].job == j)
  }

  function JobsWithPid(s: State): set<nat> {
    set j: nat | j < |s.jobs| && s.jobs[j].pid != 0
  }

  function PrintersWithPid(s: State): set<nat> {
    set p: nat | p < |s.printers| && s.printers[p].pid != 0
  }

  predicate JobsOk(s: State) {
    Sized(s) && forall j :: 0 <= j < SLOTS ==> JobOk(s.jobs[j], Bit(s.taken, j))
  }

  predicate PrintersOk(s: State) {
    forall p :: 0 <= p < |s.printers| ==> PrinterOk(s.printers[p])
  }

  predicate Tallied(s: State) {
    s.running == |JobsWithPid(s)| && (s.outstanding <==> s.running != 0)
  }

  predicate Inv(s: State) {
    Sized(s) && Matched(s) && JobsOk(s) && PrintersOk(s) && Tallied(s)
  }

  // ---------------------------------------------------------------------------
  // The steps
  // ---------------------------------------------------------------------------

  datatype Event =
    | Define(name: string, kind: string)
    | Convert(newPaths: set<(string, string)>)
    | Create(at: nat, file: string, eligible: bv32, fileKind: string)
    | Cancel(id: nat, now: int)
    | Disable(id: nat)
    | Enable(id: nat)
    | Start(slot: Slot, child: Pid)
    | Exit(child: Pid, success: bool, now: int)
    | Stop(child: Pid)
    | Continue(child: Pid)
    | Expire(now: int)

  predicate FirstFree(taken: bv64, at: nat) {
    at < SLOTS && !Bit(taken, at) && forall i: nat | i < at :: Bit(taken, i)
  }

  // Job `j` could be started on printer `p` now.
  predicate Startable(s: State, p: nat, j: nat)
    requires Sized(s)
  {
    && p < |s.printers| && j < SLOTS
    && Bit(s.taken, j) && Has(s.jobs[j].eligible, p)
    && s.jobs[j].status == Created && s.printers[p].status == Idle
    && (s.jobs[j].kind, s.printers[p].kind) in s.paths
  }

  predicate Due(j: Job, now: int) {
    j.timestamp != 0 && now - j.timestamp >= DELETE_AFTER
  }

  // The bitmap after the bits of the due jobs among the first `k` were flipped.
  function Flips(s: State, now: int, k: nat): bv64
    requires Sized(s) && k <= SLOTS
  {
    if k == 0 then s.taken
    else
      var before := Flips(s, now, k - 1);
      if Due(s.jobs[k - 1], now) then Flipped(before, k - 1) else before
  }

  function Deleted(j: Job, now: int): Job {
    if Due(j, now) then j.(timestamp := 0, file := None) else j
  }

  function Swept(jobs: seq<Job>, now: int): (r: seq<Job>)
    ensures |r| == |jobs|
  {
    seq(|jobs|, i requires 0 <= i < |jobs| => Deleted(jobs[i], now))
  }

  // The clock is never at 0; a new child has a pid no living child has; events come from
  // living children only.
  predicate Enabled(s: State, e: Event)
    requires Sized(s)
  {
    match e
    case Define(_, _) => |s.printers| < PRINTERS
    case Convert(_) => true
    case Create(at, _, _, _) => FirstFree(s.taken, at)
    case Cancel(id, now) => id < SLOTS && now != 0
    case Disable(id) => id < |s.printers|
    case Enable(id) => id < |s.printers|
    case Start(slot, child) =>
      Startable(s, slot.printer, slot.job) && child > 0 && child !in s.live
    case Exit(child, _, now) =>
      child in s.live && s.live[child].printer < |s.printers| && s.live[child].job < SLOTS && now != 0
    case Stop(child) => child in s.live && s.live[child].job < SLOTS
    case Continue(child) => child in s.live && s.live[child].job < SLOTS
    case Expire(_) => true
  }

  function Defined(s: State, name: string, kind: string): State {
    s.(printers := s.printers + [Printer(name, kind, Disabled, 0)])
  }

  function CreatedAt(s: State, at: nat, file: string, eligible: bv32, kind: string): State
    requires Sized(s) && at < SLOTS
  {
    s.(taken := With(s.taken, at),
       jobs := s.jobs[at :=
         s.jobs[at].(file := Some(file), eligible := eligible, kind := kind, status := Created)])
  }

  // A running job is only signalled; a slot that is not in use is an error.
  function Cancelled(s: State, id: nat, now: int): State
    requires Sized(s) && id < SLOTS
  {
    if s.jobs[id].pid == 0 && Bit(s.taken, id)
    then s.(jobs := s.jobs[id := s.jobs[id].(status := Aborted, timestamp := now)])
    else s
  }

  function WithStatus(s: State, p: nat, status: PrinterStatus): State
    requires p < |s.printers|
  {
    s.(printers := s.printers[p := s.printers[p].(status := status)])
  }

  function Started(s: State, slot: Slot, child: Pid): State
    requires slot.printer < |s.printers| && slot.job < |s.jobs|
  {
    s.(printers := s.printers[slot.printer := s.printers[slot.printer].(status := Busy, pid := child)],
       jobs := s.jobs[slot.job := s.jobs[slot.job].(status := Running, pid := child)],
       running := s.running + 1, outstanding := true, live := s.live[child := slot])
  }

  function Exited(s: State, child: Pid, success: bool, now: int): State
    requires child in s.live && s.live[child].printer < |s.printers| && s.live[child].job < |s.jobs|
  {
    var Slot(p, j) := s.live[child];
    var status := if s.printers[p].status == Busy then Idle else s.printers[p].status;
    s.(printers := s.printers[p := s.printers[p].(status := status, pid := 0)],
       jobs := s.jobs[j := s.jobs[j].(
         status := if success then Finished else Aborted, pid := 0, timestamp := now)],
       running := s.running - 1,
       outstanding := s.outstanding && s.running - 1 != 0,
       live := s.live - {child})
  }

  function Signalled(s: State, child: Pid, status: JobStatus): State
    requires child in s.live && s.live[child].job < |s.jobs|
  {
    var j := s.live[child].job;
    s.(jobs := s.jobs[j := s.jobs[j].(status := status)])
  }

  function Expired(s: State, now: int): State
    requires Sized(s)
  {
    s.(jobs := Swept(s.jobs, now), taken := Flips(s, now, SLOTS))
  }

  function Next(s: State, e: Event): State
    requires Sized(s) && Enabled(s, e)
  {
    match e
    case Define(name, kind) => Defined(s, name, kind)
    case Convert(newPaths) => s.(paths := newPaths)
    case Create(at, file, eligible, kind) => CreatedAt(s, at, file, eligible, kind)
    case Cancel(id, now) => Cancelled(s, id, now)
    case Disable(id) => WithStatus(s, id, Disabled)
    case Enable(id) => WithStatus(s, id, if s.printers[id].pid != 0 then Busy else Idle)
    case Start(slot, child) => Started(s, slot, child)
    case Exit(child, success, now) => Exited(s, child, success, now)
    case Stop(child) => Signalled(s, child, Paused)
    case Continue(child) => Signalled(s, child, Running)
    case Expire(now) => Expired(s, now)
  }

  // ---------------------------------------------------------------------------
  // Every step keeps the invariant
  // ---------------------------------------------------------------------------

  lemma MatchedByPids(s: State, t: State)
    requires Matched(s) && t.live == s.live && |t.jobs| == |s.jobs| && |t.printers| >= |s.printers|
    requires forall p :: 0 <= p < |s.printers| ==> t.printers[p].pid == s.printers[p].pid
    requires forall p :: |s.printers| <= p < |t.printers| ==> t.printers[p].pid == 0
    requires forall j :: 0 <= j < |s.jobs| ==> t.jobs[j].pid == s.jobs[j].pid
    ensures Matched(t) && JobsWithPid(t) == JobsWithPid(s)
  {
    forall pid | pid in t.live ensures Served(t, pid, t.live[pid]) {
      assert Served(s, pid, s.live[pid]);
    }
  }

  lemma DefineKeeps(s: State, name: string, kind: string)
    requires Inv(s) && |s.printers| < PRINTERS
    ensures Inv(Defined(s, name, kind))
  {
    MatchedByPids(s, Defined(s, name, kind));
  }

  // Disabling never loses a process, and enabling makes the printer busy if it has one.
  lemma StatusKeeps(s: State, p: nat, status: PrinterStatus)
    requires Inv(s) && p < |s.printers|
    requires PrinterOk(s.printers[p].(status := status))
    ensures Inv(WithStatus(s, p, status))
  {
    MatchedByPids(s, WithStatus(s, p, status));
  }

  lemma CreateKeeps(s: State, at: nat, file: string, eligible: bv32, kind: string)
    requires Inv(s) && at < SLOTS && !Bit(s.taken, at)
    ensures Inv(CreatedAt(s, at, file, eligible, kind))
  {
    WithBits(s.taken, at);
    assert JobOk(s.jobs[at], false);
    MatchedByPids(s, CreatedAt(s, at, file, eligible, kind));
  }

  lemma CancelKeeps(s: State, id: nat, now: int)
    requires Inv(s) && id < SLOTS && now != 0
    ensures Inv(Cancelled(s, id, now))
  {
    assert JobOk(s.jobs[id], Bit(s.taken, id));
    MatchedByPids(s, Cancelled(s, id, now));
  }

  lemma StartMatched(s: State, slot: Slot, child: Pid)
    requires Matched(s) && slot.printer < |s.printers| && slot.job < |s.jobs|
    requires s.printers[slot.printer].pid == 0 && s.jobs[slot.job].pid == 0
    requires child > 0 && child !in s.live
    ensures var t := Started(s, slot, child);
      Matched(t) && JobsWithPid(t) == JobsWithPid(s) + {slot.job}
  {
    var t := Started(s, slot, child);
    forall pid | pid in t.live ensures Served(t, pid, t.live[pid]) {
      if pid != child { assert Served(s, pid, s.live[pid]); }
    }
  }

  lemma StartStatuses(s: State, slot: Slot, child: Pid)
    requires JobsOk(s) && PrintersOk(s) && Enabled(s, Start(slot, child))
    ensures s.printers[slot.printer].pid == 0 && s.jobs[slot.job].pid == 0
    ensures JobsOk(Started(s, slot, child)) && PrintersOk(Started(s, slot, child))
  {
    assert JobOk(s.jobs[slot.job], true) && PrinterOk(s.printers[slot.printer]);
  }

  lemma StartKeeps(s: State, slot: Slot, child: Pid)
    requires Inv(s) && Enabled(s, Start(slot, child))
    ensures Inv(Started(s, slot, child))
  {
    StartStatuses(s, slot, child);
    StartMatched(s, slot, child);
  }

  lemma ExitMatched(s: State, child: Pid, success: bool, now: int)
    requires Matched(s) && child in s.live
    ensures Served(s, child, s.live[child])
    ensures var t := Exited(s, child, success, now);
      Matched(t) && JobsWithPid(t) == JobsWithPid(s) - {s.live[child].job}
  {
    assert Served(s, child, s.live[child]);
    var t := Exited(s, child, success, now);
    forall pid | pid in t.live ensures Served(t, pid, t.live[pid]) {
      assert Served(s, pid, s.live[pid]);
    }
  }

  lemma ExitKeeps(s: State, child: Pid, success: bool, now: int)
    requires Inv(s) && child in s.live && now != 0
    ensures Served(s, child, s.live[child])
    ensures Inv(Exited(s, child, success, now))
  {
    ExitMatched(s, child, success, now);
    var Slot(p, j) := s.live[child];
    assert JobOk(s.jobs[j], Bit(s.taken, j)) && PrinterOk(s.printers[p]);
  }

  lemma SignalKeeps(s: State, child: Pid, status: JobStatus)
    requires Inv(s) && child in s.live && (status == Running || status == Paused)
    ensures Served(s, child, s.live[child])
    ensures Inv(Signalled(s, child, status))
  {
    assert Served(s, child, s.live[child]);
    MatchedByPids(s, Signalled(s, child, status));
    assert JobOk(s.jobs[s.live[child].job], Bit(s.taken, s.live[child].job));
  }

  // Every bit flipped was 1: the deletion frees slots and never takes one.
  lemma {:induction false} FlipsOnlyClear(s: State, now: int, k: nat, i: nat)
    requires Sized(s) && k <= SLOTS && i < SLOTS
    requires Due(s.jobs[i], now) ==> Bit(s.taken, i)
    ensures Bit(Flips(s, now, k), i) <==> Bit(s.taken, i) && !(i < k && Due(s.jobs[i], now))
  {
    if k > 0 {
      FlipsOnlyClear(s, now, k - 1, i);
      if Due(s.jobs[k - 1], now) {
        FlippedBits(Flips(s, now, k - 1), k - 1);
      }
    }
  }

  lemma ExpireKeeps(s: State, now: int)
    requires Inv(s)
    ensures Inv(Expired(s, now))
  {
    var t := Expired(s, now);
    forall j: nat | j < SLOTS
      ensures JobOk(t.jobs[j], Bit(t.taken, j))
    {
      assert JobOk(s.jobs[j], Bit(s.taken, j));
      FlipsOnlyClear(s, now, SLOTS, j);
    }
    MatchedByPids(s, t);
  }

  lemma StepKeeps(s: State, e: Event)
    requires Inv(s) && Enabled(s, e)
    ensures Inv(Next(s, e))
  {
    match e
    case Define(name, kind) => DefineKeeps(s, name, kind);
    case Convert(newPaths) => MatchedByPids(s, s.(paths := newPaths));
    case Create(at, file, eligible, kind) => CreateKeeps(s, at, file, eligible, kind);
    case Cancel(id, now) => CancelKeeps(s, id, now);
    case Disable(id) => StatusKeeps(s, id, Disabled);
    case Enable(id) => StatusKeeps(s, id, if s.printers[id].pid != 0 then Busy else Idle);
    case Start(slot, child) => StartKeeps(s, slot, child);
    case Exit(child, success, now) => ExitKeeps(s, child, success, now);
    case Stop(child) => SignalKeeps(s, child, Paused);
    case Continue(child) => SignalKeeps(s, child, Running);
    case Expire(now) => ExpireKeeps(s, now);
  }

  // `events` can happen one after the other from `s` and lead to `t`.
  ghost predicate Leads(s: State, events: seq<Event>, t: State)
    decreases |events|
  {
    if events == [] then s == t
    else Sized(s) && Enabled(s, events[0]) && Leads(Next(s, events[0]), events[1..], t)
  }

  lemma {:induction false} EveryRunKeeps(s: State, events: seq<Event>, t: State)
    requires Inv(s) && Leads(s, events, t)
    ensures Inv(t)
    decreases |events|
  {
    if events != [] {
      StepKeeps(s, events[0]);
      EveryRunKeeps(Next(s, events[0]), events[1..], t);
    }
  }

  lemma {:induction false} OneMore(s: State, events: seq<Event>, t: State, e: Event)
    requires Leads(s, events, t) && Sized(t) && Enabled(t, e)
    ensures Leads(s, events + [e], Next(t, e))
    decreases |events|
  {
    if events == [] {
      assert ([] + [e])[1..] == [];
    } else {
      assert (events + [e])[1..] == events[1..] + [e];
      OneMore(Next(s, events[0]), events[1..], t, e);
    }
  }

  // ---------------------------------------------------------------------------
  // What the invariant says
  // ---------------------------------------------------------------------------

  lemma SlotOfJob(s: State, j: nat)
    requires Matched(s) && j in JobsWithPid(s)
    ensures var pid := s.jobs[j].pid;
      && pid in s.live && s.live[pid].job == j
      && s.live[pid].printer in PrintersWithPid(s) && s.printers[s.live[pid].printer].pid == pid
  {
    assert Served(s, s.jobs[j].pid, s.live[s.jobs[j].pid]);
  }

  lemma SlotOfPrinter(s: State, p: nat)
    requires Matched(s) && p in PrintersWithPid(s)
    ensures var pid := s.printers[p].pid;
      && pid in s.live && s.live[pid].printer == p
      && s.live[pid].job in JobsWithPid(s) && s.jobs[s.live[pid].job].pid == pid
  {
    assert Served(s, s.printers[p].pid, s.live[s.printers[p].pid]);
  }

  function PrinterOf(s: State, j: nat): (p: nat)
    requires Matched(s) && j in JobsWithPid(s)
    ensures p in PrintersWithPid(s) && s.printers[p].pid == s.jobs[j].pid
  {
    SlotOfJob(s, j);
    s.live[s.jobs[j].pid].printer
  }

  function JobOf(s: State, p: nat): (j: nat)
    requires Matched(s) && p in PrintersWithPid(s)
    ensures j in JobsWithPid(s) && s.jobs[j].pid == s.printers[p].pid && PrinterOf(s, j) == p
  {
    SlotOfPrinter(s, p);
    s.live[s.printers[p].pid].job
  }

  lemma {:induction false} Counted(s: State, jobs: set<nat>, printers: set<nat>)
    requires Matched(s) && jobs <= JobsWithPid(s)
    requires printers == set j | j in jobs :: PrinterOf(s, j)
    ensures |jobs| == |printers|
    decreases jobs
  {
    if j :| j in jobs {
      SlotOfJob(s, j);
      var p := PrinterOf(s, j);
      forall k | k in jobs - {j} ensures PrinterOf(s, k) != p { SlotOfJob(s, k); }
      Counted(s, jobs - {j}, printers - {p});
    }
  }

  /**
   * The running counter is the number of running and paused jobs and of printers with a
   * process, and the command loop's end condition holds exactly when there are none.
   */
  lemma RunningCounts(s: State)
    requires Inv(s)
    ensures JobsWithPid(s)
         == set j: nat | j < SLOTS && (s.jobs[j].status == Running || s.jobs[j].status == Paused)
    ensures s.running == |JobsWithPid(s)| == |PrintersWithPid(s)|
    ensures s.outstanding <==> JobsWithPid(s) != {}
  {
    var jobs, printers := JobsWithPid(s), PrintersWithPid(s);
    forall j: nat | j < SLOTS
      ensures s.jobs[j].pid != 0 <==> s.jobs[j].status == Running || s.jobs[j].status == Paused
    {
      assert JobOk(s.jobs[j], Bit(s.taken, j));
    }
    forall p | p in printers ensures exists j :: j in jobs && PrinterOf(s, j) == p {
      var j := JobOf(s, p);
    }
    assert printers == set j | j in jobs :: PrinterOf(s, j);
    Counted(s, jobs, printers);
    assert jobs != {} ==> |jobs| != 0;
  }

  /**
   * Each printer with a process serves exactly one running or paused job, and each such job
   * is served by exactly one printer.
   */
  lemma OneToOne(s: State, p: nat, j: nat)
    requires Inv(s)
    ensures p in PrintersWithPid(s) ==>
      exists k :: k in JobsWithPid(s) && s.jobs[k].pid == s.printers[p].pid
    ensures j in JobsWithPid(s) ==>
      exists q :: q in PrintersWithPid(s) && s.printers[q].pid == s.jobs[j].pid
    ensures forall k | j in JobsWithPid(s) && k in JobsWithPid(s) && s.jobs[j].pid == s.jobs[k].pid :: j == k
    ensures forall q | p in PrintersWithPid(s) && q in PrintersWithPid(s) && s.printers[p].pid == s.printers[q].pid :: p == q
  {
    if j in JobsWithPid(s) { SlotOfJob(s, j); }
    if p in PrintersWithPid(s) { SlotOfPrinter(s, p); }
  }

  // A slot is freed only by the timed deletion of a job that ended at least ten seconds ago.
  lemma SlotFreed(s: State, e: Event, j: nat)
    requires JobsOk(s) && Enabled(s, e) && j < SLOTS
    requires Bit(s.taken, j) && !Bit(Next(s, e).taken, j)
    ensures e.Expire? && Ended(s.jobs[j].status) && e.now - s.jobs[j].timestamp >= 10
  {
    assert JobOk(s.jobs[j], Bit(s.taken, j));
    match e
    case Create(at, _, _, _) => WithBits(s.taken, at);
    case Expire(now) => FlipsOnlyClear(s, now, SLOTS, j);
    case _ =>
  }

  // A slot is given to a new job only when it is free, the lowest such slot first.
  lemma SlotTaken(s: State, e: Event, j: nat)
    requires JobsOk(s) && Enabled(s, e) && j < SLOTS
    requires !Bit(s.taken, j) && Bit(Next(s, e).taken, j)
    ensures e.Create? && e.at == j && forall i: nat | i < j :: Bit(s.taken, i)
    ensures Next(s, e).jobs[j].status == Created && Next(s, e).jobs[j].pid == 0
  {
    assert JobOk(s.jobs[j], Bit(s.taken, j));
    match e
    case Create(at, _, _, _) => WithBits(s.taken, at);
    case Expire(now) => FlipsOnlyClear(s, now, SLOTS, j);
    case _ =>
  }

  // While a slot stays taken its job keeps its file, type and printers, and never runs twice;
  // a finished one becomes aborted exactly when it is cancelled.
  lemma SlotKept(s: State, e: Event, j: nat)
    requires Inv(s) && Enabled(s, e) && j < SLOTS
    requires Bit(s.taken, j) && Bit(Next(s, e).taken, j)
    ensures Kept(s.jobs[j], Next(s, e).jobs[j])
    ensures s.jobs[j].status == Finished ==>
      (Next(s, e).jobs[j].status == Aborted <==> e.Cancel? && e.id == j)
  {
    assert JobOk(s.jobs[j], true);
    match e
    case Exit(child, _, _) => assert Served(s, child, s.live[child]);
    case Stop(child) => assert Served(s, child, s.live[child]);
    case Continue(child) => assert Served(s, child, s.live[child]);
    case Expire(now) => FlipsOnlyClear(s, now, SLOTS, j);
    case _ =>
  }

  // A finished job, not yet deleted, that a cancel command makes aborted.
  lemma FinishedThenAborted() returns (s: State, e: Event)
    ensures Inv(s) && Enabled(s, e) && s.jobs[0].status == Finished && Next(s, e).jobs[0].status == Aborted
  {
    var jobs := seq(SLOTS, j => if j == 0 then Job(Some("a.txt"), 0, "txt", Finished, 0, 5) else Job(None, 0, "", Created, 0, 0));
    s := State([], jobs, With(0, 0), 0, false, {}, map[]);
    e := Cancel(0, 6);
    WithBits(0, 0);
    forall j: nat | j < SLOTS ensures !Bit(0, j) { NoneSet(j); }
    assert JobsWithPid(s) == {};
  }

  predicate Kept(from: Job, to: Job) {
    && to.file == from.file && to.kind == from.kind && to.eligible == from.eligible
    && Follows(from.status, to.status)
  }

  // The status changes a job goes through: it never runs twice.  Cancelling a job that has
  // already finished makes it aborted.
  predicate Follows(from: JobStatus, to: JobStatus) {
    match from
    case Created => to == Created || to == Running || to == Aborted
    case Running => to != Created
    case Paused => to != Created
    case Finished => Ended(to)
    case Aborted => to == Aborted
  }
}
