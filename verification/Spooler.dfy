/**
 * The scheduler's operations in place (hw4/src/custom_functions.c, hw4/src/cli.c): each is
 * proved to be steps of the spool state, and the scan to start all it can and nothing else.
 */
module Spooler {
  import opened Common
  import opened SlotBits
  import opened Spool

  // ---------------------------------------------------------------------------
  // What one scan does
  // ---------------------------------------------------------------------------

  // Scan order: printers first, jobs within a printer.
  ghost predicate Before(slot: Slot, p: nat, j: nat) {
    slot.printer < p || (slot.printer == p && slot.job < j)
  }

  // Every pair looked at so far is not startable any more, unless its start failed.
  ghost predicate Settled(s: State, p: nat, j: nat, failed: set<Slot>)
    requires Sized(s)
  {
    forall slot: Slot | Before(slot, p, j) && slot.job < SLOTS && Startable(s, slot.printer, slot.job) ::
      slot in failed
  }

  // Nothing but starts happened: `t` has the children of `s` and new ones, each on a printer
  // and a job that `s` could have put together; everything else is as in `s`.
  ghost predicate OnlyStarted(s: State, t: State)
    requires Sized(s)
  {
    && |t.printers| == |s.printers| && |t.jobs| == SLOTS
    && t.taken == s.taken && t.paths == s.paths
    && (forall pid :: pid in s.live ==> pid in t.live && t.live[pid] == s.live[pid])
    && (forall pid :: pid in t.live && pid !in s.live ==>
         Startable(s, t.live[pid].printer, t.live[pid].job))
    && (forall p :: 0 <= p < |s.printers| ==> PrinterAfter(s, t, p))
    && (forall j :: 0 <= j < SLOTS ==> JobAfter(s, t, j))
  }

  ghost predicate PrinterAfter(s: State, t: State, p: nat)
    requires p < |s.printers| && p < |t.printers|
  {
    || t.printers[p] == s.printers[p]
    || (var pid := t.printers[p].pid;
        && pid in t.live && pid !in s.live && t.live[pid].printer == p
        && t.printers[p] == s.printers[p].(status := Busy, pid := pid))
  }

  ghost predicate JobAfter(s: State, t: State, j: nat)
    requires j < |s.jobs| && j < |t.jobs|
  {
    || t.jobs[j] == s.jobs[j]
    || (var pid := t.jobs[j].pid;
        && pid in t.live && pid !in s.live && t.live[pid].job == j
        && t.jobs[j] == s.jobs[j].(status := Running, pid := pid))
  }

  // No job was passed over: a lower-numbered job its printer could have had is started, or
  // could not be.
  ghost predicate InOrder(s: State, t: State, failed: set<Slot>)
    requires Sized(s) && Sized(t)
  {
    forall pid, j: nat | pid in t.live && pid !in s.live && j < t.live[pid].job < SLOTS
      && Startable(s, t.live[pid].printer, j) ::
      t.jobs[j].status != Created || Slot(t.live[pid].printer, j) in failed
  }

  ghost predicate Scanned(s: State, t: State, p: nat, j: nat, failed: set<Slot>) {
    Inv(s) && Inv(t) && OnlyStarted(s, t) && Settled(t, p, j, failed) && InOrder(s, t, failed)
  }

  lemma StartExtends(s: State, t: State, slot: Slot, child: Pid)
    requires Inv(s) && Inv(t) && OnlyStarted(s, t) && Enabled(t, Start(slot, child))
    ensures OnlyStarted(s, Started(t, slot, child))
  {
    var u := Started(t, slot, child);
    assert JobOk(t.jobs[slot.job], true);
    assert PrinterOk(t.printers[slot.printer]);
    assert PrinterAfter(s, t, slot.printer) && JobAfter(s, t, slot.job);
    forall p | 0 <= p < |s.printers| ensures PrinterAfter(s, u, p) {
      assert PrinterAfter(s, t, p);
    }
    forall j | 0 <= j < SLOTS ensures JobAfter(s, u, j) {
      assert JobAfter(s, t, j);
    }
  }

  lemma StartSettles(t: State, slot: Slot, child: Pid, failed: set<Slot>)
    requires Inv(t) && Enabled(t, Start(slot, child))
    requires Settled(t, slot.printer, slot.job, failed)
    ensures Sized(Started(t, slot, child))
    ensures Settled(Started(t, slot, child), slot.printer, slot.job + 1, failed)
  {
    var u := Started(t, slot, child);
    forall x: Slot | Before(x, slot.printer, slot.job + 1) && x.job < SLOTS && Startable(u, x.printer, x.job)
      ensures x in failed
    {
      assert Startable(t, x.printer, x.job);
      assert x != slot;
    }
  }

  lemma StartInOrder(s: State, t: State, slot: Slot, child: Pid, failed: set<Slot>)
    requires Scanned(s, t, slot.printer, slot.job, failed) && Enabled(t, Start(slot, child))
    ensures Sized(Started(t, slot, child))
    ensures InOrder(s, Started(t, slot, child), failed)
  {
    var u := Started(t, slot, child);
    forall pid, j: nat | pid in u.live && pid !in s.live && j < u.live[pid].job < SLOTS
      && Startable(s, u.live[pid].printer, j)
      ensures u.jobs[j].status != Created || Slot(u.live[pid].printer, j) in failed
    {
      if pid == child {
        assert JobAfter(s, t, j) && PrinterAfter(s, t, slot.printer);
        if t.jobs[j].status == Created {
          assert Startable(t, slot.printer, j);
          assert Before(Slot(slot.printer, j), slot.printer, slot.job);
        }
      }
    }
  }

  lemma StartScanned(s: State, t: State, slot: Slot, child: Pid, failed: set<Slot>)
    requires Scanned(s, t, slot.printer, slot.job, failed) && Enabled(t, Start(slot, child))
    ensures Scanned(s, Started(t, slot, child), slot.printer, slot.job + 1, failed)
  {
    StartKeeps(t, slot, child);
    StartExtends(s, t, slot, child);
    StartSettles(t, slot, child, failed);
    StartInOrder(s, t, slot, child, failed);
  }

  lemma SkipScanned(s: State, t: State, p: nat, j: nat, failed: set<Slot>, failed': set<Slot>)
    requires Scanned(s, t, p, j, failed) && failed <= failed' && j < SLOTS
    requires Startable(t, p, j) ==> Slot(p, j) in failed'
    ensures Scanned(s, t, p, j + 1, failed')
  {
    forall x: Slot | Before(x, p, j + 1) && x.job < SLOTS && Startable(t, x.printer, x.job)
      ensures x in failed'
    {
      assert x != Slot(p, j) ==> Before(x, p, j);
    }
  }

  lemma RowScanned(s: State, t: State, p: nat, failed: set<Slot>)
    requires Scanned(s, t, p, SLOTS, failed)
    ensures Scanned(s, t, p + 1, 0, failed)
  {
    forall x: Slot | Before(x, p + 1, 0) && x.job < SLOTS && Startable(t, x.printer, x.job)
      ensures x in failed
    {
      assert Before(x, p, SLOTS);
    }
  }

  // The scan up to pair (`p`, `j`), as the series of starts it has made.
  ghost predicate Progress(s: State, t: State, p: nat, j: nat, starts: seq<Event>, failed: set<Slot>) {
    && Scanned(s, t, p, j, failed)
    && Leads(s, starts, t) && (forall e :: e in starts ==> e.Start?)
    && (forall x :: x in failed ==> Before(x, p, j))
  }

  lemma NothingDone(s: State)
    requires Inv(s)
    ensures Progress(s, s, 0, 0, [], {})
  {
  }

  lemma ProgressStarts(
    s: State, t: State, slot: Slot, child: Pid, starts: seq<Event>, failed: set<Slot>)
    requires Progress(s, t, slot.printer, slot.job, starts, failed)
    requires Enabled(t, Start(slot, child))
    ensures Progress(s, Next(t, Start(slot, child)), slot.printer, slot.job + 1,
                     starts + [Start(slot, child)], failed)
  {
    StartScanned(s, t, slot, child, failed);
    OneMore(s, starts, t, Start(slot, child));
  }

  lemma ProgressSkips(s: State, t: State, slot: Slot, starts: seq<Event>, failed: set<Slot>, refused: set<Slot>)
    requires Progress(s, t, slot.printer, slot.job, starts, failed) && slot.job < SLOTS
    requires refused == {slot} || (refused == {} && !Startable(t, slot.printer, slot.job))
    ensures Progress(s, t, slot.printer, slot.job + 1, starts, failed + refused)
    ensures |failed + refused| == |failed| + |refused|
  {
    SkipScanned(s, t, slot.printer, slot.job, failed, failed + refused);
    assert slot !in failed;
  }

  lemma ProgressRow(s: State, t: State, p: nat, starts: seq<Event>, failed: set<Slot>)
    requires Progress(s, t, p, SLOTS, starts, failed)
    ensures Progress(s, t, p + 1, 0, starts, failed)
  {
    RowScanned(s, t, p, failed);
  }

  // ---------------------------------------------------------------------------
  // The operations
  // ---------------------------------------------------------------------------

  // What `waitpid` reports about a child.
  datatype Report = ExitedWith(code: int) | Killed | Stopped | Continued

  function Reported(child: Pid, report: Report, now: int): Event {
    match report
    case ExitedWith(code) => Exit(child, code == 0, now)
    case Killed => Exit(child, false, now)
    case Stopped => Stop(child)
    case Continued => Continue(child)
  }

  // A start in its two halves: the new child, and the bookkeeping.
  ghost function Begun(s: State, slot: Slot, child: Pid): State
    requires slot.printer < |s.printers| && slot.job < |s.jobs|
  {
    s.(jobs := s.jobs[slot.job := s.jobs[slot.job].(status := Running)],
       printers := s.printers[slot.printer := s.printers[slot.printer].(status := Busy)],
       live := s.live[child := slot])
  }

  ghost function Recorded(s: State, slot: Slot, child: Pid): State
    requires slot.printer < |s.printers| && slot.job < |s.jobs|
  {
    s.(running := s.running + 1, outstanding := true,
       printers := s.printers[slot.printer := s.printers[slot.printer].(pid := child)],
       jobs := s.jobs[slot.job := s.jobs[slot.job].(pid := child)])
  }

  lemma BegunAndRecorded(s: State, slot: Slot, child: Pid)
    requires slot.printer < |s.printers| && slot.job < |s.jobs|
    ensures Recorded(Begun(s, slot, child), slot, child) == Started(s, slot, child)
  {
  }

  lemma LiveIsServed(s: State, child: Pid, report: Report, now: int)
    requires Inv(s) && child in s.live && now != 0
    ensures Enabled(s, Reported(child, report, now))
  {
    assert Served(s, child, s.live[child]);
  }

  /**
   * What a report does to the job and the printer of its child.  A job is finished only by an
   * exit with status 0 and aborted by any other end, which takes the process from both and makes
   * a busy printer idle; a stopped job is paused and a continued one runs.
   */
  ghost predicate Handled(
    printers: seq<Printer>, jobs: seq<Job>, slot: Slot, report: Report, now: int,
    printers': seq<Printer>, jobs': seq<Job>)
  {
    && slot.printer < |printers| && slot.job < |jobs|
    && match report
       case ExitedWith(code) =>
         EndedAs(printers, jobs, slot, if code == 0 then Finished else Aborted, now, printers', jobs')
       case Killed => EndedAs(printers, jobs, slot, Aborted, now, printers', jobs')
       case Stopped => printers' == printers && jobs' == jobs[slot.job := jobs[slot.job].(status := Paused)]
       case Continued => printers' == printers && jobs' == jobs[slot.job := jobs[slot.job].(status := Running)]
  }

  ghost predicate EndedAs(
    printers: seq<Printer>, jobs: seq<Job>, slot: Slot, status: JobStatus, now: int,
    printers': seq<Printer>, jobs': seq<Job>)
    requires slot.printer < |printers| && slot.job < |jobs|
  {
    var printer := printers[slot.printer].(pid := 0);
    && jobs' == jobs[slot.job := jobs[slot.job].(status := status, pid := 0, timestamp := now)]
    && printers' == printers[slot.printer := if printer.status == Busy then printer.(status := Idle) else printer]
  }

  lemma ReportHandled(s: State, child: Pid, report: Report, now: int)
    requires Inv(s) && child in s.live && now != 0
    ensures var e := Reported(child, report, now);
      && Enabled(s, e)
      && Handled(s.printers, s.jobs, s.live[child], report, now, Next(s, e).printers, Next(s, e).jobs)
      && (child in Next(s, e).live <==> report.Stopped? || report.Continued?)
  {
    LiveIsServed(s, child, report, now);
  }

  class Scheduler {
    const printers: array<Printer>
    var printerCount: nat
    const jobs: array<Job>
    var taken: bv64
    var running: int
    var outstanding: bool
    var paths: set<(string, string)>
    // The kernel's side: the children that have not exited, and how many forks it refused.
    var live: map<Pid, Slot>
    var refusals: nat

    ghost predicate Shape()
      reads this, printers
    {
      && printers.Length == PRINTERS && jobs.Length == SLOTS && printerCount <= PRINTERS
      && forall p :: printerCount <= p < PRINTERS ==> printers[p].pid == 0
    }

    ghost function View(): (s: State)
      reads this, printers, jobs
      requires Shape()
      ensures Sized(s)
    {
      State(printers[..printerCount], jobs[..], taken, running, outstanding, paths, live)
    }

    ghost predicate Valid()
      reads this, printers, jobs
    {
      Shape() && Inv(View())
    }

    constructor ()
      ensures Valid() && fresh(printers) && fresh(jobs)
      ensures View().printers == [] && View().live == map[] && taken == 0 && !outstanding
    {
      printers := new Printer[PRINTERS](_ => Printer("", "", Disabled, 0));
      jobs := new Job[SLOTS](_ => Job(None, 0, "", Created, 0, 0));
      printerCount, taken, running, outstanding, paths := 0, 0, 0, false, {};
      live, refusals := map[], 0;
      new;
      forall j: nat | j < SLOTS ensures !Bit(taken, j) { NoneSet(j); }
      assert JobsWithPid(View()) == {};
    }

    method FindPrinter(name: string) returns (r: Option<nat>)
      requires Shape()
      ensures r.Some? ==> r.value < printerCount && printers[r.value].name == name
      ensures r.Some? ==> forall p :: 0 <= p < r.value ==> printers[p].name != name
      ensures r.None? ==> forall p :: 0 <= p < printerCount ==> printers[p].name != name
    {
      for i := 0 to printerCount
        invariant forall p :: 0 <= p < i ==> printers[p].name != name
      {
        if printers[i].name == name {
          return Some(i);
        }
      }
      return None;
    }

    // A new printer is disabled and has no process; the 33rd one is refused.
    method DefinePrinter(name: string, kind: string) returns (ok: bool)
      requires Valid()
      modifies this, printers
      ensures Valid() && ok == (old(printerCount) < 32)
      ensures View() == if ok then Next(old(View()), Define(name, kind)) else old(View())
      ensures ok ==> printers[..printerCount] == old(printers[..printerCount]) + [Printer(name, kind, Disabled, 0)]
    {
      if printerCount == PRINTERS {
        return false;
      }
      DefineKeeps(View(), name, kind);
      printers[printerCount] :=
        printers[printerCount].(name := name, kind := kind, status := Disabled);
      printerCount := printerCount + 1;
      assert View().printers == old(View()).printers + [Printer(name, kind, Disabled, 0)];
      return true;
    }

    // A job goes into the lowest free slot; with 64 slots taken it is refused.
    method CreateJob(file: string, kind: string, eligible: bv32) returns (id: Option<nat>)
      requires Valid()
      modifies this, jobs
      ensures Valid()
      ensures id.None? ==>
        View() == old(View()) && forall j: nat | j < SLOTS :: Bit(taken, j)
      ensures id.Some? ==> var e := Create(id.value, file, eligible, kind);
        && Enabled(old(View()), e) && View() == Next(old(View()), e)
        && jobs[id.value].file == Some(file) && jobs[id.value].kind == kind && jobs[id.value].eligible == eligible
    {
      if !taken == 0 {
        forall j: nat | j < SLOTS ensures Bit(taken, j) { AllSet(taken, j); }
        return None;
      }
      for i := 0 to SLOTS
        invariant View() == old(View())
        invariant forall j: nat | j < i :: Bit(taken, j)
      {
        if !Bit(taken, i) {
          CreateKeeps(View(), i, file, eligible, kind);
          taken := With(taken, i);
          jobs[i] := jobs[i].(file := Some(file), kind := kind, status := Created, eligible := eligible);
          return Some(i);
        }
      }
      return None;
    }

    /**
     * The set of printers for a print command: all of them when none is named, otherwise
     * exactly the named ones.  A name that no printer has is an error.
     */
    method ChoosePrinters(names: seq<string>) returns (chosen: Option<bv32>)
      requires Shape()
      ensures chosen.None? <==> exists k :: 0 <= k < |names| && !IsPrinter(names[k])
      ensures chosen.Some? ==> forall p: nat | p < printerCount ::
        Has(chosen.value, p) <==> names == [] || Named(names, p)
    {
      var bits: bv32 := if names == [] then !0 else 0;
      forall p: nat | p < PRINTERS ensures !Has(0, p) && Has(!(0 as bv32), p) { NoneAndAll(p); }
      for k := 0 to |names|
        invariant forall i :: 0 <= i < k ==> IsPrinter(names[i])
        invariant forall p: nat | p < printerCount ::
          Has(bits, p) <==> names == [] || Named(names[..k], p)
      {
        var printer := FindPrinter(names[k]);
        if printer.None? {
          return None;
        }
        PlusHas(bits, printer.value);
        bits := Plus(bits, printer.value);
        assert names[..k + 1] == names[..k] + [names[k]];
      }
      assert names[..|names|] == names;
      return Some(bits);
    }

    ghost predicate IsPrinter(name: string)
      reads this, printers
      requires Shape()
    {
      exists p :: 0 <= p < printerCount && printers[p].name == name
    }

    // Printer `p` is the first one with some name in `names`.
    ghost predicate Named(names: seq<string>, p: nat)
      reads this, printers
      requires Shape() && p < printerCount
    {
      printers[p].name in names && forall q :: 0 <= q < p ==> printers[q].name != printers[p].name
    }

    /**
     * Cancels a job: one with a process is only signalled (the handler does the rest), one
     * without becomes aborted, and a number that names no job in use is an error.
     */
    method CancelJob(id: int, now: int) returns (ok: bool, signalled: Option<Pid>)
      requires Valid() && now != 0
      modifies jobs
      ensures Valid() && ok == (0 <= id < SLOTS && Bit(taken, id))
      ensures View() == if 0 <= id < SLOTS then Next(old(View()), Cancel(id, now)) else old(View())
      ensures signalled.Some? <==> id in JobsWithPid(old(View()))
      ensures signalled.Some? ==> signalled.value in live && live[signalled.value].job == id
      ensures ok && signalled.None? ==> jobs[id] == old(jobs[id]).(status := Aborted, timestamp := now)
      ensures !ok || signalled.Some? ==> jobs[..] == old(jobs[..])
    {
      if id < 0 || id >= SLOTS {
        return false, None;
      }
      CancelKeeps(View(), id, now);
      assert JobOk(View().jobs[id], Bit(taken, id));
      if jobs[id].pid == 0 {
        if Bit(taken, id) {
          jobs[id] := jobs[id].(status := Aborted, timestamp := now);
          return true, None;
        }
        return false, None;
      }
      return true, Some(jobs[id].pid);
    }

    method DisablePrinter(name: string) returns (p: Option<nat>)
      requires Valid()
      modifies printers
      ensures Valid()
      ensures View() == if p.Some? && p.value < printerCount
        then Next(old(View()), Disable(p.value)) else old(View())
      ensures p.None? <==> !old(IsPrinter(name))
      ensures p.Some? ==> p.value < printerCount && old(printers[p.value].name) == name
      ensures p.Some? ==> printers[p.value] == old(printers[p.value]).(status := Disabled)
    {
      p := FindPrinter(name);
      if p.Some? {
        StatusKeeps(View(), p.value, Disabled);
        printers[p.value] := printers[p.value].(status := Disabled);
        assert View().printers == old(View()).printers[p.value := printers[p.value]];
      }
    }

    method EnablePrinter(name: string) returns (p: Option<nat>)
      requires Valid()
      modifies printers
      ensures Valid()
      ensures View() == if p.Some? && p.value < printerCount
        then Next(old(View()), Enable(p.value)) else old(View())
      ensures p.None? <==> !old(IsPrinter(name))
      ensures p.Some? ==> p.value < printerCount && old(printers[p.value].name) == name
      ensures p.Some? ==> var was := old(printers[p.value]);
        printers[p.value] == was.(status := if was.pid == 0 then Idle else Busy)
    {
      p := FindPrinter(name);
      if p.Some? {
        var status := if printers[p.value].pid != 0 then Busy else Idle;
        StatusKeeps(View(), p.value, status);
        printers[p.value] := printers[p.value].(status := status);
        assert View().printers == old(View()).printers[p.value := printers[p.value]];
      }
    }

    // The job slot of a living child; the search always succeeds.
    method FindJob(child: Pid) returns (j: nat)
      requires Valid() && child in live
      ensures j < SLOTS && live[child].job == j && jobs[j].pid == child
    {
      assert Served(View(), child, live[child]);
      j := 0;
      while jobs[j].pid != child
        invariant j <= live[child].job
        decreases SLOTS - j
      {
        j := j + 1;
      }
    }

    method FindServer(child: Pid) returns (p: nat)
      requires Valid() && child in live
      ensures p < printerCount && live[child].printer == p && printers[p].pid == child
    {
      assert Served(View(), child, live[child]);
      p := 0;
      while printers[p].pid != child
        invariant p <= live[child].printer
        decreases printerCount - p
      {
        p := p + 1;
      }
      assert View().printers[p].pid == child;
    }

    // The handler's branch for a child that has ended; the flag follows after the branch.
    method ChildEnded(child: Pid, success: bool, now: int)
      requires Valid() && child in live
      modifies this`running, this`live, printers, jobs
      ensures Shape() && View() == Exited(old(View()), child, success, now).(outstanding := outstanding)
    {
      assert Served(View(), child, live[child]);
      var j := FindJob(child);
      var p := FindServer(child);
      ghost var s := View();
      running := running - 1;
      jobs[j] := jobs[j].(pid := 0, status := if success then Finished else Aborted, timestamp := now);
      printers[p] := printers[p].(
        pid := 0, status := if printers[p].status == Busy then Idle else printers[p].status);
      live := live - {child};
      assert printers[..printerCount] == s.printers[p := printers[p]];
      assert jobs[..] == s.jobs[j := jobs[j]];
    }

    method ChildSignalled(child: Pid, status: JobStatus)
      requires Valid() && child in live
      modifies jobs
      ensures Shape() && live[child].job < SLOTS
      ensures View() == Signalled(old(View()), child, status)
    {
      var j := FindJob(child);
      jobs[j] := jobs[j].(status := status);
    }

    // The branch for what is reported.
    method ApplyReport(child: Pid, report: Report, now: int)
      requires Valid() && child in live && now != 0
      requires Enabled(View(), Reported(child, report, now))
      modifies this`running, this`live, printers, jobs
      ensures Shape() && View() == Next(old(View()), Reported(child, report, now)).(outstanding := outstanding)
    {
      match report {
        case ExitedWith(code) =>
          ChildEnded(child, code == 0, now);
        case Killed =>
          ChildEnded(child, false, now);
        case Stopped =>
          ChildSignalled(child, Paused);
        case Continued =>
          ChildSignalled(child, Running);
      }
    }

    // One round of the child-status handler.
    method HandleChild(child: Pid, report: Report, now: int)
      requires Valid() && child in live && now != 0
      modifies this, printers, jobs
      ensures Valid() && printerCount == old(printerCount)
      ensures Enabled(old(View()), Reported(child, report, now))
      ensures View() == Next(old(View()), Reported(child, report, now))
      ensures Handled(old(printers[..printerCount]), old(jobs[..]), old(live[child]), report, now,
                      printers[..printerCount], jobs[..])
      ensures child in live <==> report.Stopped? || report.Continued?
    {
      LiveIsServed(View(), child, report, now);
      StepKeeps(View(), Reported(child, report, now));
      ReportHandled(View(), child, report, now);
      ApplyReport(child, report, now);
      if running == 0 {
        outstanding := false;
      }
    }

    // `fork` either refuses or makes a child whose pid no living child has.
    method Fork() returns (pid: int)
      modifies this`refusals
      ensures pid == -1 || (pid > 0 && pid !in live)
      ensures refusals == old(refusals) + if pid == -1 then 1 else 0
    {
      pid := *;
      if pid <= 0 || pid in live {
        refusals := refusals + 1;
        return -1;
      }
    }

    // The parent's side of starting a job; the caller records the pid.
    method StartJob(p: nat, j: nat) returns (pid: int)
      requires Shape() && p < printerCount && j < SLOTS
      modifies this`live, this`refusals, printers, jobs
      ensures Shape() && refusals == old(refusals) + if pid == -1 then 1 else 0
      ensures pid == -1 ==> View() == old(View())
      ensures pid != -1 ==> pid > 0 && pid !in old(live)
      ensures pid != -1 ==> View() == Begun(old(View()), Slot(p, j), pid)
    {
      pid := Fork();
      if pid != -1 {
        ghost var s := View();
        jobs[j] := jobs[j].(status := Running);
        printers[p] := printers[p].(status := Busy);
        live := live[pid := Slot(p, j)];
        assert printers[..printerCount] == s.printers[p := printers[p]];
        assert jobs[..] == s.jobs[j := jobs[j]];
      }
    }

    // What the scan does with the pid of a job it has started.
    method RecordChild(p: nat, j: nat, child: Pid)
      requires Shape() && p < printerCount && j < SLOTS
      modifies this`running, this`outstanding, printers, jobs
      ensures Shape() && View() == Recorded(old(View()), Slot(p, j), child)
    {
      ghost var s := View();
      running := running + 1;
      outstanding := true;
      printers[p] := printers[p].(pid := child);
      jobs[j] := jobs[j].(pid := child);
      assert printers[..printerCount] == s.printers[p := printers[p]];
      assert jobs[..] == s.jobs[j := jobs[j]];
    }

    // The body of the scan: 0 when the pair cannot be started, -1 when the start failed, and
    // otherwise the child.
    method TryStart(p: nat, j: nat) returns (r: int)
      requires Valid() && p < printerCount && j < SLOTS
      modifies this, printers, jobs
      ensures Valid() && printerCount == old(printerCount)
      ensures refusals == old(refusals) + if r == -1 then 1 else 0
      ensures r == 0 <==> !Startable(old(View()), p, j)
      ensures r <= 0 ==> View() == old(View())
      ensures r != 0 ==> r == -1 || Enabled(old(View()), Start(Slot(p, j), r))
      ensures r > 0 ==> View() == Next(old(View()), Start(Slot(p, j), r))
    {
      r := 0;
      ghost var s := View();
      if Bit(taken, j) && Has(jobs[j].eligible, p)
         && jobs[j].status == Created && printers[p].status == Idle {
        if (jobs[j].kind, printers[p].kind) in paths {
          r := StartJob(p, j);
          if r != -1 {
            StartKeeps(s, Slot(p, j), r);
            RecordChild(p, j, r);
            BegunAndRecorded(s, Slot(p, j), r);
          }
        }
      }
    }

    // One pair of the scan, with the record of the scan so far carried along.
    method Visit(p: nat, j: nat, ghost s: State, ghost starts: seq<Event>, ghost failed: set<Slot>)
      returns (ghost starts': seq<Event>, ghost failed': set<Slot>)
      requires Valid() && p < printerCount && j < SLOTS
      requires Progress(s, View(), p, j, starts, failed)
      modifies this, printers, jobs
      ensures Valid() && printerCount == old(printerCount)
      ensures Progress(s, View(), p, j + 1, starts', failed')
      ensures |failed'| - |failed| == refusals - old(refusals)
    {
      ghost var before := View();
      var child := TryStart(p, j);
      if child > 0 {
        ProgressStarts(s, before, Slot(p, j), child, starts, failed);
        starts', failed' := starts + [Start(Slot(p, j), child)], failed;
      } else {
        ghost var refused := if child == -1 then {Slot(p, j)} else {};
        ProgressSkips(s, before, Slot(p, j), starts, failed, refused);
        starts', failed' := starts, failed + refused;
      }
    }

    /**
     * The scan is a series of starts, each on an idle printer of a created job it may take and
     * has a conversion path for.  Afterwards nothing startable is left but the pairs whose start
     * failed, one for each refused fork, and no printer passed over a lower-numbered job.
     */
    method Scan() returns (ghost starts: seq<Event>, ghost failed: set<Slot>)
      requires Valid()
      modifies this, printers, jobs
      ensures Valid() && printerCount == old(printerCount)
      ensures Progress(old(View()), View(), printerCount, 0, starts, failed)
      ensures |failed| == refusals - old(refusals)
    {
      ghost var s := View();
      starts, failed := [], {};
      NothingDone(s);
      for p := 0 to printerCount
        invariant Valid() && printerCount == old(printerCount)
        invariant Progress(s, View(), p, 0, starts, failed)
        invariant |failed| == refusals - old(refusals)
      {
        for j := 0 to SLOTS
          invariant Valid() && printerCount == old(printerCount)
          invariant Progress(s, View(), p, j, starts, failed)
          invariant |failed| == refusals - old(refusals)
        {
          starts, failed := Visit(p, j, s, starts, failed);
        }
        ProgressRow(s, View(), p, starts, failed);
      }
    }

    // The name a due slot gives back is still allocated.
    method DeleteIfDue(i: nat, now: int)
      requires Shape() && i < SLOTS
      requires Due(jobs[i], now) ==> jobs[i].file.Some?
      modifies this`taken, jobs
      ensures Shape() && jobs[..] == old(jobs[..])[i := Deleted(old(jobs[i]), now)]
      ensures taken == if old(Due(jobs[i], now)) then Flipped(old(taken), i) else old(taken)
    {
      if jobs[i].timestamp != 0 && now - jobs[i].timestamp >= DELETE_AFTER {
        jobs[i] := jobs[i].(timestamp := 0, file := None);
        taken := Flipped(taken, i);
      }
    }

    // Frees the slots of jobs that ended at least ten seconds before `now`.
    method DeleteOldJobs(now: int)
      requires Valid()
      modifies this`taken, jobs
      ensures Valid() && View() == Next(old(View()), Expire(now))
      ensures forall j: nat | j < SLOTS :: DeletedIfOld(old(jobs[j]), old(Bit(taken, j)), now, jobs[j], Bit(taken, j))
    {
      ghost var s := View();
      ExpireKeeps(s, now);
      OldDeleted(s, now);
      for i := 0 to SLOTS
        invariant Shape() && taken == Flips(s, now, i)
        invariant jobs[..] == SweptTo(s.jobs, now, i)
      {
        FileIsAllocated(s, i);
        assert jobs[i] == s.jobs[i];
        DeleteIfDue(i, now);
        SweptFurther(s.jobs, now, i);
      }
    }
  }

  // A job that ended ten seconds ago or earlier loses its slot and its file name; any other stays.
  ghost predicate DeletedIfOld(j: Job, taken: bool, now: int, j': Job, taken': bool) {
    if j.timestamp != 0 && now - j.timestamp >= 10 then taken && !taken' && j' == j.(timestamp := 0, file := None)
    else taken' == taken && j' == j
  }

  lemma OldDeleted(s: State, now: int)
    requires Inv(s)
    ensures forall j: nat | j < SLOTS ::
      DeletedIfOld(s.jobs[j], Bit(s.taken, j), now, Expired(s, now).jobs[j], Bit(Expired(s, now).taken, j))
  {
    forall j: nat | j < SLOTS
      ensures DeletedIfOld(s.jobs[j], Bit(s.taken, j), now, Expired(s, now).jobs[j], Bit(Expired(s, now).taken, j))
    {
      FileIsAllocated(s, j);
      FlipsOnlyClear(s, now, SLOTS, j);
    }
  }

  ghost function SweptTo(jobs: seq<Job>, now: int, k: nat): (r: seq<Job>)
    ensures |r| == |jobs|
    ensures k == 0 ==> r == jobs
    ensures k == |jobs| ==> r == Swept(jobs, now)
  {
    seq(|jobs|, i requires 0 <= i < |jobs| => if i < k then Deleted(jobs[i], now) else jobs[i])
  }

  lemma SweptFurther(jobs: seq<Job>, now: int, k: nat)
    requires k < |jobs|
    ensures SweptTo(jobs, now, k)[k] == jobs[k]
    ensures SweptTo(jobs, now, k)[k := Deleted(jobs[k], now)] == SweptTo(jobs, now, k + 1)
  {
  }

  // The name freed with a slot is allocated, so it is freed once.
  lemma FileIsAllocated(s: State, j: nat)
    requires JobsOk(s) && j < SLOTS
    ensures s.jobs[j].timestamp != 0 ==> s.jobs[j].file.Some? && Bit(s.taken, j)
  {
    assert JobOk(s.jobs[j], Bit(s.taken, j));
  }

  // A job that waits for a printer, and an idle printer that it may use and can be converted for.
  ghost predicate Fits(s: State, p: nat, j: nat)
    requires Sized(s) && p < |s.printers| && j < SLOTS
  {
    var printer, job := s.printers[p], s.jobs[j];
    && Bit(s.taken, j) && job.status == Created && Has(job.eligible, p)
    && printer.status == Idle && (job.kind, printer.kind) in s.paths
  }

  /**
   * The scan conserves work and is sound: if no fork was refused, no idle printer is left with
   * a created job it may take and could print, and every new child serves one printer that was
   * idle and one job that was waiting for it.
   */
  lemma ScanOutcome(s: State, t: State, failed: set<Slot>)
    requires Scanned(s, t, |t.printers|, 0, failed)
    ensures forall p: nat, j: nat | p < |t.printers| && j < SLOTS && Fits(t, p, j) :: Slot(p, j) in failed
    ensures failed == {} ==> forall p: nat, j: nat | p < |t.printers| && j < SLOTS :: !Fits(t, p, j)
    ensures forall pid | pid in t.live && pid !in s.live ::
      var slot := t.live[pid];
      && slot.printer < |s.printers| && slot.job < SLOTS && Fits(s, slot.printer, slot.job)
      && t.printers[slot.printer] == s.printers[slot.printer].(status := Busy, pid := pid)
      && t.jobs[slot.job] == s.jobs[slot.job].(status := Running, pid := pid)
  {
    forall p: nat, j: nat | p < |t.printers| && j < SLOTS && Fits(t, p, j)
      ensures Slot(p, j) in failed
    {
      assert Startable(t, p, j);
      assert Before(Slot(p, j), |t.printers|, 0);
    }
    forall pid | pid in t.live && pid !in s.live
      ensures var slot := t.live[pid];
        && slot.printer < |s.printers| && slot.job < SLOTS && Fits(s, slot.printer, slot.job)
        && t.printers[slot.printer] == s.printers[slot.printer].(status := Busy, pid := pid)
        && t.jobs[slot.job] == s.jobs[slot.job].(status := Running, pid := pid)
    {
      NewChild(s, t, pid);
    }
  }

  lemma NewChild(s: State, t: State, pid: Pid)
    requires Inv(s) && Inv(t) && OnlyStarted(s, t) && pid in t.live && pid !in s.live
    ensures var slot := t.live[pid];
      && Startable(s, slot.printer, slot.job)
      && t.printers[slot.printer] == s.printers[slot.printer].(status := Busy, pid := pid)
      && t.jobs[slot.job] == s.jobs[slot.job].(status := Running, pid := pid)
  {
    var slot := t.live[pid];
    assert Served(t, pid, slot);
    assert PrinterAfter(s, t, slot.printer) && JobAfter(s, t, slot.job);
    assert PrinterOk(s.printers[slot.printer]) && JobOk(s.jobs[slot.job], true);
  }
}
