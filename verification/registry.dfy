/**
 * The background-job list (`struct zombieProcess`): a list whose last
 * record is an empty sentinel, filled in when a background job starts,
 * polled without blocking once per prompt (`clearZombieProcs`), and swept
 * with SIGKILL at exit.
 */
module Registry {
  import Decimal
  import Options
  import Status

  /** One record: the job's pid (0 in the sentinel) and whether it was reported. */
  datatype Entry = Entry(pid: nat, killed: bool)

  /** A fresh record from `makeZombie`. */
  const Sentinel := Entry(0, false)

  /** The list the shell starts with: just the sentinel. */
  const Initial: seq<Entry> := [Sentinel]

  /** The list ends in the sentinel and every other record holds a real pid. */
  predicate Valid(jobs: seq<Entry>) {
    && |jobs| > 0
    && jobs[|jobs| - 1] == Sentinel
    && forall i :: 0 <= i < |jobs| - 1 ==> jobs[i].pid > 0
  }

  /**
   * A background spawn: the tail record takes the child's pid and one fresh
   * sentinel is appended; every earlier record is untouched.
   */
  function Register(jobs: seq<Entry>, pid: nat): (r: seq<Entry>)
    requires |jobs| > 0
    requires pid > 0
    ensures |r| == |jobs| + 1
    ensures r[..|jobs| - 1] == jobs[..|jobs| - 1]
    ensures r[|jobs| - 1] == Entry(pid, jobs[|jobs| - 1].killed)
    ensures r[|jobs|] == Sentinel
    ensures Valid(jobs) ==> Valid(r) && r[|jobs| - 1] == Entry(pid, false)
  {
    jobs[..|jobs| - 1] + [jobs[|jobs| - 1].(pid := pid), Sentinel]
  }

  const StartedPrefix := "background pid is "

  /**
   * The notice printed when a background job starts: the fixed prefix, the
   * pid in decimal, a newline. The pid can be read back from it.
   */
  function StartedNotice(pid: nat): (line: string)
    ensures |line| > |StartedPrefix| + 1
    ensures line[..|StartedPrefix|] == StartedPrefix && line[|line| - 1] == '\n'
    ensures Decimal.Canonical(line[|StartedPrefix|..|line| - 1])
    ensures Decimal.Parse(line[|StartedPrefix|..|line| - 1]) == pid
  {
    var line := StartedPrefix + Decimal.Show(pid) + "\n";
    assert line[|StartedPrefix|..|line| - 1] == Decimal.Show(pid);
    Decimal.ParseShow(pid);
    line
  }

  /** What a non-blocking `waitpid` says about one job. */
  datatype WaitResult = StillRunning | Finished(status: Status.WaitStatus)

  /** A record that is still watched: a real pid, not yet reported. */
  predicate Live(e: Entry) {
    e.pid != 0 && !e.killed
  }

  /**
   * One poll of one record: skipped when it is the sentinel or already
   * reported, otherwise marked reported as soon as the job has finished.
   */
  function ClearZombie(e: Entry, w: WaitResult): (r: Entry)
    ensures r.pid == e.pid
    ensures r.killed <==> e.killed || (Live(e) && w.Finished?)
  {
    if e.pid == 0 || e.killed then e
    else if w.StillRunning? then e
    else e.(killed := true)
  }

  /** A report: the record's position in the list, its pid, how it ended. */
  datatype Completion = Completion(slot: nat, pid: nat, status: Status.WaitStatus)

  /** The list after a poll and the reports it printed, in list order. */
  datatype Sweep = Sweep(jobs: seq<Entry>, done: seq<Completion>)

  /** Record `i` is reported by a poll that observes `observe`. */
  predicate Reportable(jobs: seq<Entry>, observe: nat -> WaitResult, i: nat, n: nat) {
    i < n && i < |jobs| && Live(jobs[i]) && observe(i).Finished?
  }

  /** Reports in list order, each naming a reportable record as observed. */
  predicate ReportsMatch(jobs: seq<Entry>, observe: nat -> WaitResult, n: nat, done: seq<Completion>) {
    && (forall k :: 0 <= k < |done| ==>
          && Reportable(jobs, observe, done[k].slot, n)
          && done[k].pid == jobs[done[k].slot].pid
          && done[k].status == observe(done[k].slot).status)
    && (forall k, l :: 0 <= k < l < |done| ==> done[k].slot < done[l].slot)
    && (forall i :: 0 <= i < n && Reportable(jobs, observe, i, n) ==>
          exists k :: 0 <= k < |done| && done[k].slot == i)
  }

  /** Adding the report (if any) of record `n - 1` keeps the reports matching. */
  lemma PollStepMatches(jobs: seq<Entry>, observe: nat -> WaitResult, n: nat,
                        prev: seq<Completion>, report: seq<Completion>)
    requires 0 < n <= |jobs|
    requires ReportsMatch(jobs, observe, n - 1, prev)
    requires report == if Live(jobs[n - 1]) && observe(n - 1).Finished?
                       then [Completion(n - 1, jobs[n - 1].pid, observe(n - 1).status)] else []
    ensures ReportsMatch(jobs, observe, n, prev + report)
  {
    var done := prev + report;
    assert forall k :: 0 <= k < |prev| ==> done[k] == prev[k];
    forall i | 0 <= i < n && Reportable(jobs, observe, i, n)
      ensures exists k :: 0 <= k < |done| && done[k].slot == i
    {
      if i < n - 1 {
        assert Reportable(jobs, observe, i, n - 1);
        var k :| 0 <= k < |prev| && prev[k].slot == i;
        assert done[k].slot == i;
      } else {
        assert done[|prev|].slot == i;
      }
    }
  }

  /** Polls the first `n` records, in order. */
  function PollUpTo(jobs: seq<Entry>, observe: nat -> WaitResult, n: nat): (s: Sweep)
    requires n <= |jobs|
    ensures |s.jobs| == |jobs|
    ensures forall i :: 0 <= i < |jobs| ==> s.jobs[i].pid == jobs[i].pid
    ensures forall i :: 0 <= i < |jobs| ==>
              (s.jobs[i].killed <==> jobs[i].killed || Reportable(jobs, observe, i, n))
    ensures ReportsMatch(jobs, observe, n, s.done)
  {
    if n == 0 then Sweep(jobs, [])
    else
      var prev := PollUpTo(jobs, observe, n - 1);
      var e := prev.jobs[n - 1];
      assert e == jobs[n - 1];
      var report := if Live(e) && observe(n - 1).Finished?
                    then [Completion(n - 1, e.pid, observe(n - 1).status)] else [];
      var done := prev.done + report;
      PollStepMatches(jobs, observe, n, prev.done, report);
      Sweep(prev.jobs[n - 1 := ClearZombie(e, observe(n - 1))], done)
  }

  /**
   * The poll before each prompt: every record but the tail, in order. A
   * record is reported exactly when it was live and its job had finished,
   * and from then on it is marked reported.
   */
  function PollAll(jobs: seq<Entry>, observe: nat -> WaitResult): (s: Sweep)
    requires |jobs| > 0
    ensures |s.jobs| == |jobs|
    ensures forall i :: 0 <= i < |jobs| ==> s.jobs[i].pid == jobs[i].pid
    ensures forall i :: 0 <= i < |jobs| ==>
              (s.jobs[i].killed <==> jobs[i].killed || Reportable(jobs, observe, i, |jobs| - 1))
    ensures ReportsMatch(jobs, observe, |jobs| - 1, s.done)
    ensures Valid(jobs) ==> Valid(s.jobs)
  {
    PollUpTo(jobs, observe, |jobs| - 1)
  }

  /** A job reported by one poll is never reported by the next. */
  lemma NoReportTwice(jobs: seq<Entry>, first: nat -> WaitResult, second: nat -> WaitResult)
    requires |jobs| > 0
    ensures forall k, l ::
              0 <= k < |PollAll(jobs, first).done| &&
              0 <= l < |PollAll(PollAll(jobs, first).jobs, second).done| ==>
              PollAll(jobs, first).done[k].slot != PollAll(PollAll(jobs, first).jobs, second).done[l].slot
  {
  }

  /** What happens to the list between prompts. */
  /** A poll in which only record `i`, live, has finished reports that record alone. */
  lemma SingleReport(jobs: seq<Entry>, observe: nat -> WaitResult, i: nat)
    requires i < |jobs| - 1 && Live(jobs[i]) && observe(i).Finished?
    requires forall j :: j != i ==> observe(j) == StillRunning
    ensures PollAll(jobs, observe).done == [Completion(i, jobs[i].pid, observe(i).status)]
  {
    var done := PollAll(jobs, observe).done;
    assert Reportable(jobs, observe, i, |jobs| - 1);
    var k :| 0 <= k < |done| && done[k].slot == i;
    forall l | 0 <= l < |done|
      ensures done[l].slot == i
    {
      assert Reportable(jobs, observe, done[l].slot, |jobs| - 1);
    }
    IncreasingSlots(done, |done| - 1);
  }

  /** Strictly increasing slots climb by at least one per report. */
  lemma {:induction false} IncreasingSlots(done: seq<Completion>, l: nat)
    requires forall k, m :: 0 <= k < m < |done| ==> done[k].slot < done[m].slot
    requires l < |done|
    ensures done[0].slot + l <= done[l].slot
  {
    if l > 0 {
      IncreasingSlots(done, l - 1);
    }
  }

  datatype Event = Spawned(pid: nat) | Polled(observe: nat -> WaitResult)

  predicate SpawnsValid(events: seq<Event>) {
    forall i :: 0 <= i < |events| && events[i].Spawned? ==> events[i].pid > 0
  }

  function Step(jobs: seq<Entry>, e: Event): (s: Sweep)
    requires |jobs| > 0
    requires e.Spawned? ==> e.pid > 0
    ensures |s.jobs| >= |jobs|
  {
    match e
    case Spawned(pid) => Sweep(Register(jobs, pid), [])
    case Polled(observe) => PollAll(jobs, observe)
  }

  /** The list after a run of events, with every report printed along the way. */
  function Run(jobs: seq<Entry>, events: seq<Event>): (s: Sweep)
    requires |jobs| > 0
    requires SpawnsValid(events)
    ensures |s.jobs| >= |jobs|
  {
    if |events| == 0 then Sweep(jobs, [])
    else
      var prev := Run(jobs, events[..|events| - 1]);
      var last := Step(prev.jobs, events[|events| - 1]);
      Sweep(last.jobs, prev.done + last.done)
  }

  /** Every reported record lies in the list and is marked reported. */
  predicate Marked(jobs: seq<Entry>, done: seq<Completion>) {
    forall k :: 0 <= k < |done| ==> done[k].slot < |jobs| && jobs[done[k].slot].killed
  }

  /** No record appears in two reports. */
  predicate Distinct(done: seq<Completion>) {
    forall k, l :: 0 <= k < l < |done| ==> done[k].slot != done[l].slot
  }

  /**
   * One step keeps every mark, reports only unmarked records, and reports
   * each of them once.
   */
  lemma StepFacts(jobs: seq<Entry>, e: Event, done: seq<Completion>)
    requires |jobs| > 0
    requires e.Spawned? ==> e.pid > 0
    requires Marked(jobs, done)
    ensures Marked(Step(jobs, e).jobs, done)
    ensures Marked(Step(jobs, e).jobs, Step(jobs, e).done)
    ensures Distinct(Step(jobs, e).done)
    ensures forall k :: 0 <= k < |Step(jobs, e).done| ==>
              Step(jobs, e).done[k].slot < |jobs| && !jobs[Step(jobs, e).done[k].slot].killed
  {
    var s := Step(jobs, e);
    if e.Spawned? {
      var n := |jobs|;
      forall k | 0 <= k < |done|
        ensures done[k].slot < |s.jobs| && s.jobs[done[k].slot].killed
      {
        var i := done[k].slot;
        if i < n - 1 {
          assert s.jobs[i] == s.jobs[..n - 1][i] == jobs[..n - 1][i];
        }
      }
    }
  }

  /** Reports of two consecutive stretches never share a record. */
  lemma AppendDistinct(jobs: seq<Entry>, prev: seq<Completion>, next: seq<Completion>)
    requires Distinct(prev) && Distinct(next)
    requires Marked(jobs, prev)
    requires forall k :: 0 <= k < |next| ==> next[k].slot < |jobs| && !jobs[next[k].slot].killed
    ensures Distinct(prev + next)
  {
    var all := prev + next;
    forall k, l | 0 <= k < l < |all|
      ensures all[k].slot != all[l].slot
    {
      if l < |prev| {
        assert all[k] == prev[k] && all[l] == prev[l];
      } else if k >= |prev| {
        assert all[k] == next[k - |prev|] && all[l] == next[l - |prev|];
      } else {
        assert all[k] == prev[k] && all[l] == next[l - |prev|];
      }
    }
  }

  lemma AppendMarked(jobs: seq<Entry>, prev: seq<Completion>, next: seq<Completion>)
    requires Marked(jobs, prev) && Marked(jobs, next)
    ensures Marked(jobs, prev + next)
  {
    var all := prev + next;
    forall k | 0 <= k < |all|
      ensures all[k].slot < |jobs| && jobs[all[k].slot].killed
    {
      if k < |prev| {
        assert all[k] == prev[k];
      } else {
        assert all[k] == next[k - |prev|];
      }
    }
  }

  /**
   * Over any run of spawns and polls, every reported record stays marked
   * and no record is reported twice: each job's completion is printed at
   * most once.
   */
  lemma {:induction false} ReportedAtMostOnce(jobs: seq<Entry>, events: seq<Event>)
    requires |jobs| > 0
    requires SpawnsValid(events)
    ensures Marked(Run(jobs, events).jobs, Run(jobs, events).done)
    ensures Distinct(Run(jobs, events).done)
  {
    if |events| > 0 {
      var init := events[..|events| - 1];
      assert SpawnsValid(init) by {
        forall i | 0 <= i < |init| && init[i].Spawned?
          ensures init[i].pid > 0
        {
          assert init[i] == events[i];
        }
      }
      ReportedAtMostOnce(jobs, init);
      var prev := Run(jobs, init);
      var e := events[|events| - 1];
      var last := Step(prev.jobs, e);
      StepFacts(prev.jobs, e, prev.done);
      AppendDistinct(prev.jobs, prev.done, last.done);
      AppendMarked(last.jobs, prev.done, last.done);
    }
  }

  /** `pid` belongs to an unreported record among the first `n`. */
  predicate UnreportedPid(jobs: seq<Entry>, n: nat, pid: nat)
    requires n <= |jobs|
  {
    exists i :: 0 <= i < n && !jobs[i].killed && jobs[i].pid == pid
  }

  /** The pids the exit sweep kills among the first `n` records, in order. */
  function KillUpTo(jobs: seq<Entry>, n: nat): (pids: seq<nat>)
    requires n <= |jobs|
    ensures forall i :: 0 <= i < n && !jobs[i].killed ==> jobs[i].pid in pids
    ensures forall k :: 0 <= k < |pids| ==> UnreportedPid(jobs, n, pids[k])
  {
    if n == 0 then []
    else
      var prev := KillUpTo(jobs, n - 1);
      var pids := prev + (if !jobs[n - 1].killed then [jobs[n - 1].pid] else []);
      assert forall k :: 0 <= k < |prev| ==> pids[k] == prev[k];
      pids
  }

  /**
   * The exit sweep: SIGKILL to every record but the tail that was never
   * reported. In a valid list no target is 0, which `kill` would take as
   * the shell's whole process group.
   */
  function Shutdown(jobs: seq<Entry>): (pids: seq<nat>)
    requires |jobs| > 0
    ensures forall i :: 0 <= i < |jobs| - 1 && !jobs[i].killed ==> jobs[i].pid in pids
    ensures forall k :: 0 <= k < |pids| ==> UnreportedPid(jobs, |jobs| - 1, pids[k])
    ensures Valid(jobs) ==> forall k :: 0 <= k < |pids| ==> pids[k] > 0
  {
    var pids := KillUpTo(jobs, |jobs| - 1);
    assert Valid(jobs) ==> forall k :: 0 <= k < |pids| ==> pids[k] > 0 by {
      if Valid(jobs) {
        forall k | 0 <= k < |pids|
          ensures pids[k] > 0
        {
          assert UnreportedPid(jobs, |jobs| - 1, pids[k]);
          var i :| 0 <= i < |jobs| - 1 && !jobs[i].killed && jobs[i].pid == pids[k];
          assert jobs[i].pid > 0;
        }
      }
    }
    pids
  }

  /** The start of a completion report. */
  function DonePrefix(pid: nat): string {
    "background pid " + Decimal.Show(pid) + " is done: "
  }

  /** The phrase a completion report is meant to carry. */
  function PhraseOf(w: Status.WaitStatus): Status.Phrase {
    match w
    case Exited(code) => Status.ExitValue(code)
    case Signaled(sig) => Status.TerminatedBy(sig)
  }

  /**
   * The report as printed: an exit goes through `showStatus`, so an exit
   * code of 100 prints as the last foreground signal; a signal death names
   * the job's own signal.
   */
  function ReportLine(c: Completion, signalNumber: nat): (line: string)
    ensures |DonePrefix(c.pid)| <= |line| && line[..|DonePrefix(c.pid)|] == DonePrefix(c.pid)
    ensures c.status != Status.Exited(Status.SignalStatus) ==>
              Status.ReadPhrase(line[|DonePrefix(c.pid)|..]) == Options.Some(PhraseOf(c.status))
    ensures c.status == Status.Exited(Status.SignalStatus) ==>
              Status.ReadPhrase(line[|DonePrefix(c.pid)|..]) == Options.Some(Status.TerminatedBy(signalNumber))
  {
    Status.ReadRender(PhraseOf(c.status));
    var tail := if c.status.Exited? then Status.ShowStatus(c.status.code, signalNumber)
                else Status.Render(Status.TerminatedBy(c.status.signal));
    var line := DonePrefix(c.pid) + tail;
    assert line[|DonePrefix(c.pid)|..] == tail;
    line
  }

  /** The report with the job's own exit value or signal in every case. */
  function IntendedReportLine(c: Completion): (line: string)
    ensures |DonePrefix(c.pid)| <= |line| && line[..|DonePrefix(c.pid)|] == DonePrefix(c.pid)
    ensures Status.ReadPhrase(line[|DonePrefix(c.pid)|..]) == Options.Some(PhraseOf(c.status))
  {
    Status.ReadRender(PhraseOf(c.status));
    var line := DonePrefix(c.pid) + Status.Render(PhraseOf(c.status));
    assert line[|DonePrefix(c.pid)|..] == Status.Render(PhraseOf(c.status));
    line
  }

  /** The printed report differs from the intended one exactly for exit code 100. */
  lemma ReportDiffersOnlyFor100(c: Completion, signalNumber: nat)
    ensures ReportLine(c, signalNumber) == IntendedReportLine(c) <==>
              c.status != Status.Exited(Status.SignalStatus)
  {
    var p := |DonePrefix(c.pid)|;
    if c.status == Status.Exited(Status.SignalStatus) {
      if ReportLine(c, signalNumber) == IntendedReportLine(c) {
        assert false;
      }
    }
  }

  /** Any completion with exit code 100 is reported as killed by the given signal number. */
  lemma Exit100Report(c: Completion, signalNumber: nat)
    requires c.status == Status.Exited(Status.SignalStatus)
    ensures ReportLine(c, signalNumber) == DonePrefix(c.pid) + Status.SignalPrefix + Decimal.Show(signalNumber) + "\n"
  {
  }

  /** A background job exiting with 100 is reported as killed by the last foreground signal. */
  lemma Exit100Example()
    ensures ReportLine(Completion(0, 7, Status.Exited(100)), 2)
            == DonePrefix(7) + Status.SignalPrefix + "2\n"
  {
    assert Decimal.Show(2) == "2";
    assert Status.ShowStatus(100, 2) == Status.SignalPrefix + "2\n";
  }
}
