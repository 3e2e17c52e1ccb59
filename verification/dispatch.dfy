/**
 * `executeOtherCommands` together with the parent side of
 * `runInForeground` and `runInBackground`: the argument cap, the
 * foreground/background decision, the child's argument vector and
 * streams, and the shell state after the dispatch. The child pid from
 * `fork` and the status from the blocking `waitpid` are inputs.
 */
module Dispatch {
  import opened Options
  import Decimal
  import Command
  import Status
  import ForegroundMode
  import Registry

  /** The shell state a dispatch reads and writes. */
  datatype Shell = Shell(
    foregroundOnly: bool,     // FOREGROUND_ONLY
    status: nat,              // the status value `status` prints
    signalNumber: nat,        // SIGNAL_NUMBER
    jobs: seq<Registry.Entry> // the background-job list
  )

  /** The state at start-up: normal mode, status 0, no jobs. */
  const Start := Shell(ForegroundMode.InitialForegroundOnly, 0, 0, Registry.Initial)

  /** The start-up state satisfies what dispatch, the poll and the exit sweep rely on. */
  lemma StartValid()
    ensures Registry.Valid(Start.jobs)
    ensures !Start.foregroundOnly && Start.status == 0
    ensures |Start.jobs| == 1 && !Registry.Live(Start.jobs[0])
  {
  }

  /** What the child is started with. */
  datatype Launch = Launch(argv: seq<string>, stdin: Command.Redirect, stdout: Command.Redirect, background: bool)

  /** The shell state afterwards, the child started (if any), the parent's output. */
  datatype Dispatched = Dispatched(shell: Shell, launched: Option<Launch>, output: string)

  const TooManyArguments := "Too many arguments in command line!\n"

  /**
   * Commands whose dispatch is defined: at least one token and, unless the
   * cap rejects them first, every counted argv slot filled and no `<` or `>`
   * as the last token.
   */
  predicate Dispatchable(ts: seq<string>) {
    && |ts| > 0
    && (Command.ArgCount(ts) <= Command.MaxArguments ==>
          Command.ArgvDefined(ts) && !Command.IsRedirect(ts[|ts| - 1]))
  }

  /** The phrase `status` is meant to print after a foreground child. */
  function ForegroundPhrase(w: Status.WaitStatus): Status.Phrase {
    match w
    case Exited(code) => Status.ExitValue(if code == 0 then 0 else 1)
    case Signaled(sig) => Status.TerminatedBy(sig)
  }

  /**
   * The parent side of `runInBackground`: the streams default to
   * `/dev/null`, the child's pid fills the tail of the job list, the notice
   * names it, and the status and signal number are kept.
   */
  function StartBackground(ts: seq<string>, sh: Shell, child: nat): (d: Dispatched)
    requires |sh.jobs| > 0
    requires child > 0
    ensures d.launched.Some? && d.launched.value.background
    ensures d.launched.value.argv == Command.Argv(ts)
    ensures d.launched.value.stdin.File? && d.launched.value.stdout.File?
    ensures Command.LastTarget(ts, Command.InputOp).File? ==>
              d.launched.value.stdin == Command.LastTarget(ts, Command.InputOp)
    ensures Command.LastTarget(ts, Command.OutputOp).File? ==>
              d.launched.value.stdout == Command.LastTarget(ts, Command.OutputOp)
    ensures Command.LastTarget(ts, Command.InputOp).Terminal? ==>
              d.launched.value.stdin == Command.File(Command.DevNull)
    ensures Command.LastTarget(ts, Command.OutputOp).Terminal? ==>
              d.launched.value.stdout == Command.File(Command.DevNull)
    ensures d.shell == sh.(jobs := d.shell.jobs)
    ensures |d.shell.jobs| == |sh.jobs| + 1
    ensures d.shell.jobs[..|sh.jobs| - 1] == sh.jobs[..|sh.jobs| - 1]
    ensures d.shell.jobs[|sh.jobs| - 1].pid == child
    ensures d.shell.jobs == Registry.Register(sh.jobs, child)
    ensures Registry.Valid(sh.jobs) ==> Registry.Valid(d.shell.jobs)
    ensures d.output == Registry.StartedNotice(child)
  {
    var input := Command.LastTarget(ts, Command.InputOp);
    var output := Command.LastTarget(ts, Command.OutputOp);
    Dispatched(
      sh.(jobs := Registry.Register(sh.jobs, child)),
      Some(Launch(Command.Argv(ts), Command.BackgroundDefault(input), Command.BackgroundDefault(output), true)),
      Registry.StartedNotice(child))
  }

  /**
   * The shell state once the blocking wait returns: `status` holds the
   * collapsed wait status, and only a signal death changes `SIGNAL_NUMBER`.
   */
  function AfterForegroundWait(sh: Shell, wait: Status.WaitStatus): (r: Shell)
    ensures r == sh.(status := r.status, signalNumber := r.signalNumber)
    ensures r.status == Status.ForegroundStatus(wait)
    ensures wait.Exited? ==> r.signalNumber == sh.signalNumber
    ensures wait.Signaled? ==> r.signalNumber == wait.signal
  {
    sh.(status := Status.ForegroundStatus(wait), signalNumber := Status.RecordSignal(wait, sh.signalNumber))
  }

  /**
   * The parent side of `runInForeground`: the streams are the named files
   * or the terminal; after the wait, `status` describes how the child
   * ended, and a signal death is announced at once.
   */
  function RunForeground(ts: seq<string>, sh: Shell, wait: Status.WaitStatus): (d: Dispatched)
    ensures d.launched.Some? && !d.launched.value.background
    ensures d.launched.value.argv == Command.Argv(ts)
    ensures d.launched.value.stdin == Command.LastTarget(ts, Command.InputOp)
    ensures d.launched.value.stdout == Command.LastTarget(ts, Command.OutputOp)
    ensures d.shell == AfterForegroundWait(sh, wait)
    ensures d.shell == sh.(status := d.shell.status, signalNumber := d.shell.signalNumber)
    ensures d.shell.status == Status.ForegroundStatus(wait)
    ensures wait.Exited? ==> d.shell.signalNumber == sh.signalNumber
    ensures wait.Signaled? ==> d.shell.signalNumber == wait.signal
    ensures d.output == "" <==> wait.Exited?
    ensures wait.Signaled? ==> d.output == Status.Render(Status.TerminatedBy(wait.signal))
    ensures Status.ReadPhrase(Status.ShowStatus(d.shell.status, d.shell.signalNumber))
              == Some(ForegroundPhrase(wait))
  {
    var notice := if wait.Signaled? then Status.Render(Status.TerminatedBy(wait.signal)) else "";
    Dispatched(
      AfterForegroundWait(sh, wait),
      Some(Launch(Command.Argv(ts), Command.LastTarget(ts, Command.InputOp),
                  Command.LastTarget(ts, Command.OutputOp), false)),
      notice)
  }

  /**
   * One external command. Over the cap: a notice, nothing started, nothing
   * changed. Otherwise the child runs in the background exactly when the
   * last token is `&` and foreground-only mode is off.
   */
  function ExecuteOtherCommands(ts: seq<string>, sh: Shell, child: nat, wait: Status.WaitStatus): (d: Dispatched)
    requires Dispatchable(ts)
    requires |sh.jobs| > 0
    requires child > 0
    ensures d.shell.foregroundOnly == sh.foregroundOnly
    ensures Command.ArgCount(ts) > Command.MaxArguments ==>
              d == Dispatched(sh, None, TooManyArguments)
    ensures Command.ArgCount(ts) <= Command.MaxArguments ==>
              && d.launched.Some?
              && (d.launched.value.background <==>
                    ts[|ts| - 1] == Command.BackgroundOp && !sh.foregroundOnly)
    ensures d.launched.Some? && d.launched.value.background ==>
              d == StartBackground(ts, sh, child)
    ensures d.launched.Some? && !d.launched.value.background ==>
              d == RunForeground(ts, sh, wait)
  {
    if Command.ArgCount(ts) > Command.MaxArguments then
      Dispatched(sh, None, TooManyArguments)
    else if ts[|ts| - 1] == Command.BackgroundOp && !sh.foregroundOnly then
      StartBackground(ts, sh, child)
    else
      RunForeground(ts, sh, wait)
  }

  /** The lines one poll prints: the report of each completion, in list order. */
  function ReportLines(done: seq<Registry.Completion>, signalNumber: nat): (out: string)
    ensures out == "" <==> |done| == 0
    ensures |done| > 0 ==>
              && |Registry.DonePrefix(done[0].pid)| <= |out|
              && out[..|Registry.DonePrefix(done[0].pid)|] == Registry.DonePrefix(done[0].pid)
  {
    if |done| == 0 then ""
    else
      var first := Registry.ReportLine(done[0], signalNumber);
      var out := first + ReportLines(done[1..], signalNumber);
      assert out[..|Registry.DonePrefix(done[0].pid)|] == first[..|Registry.DonePrefix(done[0].pid)|];
      out
  }

  /** The shell state after the poll before a prompt, and what the poll printed. */
  datatype Polled = Polled(shell: Shell, output: string)

  /**
   * The poll before each prompt, applied to the shell: the job list is
   * swept, everything else is kept, and each report of an exit goes through
   * `showStatus` with the shell's current `SIGNAL_NUMBER`.
   */
  function PollJobs(sh: Shell, observe: nat -> Registry.WaitResult): (r: Polled)
    requires |sh.jobs| > 0
    ensures r.shell == sh.(jobs := Registry.PollAll(sh.jobs, observe).jobs)
    ensures r.output == ReportLines(Registry.PollAll(sh.jobs, observe).done, sh.signalNumber)
    ensures Registry.Valid(sh.jobs) ==> Registry.Valid(r.shell.jobs)
    ensures r.output == "" <==>
              forall i :: 0 <= i < |sh.jobs| - 1 && Registry.Live(sh.jobs[i]) ==> !observe(i).Finished?
  {
    var swept := Registry.PollAll(sh.jobs, observe);
    assert |swept.done| > 0 ==>
             Registry.Reportable(sh.jobs, observe, swept.done[0].slot, |sh.jobs| - 1);
    Polled(sh.(jobs := swept.jobs), ReportLines(swept.done, sh.signalNumber))
  }

  /**
   * A poll that finds one live job exited with 100 (and every other job
   * still running) prints that job as terminated by the shell's current
   * `SIGNAL_NUMBER`.
   */
  lemma Exit100ReportsSignalNumber(sh: Shell, observe: nat -> Registry.WaitResult, i: nat)
    requires i < |sh.jobs| - 1 && Registry.Live(sh.jobs[i])
    requires observe(i) == Registry.Finished(Status.Exited(Status.SignalStatus))
    requires forall j :: j != i ==> observe(j) == Registry.StillRunning
    ensures PollJobs(sh, observe).output
            == Registry.DonePrefix(sh.jobs[i].pid) + Status.SignalPrefix + Decimal.Show(sh.signalNumber) + "\n"
  {
    var c := Registry.Completion(i, sh.jobs[i].pid, Status.Exited(Status.SignalStatus));
    Registry.SingleReport(sh.jobs, observe, i);
    ReportLinesOne(c, sh.signalNumber);
    Registry.Exit100Report(c, sh.signalNumber);
  }

  /**
   * After a foreground child dies by signal `s`, a poll that finds one live
   * background job exited with 100 (and every other job still running)
   * prints that job as terminated by signal `s`.
   */
  lemma ForegroundSignalInExit100Report(sh: Shell, s: nat, observe: nat -> Registry.WaitResult, i: nat)
    requires i < |sh.jobs| - 1 && Registry.Live(sh.jobs[i])
    requires observe(i) == Registry.Finished(Status.Exited(Status.SignalStatus))
    requires forall j :: j != i ==> observe(j) == Registry.StillRunning
    ensures PollJobs(AfterForegroundWait(sh, Status.Signaled(s)), observe).output
            == Registry.DonePrefix(sh.jobs[i].pid) + Status.SignalPrefix + Decimal.Show(s) + "\n"
  {
    Exit100ReportsSignalNumber(AfterForegroundWait(sh, Status.Signaled(s)), observe, i);
  }

  lemma ReportLinesOne(c: Registry.Completion, signalNumber: nat)
    ensures ReportLines([c], signalNumber) == Registry.ReportLine(c, signalNumber)
  {
    assert [c][1..] == [];
  }

  lemma {:induction false} ArgvIgnoresTrailingAmpersand(ts: seq<string>)
    ensures Command.Argv(ts + [Command.BackgroundOp]) == Command.Argv(ts)
  {
    if |ts| > 0 && !Command.IsOperator(ts[0]) {
      assert (ts + [Command.BackgroundOp])[1..] == ts[1..] + [Command.BackgroundOp];
      ArgvIgnoresTrailingAmpersand(ts[1..]);
    }
  }

  lemma {:induction false} FirstRedirectWithAmpersand(ts: seq<string>)
    ensures Command.FirstRedirect(ts + [Command.BackgroundOp]) ==
              if Command.FirstRedirect(ts) < |ts| then Command.FirstRedirect(ts) else |ts| + 1
  {
    if |ts| > 0 && !Command.IsRedirect(ts[0]) {
      assert (ts + [Command.BackgroundOp])[1..] == ts[1..] + [Command.BackgroundOp];
      FirstRedirectWithAmpersand(ts[1..]);
    }
  }

  lemma ArgCountIgnoresTrailingAmpersand(ts: seq<string>)
    ensures Command.ArgCount(ts + [Command.BackgroundOp]) == Command.ArgCount(ts)
  {
    var amp := ts + [Command.BackgroundOp];
    FirstRedirectWithAmpersand(ts);
    var k := Command.FirstRedirect(ts);
    if k < |ts| {
      assert amp[..k] == ts[..k];
    } else {
      assert amp[..|ts| + 1] == amp;
      assert amp[..|amp| - 1] == ts;
      assert ts[..k] == ts;
    }
  }

  lemma LastTargetIgnoresTrailingAmpersand(ts: seq<string>, op: string)
    requires op != Command.BackgroundOp
    requires |ts| > 0 ==> ts[|ts| - 1] != op
    ensures Command.LastTarget(ts + [Command.BackgroundOp], op) == Command.LastTarget(ts, op)
  {
    var amp := ts + [Command.BackgroundOp];
    if |ts| > 0 {
      assert amp[..|amp| - 1] == ts;
    }
  }

  /**
   * In foreground-only mode a trailing `&` changes nothing: the command
   * runs exactly as it would without it.
   */
  lemma ForegroundOnlyIgnoresAmpersand(ts: seq<string>, sh: Shell, child: nat, wait: Status.WaitStatus)
    requires Dispatchable(ts)
    requires |sh.jobs| > 0 && child > 0
    requires sh.foregroundOnly
    ensures Dispatchable(ts + [Command.BackgroundOp])
    ensures ExecuteOtherCommands(ts + [Command.BackgroundOp], sh, child, wait)
            == ExecuteOtherCommands(ts, sh, child, wait)
  {
    ArgvIgnoresTrailingAmpersand(ts);
    ArgCountIgnoresTrailingAmpersand(ts);
    if Command.ArgCount(ts) <= Command.MaxArguments {
      LastTargetIgnoresTrailingAmpersand(ts, Command.InputOp);
      LastTargetIgnoresTrailingAmpersand(ts, Command.OutputOp);
    }
  }

  /**
   * In normal mode a command ending in `&` leaves the status alone and adds
   * exactly one live job, with the child's pid, to a valid list.
   */
  lemma BackgroundAddsOneJob(ts: seq<string>, sh: Shell, child: nat, wait: Status.WaitStatus)
    requires Dispatchable(ts)
    requires Registry.Valid(sh.jobs) && child > 0
    requires !sh.foregroundOnly && ts[|ts| - 1] == Command.BackgroundOp
    requires Command.ArgCount(ts) <= Command.MaxArguments
    ensures var d := ExecuteOtherCommands(ts, sh, child, wait);
            && d.shell.status == sh.status
            && Registry.Valid(d.shell.jobs)
            && |d.shell.jobs| == |sh.jobs| + 1
            && d.shell.jobs[|sh.jobs| - 1] == Registry.Entry(child, false)
            && d.shell.jobs[..|sh.jobs| - 1] == sh.jobs[..|sh.jobs| - 1]
  {
  }
}
