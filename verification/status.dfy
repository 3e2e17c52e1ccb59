/**
 * Exit-status bookkeeping: how a foreground child's wait status collapses
 * to the shell's status value, the signal number kept beside it, and the
 * phrasing of `showStatus`.
 */
module Status {
  import Decimal
  import opened Options

  /** How a child ended, as `waitpid` reports it. */
  datatype WaitStatus = Exited(code: nat) | Signaled(signal: nat)

  /** The status value that stands for "killed by a signal". */
  const SignalStatus := 100

  /**
   * The shell's status after a foreground child: 0 for a zero exit, 1 for
   * any other exit, 100 for death by a signal.
   */
  function ForegroundStatus(w: WaitStatus): (status: nat)
    ensures status == 0 || status == 1 || status == SignalStatus
    ensures status == 0 <==> w == Exited(0)
    ensures status == SignalStatus <==> w.Signaled?
  {
    match w
    case Exited(code) => if code != 0 then 1 else 0
    case Signaled(_) => SignalStatus
  }

  /** `SIGNAL_NUMBER` after a foreground wait: set only by a signal death. */
  function RecordSignal(w: WaitStatus, previous: nat): (n: nat)
    ensures w.Exited? ==> n == previous
    ensures w.Signaled? ==> n == w.signal
  {
    match w
    case Exited(_) => previous
    case Signaled(sig) => sig
  }

  /** The two phrasings a status line can take. */
  datatype Phrase = ExitValue(value: nat) | TerminatedBy(signal: nat)

  const ExitPrefix := "exit value "
  const SignalPrefix := "terminated by signal "

  /** The printed line of a phrase. */
  function Render(p: Phrase): string {
    match p
    case ExitValue(n) => ExitPrefix + Decimal.Show(n) + "\n"
    case TerminatedBy(n) => SignalPrefix + Decimal.Show(n) + "\n"
  }

  /** The number in a line made of `prefix`, `%d` digits and a newline. */
  function ReadNumberLine(line: string, prefix: string): Option<nat> {
    if |line| >= |prefix| + 2 && line[..|prefix|] == prefix && line[|line| - 1] == '\n'
       && Decimal.Canonical(line[|prefix|..|line| - 1])
    then Some(Decimal.Parse(line[|prefix|..|line| - 1]))
    else None
  }

  /** Reads a status line back into its phrase. */
  function ReadPhrase(line: string): Option<Phrase> {
    match ReadNumberLine(line, ExitPrefix)
    case Some(n) => Some(ExitValue(n))
    case None =>
      match ReadNumberLine(line, SignalPrefix)
      case Some(n) => Some(TerminatedBy(n))
      case None => None
  }

  lemma ReadNumberLineOf(prefix: string, n: nat)
    ensures ReadNumberLine(prefix + Decimal.Show(n) + "\n", prefix) == Some(n)
  {
    var line := prefix + Decimal.Show(n) + "\n";
    assert line[..|prefix|] == prefix;
    assert line[|prefix|..|line| - 1] == Decimal.Show(n);
    Decimal.ParseShow(n);
  }

  /** Every printed status line reads back as the phrase it was printed from. */
  lemma ReadRender(p: Phrase)
    ensures ReadPhrase(Render(p)) == Some(p)
  {
    match p
    case ExitValue(n) =>
      ReadNumberLineOf(ExitPrefix, n);
    case TerminatedBy(n) =>
      var line := Render(p);
      assert line[0] == 't';
      assert ReadNumberLine(line, ExitPrefix) == None;
      ReadNumberLineOf(SignalPrefix, n);
  }

  /** A line that reads back as a number is exactly the printed line of that number. */
  lemma ReadNumberLineExact(line: string, prefix: string)
    requires ReadNumberLine(line, prefix).Some?
    ensures line == prefix + Decimal.Show(ReadNumberLine(line, prefix).value) + "\n"
  {
    var digits := line[|prefix|..|line| - 1];
    Decimal.ShowParse(digits);
    assert line == line[..|prefix|] + digits + [line[|line| - 1]];
  }

  /**
   * Reading back pins the text: a line that reads as phrase `p` is the
   * printed line of `p`, character for character.
   */
  lemma ReadPhraseExact(line: string, p: Phrase)
    requires ReadPhrase(line) == Some(p)
    ensures line == Render(p)
  {
    if ReadNumberLine(line, ExitPrefix).Some? {
      ReadNumberLineExact(line, ExitPrefix);
    } else {
      ReadNumberLineExact(line, SignalPrefix);
    }
  }

  /** Different phrases never print the same line. */
  lemma RenderInjective(p: Phrase, q: Phrase)
    requires Render(p) == Render(q)
    ensures p == q
  {
    ReadRender(p);
    ReadRender(q);
  }

  /**
   * The `status` built-in: status 100 prints the last foreground signal,
   * any other status prints itself as an exit value.
   */
  function ShowStatus(status: nat, signalNumber: nat): (line: string)
    ensures status != SignalStatus ==> ReadPhrase(line) == Some(ExitValue(status))
    ensures status == SignalStatus ==> ReadPhrase(line) == Some(TerminatedBy(signalNumber))
  {
    var p := if status == SignalStatus then TerminatedBy(signalNumber) else ExitValue(status);
    ReadRender(p);
    Render(p)
  }

  /**
   * After a foreground child, `status` reports a zero exit as 0, any other
   * exit as 1, and a signal death by that signal's number.
   */
  lemma StatusAfterForeground(w: WaitStatus, previous: nat)
    ensures w == Exited(0) ==>
              ShowStatus(ForegroundStatus(w), RecordSignal(w, previous)) == "exit value 0\n"
    ensures w.Exited? && w.code != 0 ==>
              ShowStatus(ForegroundStatus(w), RecordSignal(w, previous)) == "exit value 1\n"
    ensures w.Signaled? ==>
              ShowStatus(ForegroundStatus(w), RecordSignal(w, previous)) == SignalPrefix + Decimal.Show(w.signal) + "\n"
  {
    assert Decimal.Show(0) == "0";
    assert Decimal.Show(1) == "1";
  }
}
