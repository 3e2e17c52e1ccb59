# smallsh decision core in Dafny

This project models the part of `smallsh`, a small interactive Unix shell,
that decides what to do. The system calls are left out and their results
become inputs. It covers five pieces:

- **`$$` expansion.** An input line is split into tokens on `' '`. Every
  non-overlapping `$$` in a token, scanned left to right, becomes the
  shell's pid in decimal (`substituteString`, `holdUserCommand`).
- **Command analysis.** This covers the argument vector passed to
  `execvp`, which stops at the first `<`, `>` or `&` (`buildArgv`). It also
  covers the argument count with its cap of 512, the foreground/background
  decision (`executeOtherCommands`), and the scan for redirection targets.
  That scan takes the token after the last `<` or `>`. Background jobs
  fall back to `/dev/null`.
- **Exit status.** A foreground child's wait status collapses to 0, 1 or
  100, and a signal death records `SIGNAL_NUMBER`. `showStatus` then
  prints either `exit value N` or `terminated by signal N`.
- **Foreground-only mode.** The SIGTSTP handler flips a flag and writes a
  fixed notice with a fixed byte count.
- **Background-job list.** This is a list of records that ends in a
  sentinel. A background spawn fills the sentinel and appends a new one.
  The poll before each prompt reports each finished job once. The exit
  sweep kills every record that was never reported.

Modules, one per file:

| file | module | models |
|---|---|---|
| options.dfy | `Options` | the optional value used by the parsers and by dispatch |
| decimal.dfy | `Decimal` | `%d` text of pids, statuses and signal numbers |
| substitution.dfy | `Substitution` | `substituteString` and the per-token `$$` test |
| tokenize.dfy | `Tokenize` | `strtok_r` splitting and `holdUserCommand` |
| command.dfy | `Command` | `buildArgv`, the argument count, the redirection scans |
| status.dfy | `Status` | the foreground status collapse and `showStatus` |
| foreground_mode.dfy | `ForegroundMode` | `handle_SIGTSTP` |
| registry.dfy | `Registry` | `makeZombie`, the list fill in `runInBackground`, `clearZombieProcs`, the poll loop and the exit sweep in `main` |
| dispatch.dfy | `Dispatch` | `executeOtherCommands`, the parent side of `runInForeground`/`runInBackground`, and the poll before each prompt applied to the shell state |

The operating system appears only as inputs:
- the child pid that `fork` returns in the parent (a positive number);
- the status from the blocking `waitpid`, assuming the wait completes (`Status.WaitStatus`: `Exited(code)` or `Signaled(sig)`; an interrupted wait is under Left out);
- the answer of each non-blocking `waitpid` in the poll (`Registry.WaitResult`: `StillRunning` or `Finished(status)`), given per list position.

Four points of the program's behaviour are easy to misread:
- A `&` that is not the last token cuts the argument vector. `buildArgv`
  breaks at it (smallsh.c:565-566), so later tokens never reach the
  program. The argument count (smallsh.c:612-615) still includes them
  (see Findings).
- More than one `<` or `>` is accepted. Each one overwrites the target
  (smallsh.c:279-290), so the last one wins.
- Background completion reports pass the job's raw exit code to
  `showStatus` (smallsh.c:669), the same routine the `status` built-in
  uses. So a background exit code of 100 reads as a signal death
  (see Findings).
- `handle_SIGINT` is installed only in the foreground child
  (smallsh.c:311-314), where `execvp` resets it. The shell itself ignores
  SIGINT (smallsh.c:700-702). This is signal setup and is not modelled.

## Model

| member | source | states |
|---|---|---|
| Decimal.Show | smallsh.c:139-141 | the pid text from `sprintf("%d")` is non-empty, all digits, and has no leading zero |
| Decimal.ParseShow | smallsh.c:139-141 | reading the printed decimal text back gives the number |
| Decimal.ShowInjective | smallsh.c:139-141 | two different numbers never print the same text |
| Decimal.ShowParse | smallsh.c:141 | digits with no leading zero (the only form `%d` writes) are exactly the printed text of their value, so a line whose canonical digits read back as n is the line `%d` prints for n |
| Decimal.ShowLength | smallsh.c:140-141 | a number below 10^k prints in at most k digits |
| Decimal.PidFitsBuffer | smallsh.c:140-141 | every pid below 10^9 fits the ten-byte buffer with its NUL |
| Substitution.ReplaceLength | smallsh.c:56-69 | the replacement's length is the input length plus count × (replacement length − word length), which is the size allocated at line 56 minus the NUL |
| Substitution.CopyPass | smallsh.c:58-69 | the copying loop, which emits the new word at each match and otherwise copies one character, builds exactly the left-to-right replacement |
| Substitution.CopyStep | smallsh.c:59-68 | each step of the copying loop keeps the emitted prefix followed by the replacement of the rest equal to the whole replacement |
| Substitution.CountOccurrences | smallsh.c:45-53 | the counting loop ends at the end of the string with the number of non-overlapping occurrences |
| Substitution.SubstituteString | smallsh.c:38-71 | the result is the left-to-right replacement, and the buffer sized by the counting pass holds it exactly, with one byte left for the NUL |
| Substitution.AbsentUnchanged | smallsh.c:58-69 | a string with no occurrence comes back unchanged |
| Substitution.CountZeroIffAbsent | smallsh.c:45-53 | the count is zero exactly when the word does not occur |
| Substitution.MarkerIffDoubleDollar | smallsh.c:134 | `strstr(token, "$$")` finds a match exactly when two adjacent `$` appear |
| Substitution.NoDoubleDollarAfterReplace | smallsh.c:58-69 | replacing `$$` by text free of `$` leaves no two adjacent `$` |
| Substitution.NoMarkerLeft | smallsh.c:58-69 | after expansion with `$`-free text, no `$$` remains |
| Substitution.ExpansionIdempotent | smallsh.c:58-69 | expanding an already expanded token again changes nothing |
| Substitution.LeftToRight | smallsh.c:58-69 | matches are taken leftmost first without overlap: `$$$` becomes pid + `$`, `$$$$` becomes two pids |
| Substitution.ExpandToken | smallsh.c:132-159 | a token is expanded only when it contains `$$`, yet it always equals the uniform replacement, and the stored token holds no `$$` |
| Tokenize.WordLen | smallsh.c:122 | the first token runs up to, not including, the first space or the end |
| Tokenize.Tokens | smallsh.c:122-167 | every token is non-empty and contains no space |
| Tokenize.TokensOfWord | smallsh.c:122 | a line holding one word, with no space in it, is that single token |
| Tokenize.TokensSplitAtSpace | smallsh.c:122-167 | a space always separates: the tokens of `a` + space + `b` are the tokens of `a` followed by those of `b`, so repeated, leading and trailing spaces produce no empty token and tokens are the maximal non-space runs |
| Tokenize.TokensOfJoin | smallsh.c:122-167 | splitting tokens joined by single spaces gives the same tokens back, in order |
| Tokenize.TokensKeepNonSpaces | smallsh.c:122-167 | the tokens, concatenated, are the line with its spaces removed |
| Tokenize.NoTokensIffBlank | smallsh.c:128-173 | a line gives no token exactly when it is all spaces, the case where the head node's value is never set |
| Tokenize.HoldUserCommand | smallsh.c:111-174 | the command list has one entry per token, in order, each the token with `$$` expanded; tokens without `$$` are copied as they are, and no entry holds `$$` |
| Command.Argv | smallsh.c:550-580 | argv is the longest prefix of the tokens containing no `<`, `>` or `&` |
| Command.FirstRedirect | smallsh.c:604-610 | the position of the first `<` or `>`, or the token count when there is none |
| Command.CountArguments | smallsh.c:596-620 | the counting loop counts non-`&` tokens before the first redirection and ends with the last token as `tail` |
| Command.ArgCountSplit | smallsh.c:604-620 | the count is argv's length plus the non-`&` tokens between argv's end and the first redirection |
| Command.ArgvFitsArray | smallsh.c:630-633 | `buildArgv` never writes past the count, so the closing NULL is never overwritten |
| Command.ArgvDefinedIff | smallsh.c:630-633 | every counted slot is written exactly when only `&` tokens lie between argv's end and the first redirection |
| Command.FinalAmpersandDefined | smallsh.c:630-636 | a command whose only `&` is its last token fills every slot |
| Command.ArgvSlots | smallsh.c:630-633 | the array as left: count + 1 slots, NULL at index count, the arguments in front |
| Command.ExecVector | smallsh.c:630-633 | the array sized by the collected arguments is a well-formed NULL-terminated vector of argv |
| Command.SlotsWellFormedIff | smallsh.c:630-633 | the array as left is well formed, and equals the corrected vector, exactly when every counted slot is written |
| Command.UnsetSlotExample | smallsh.c:604-633 | for `echo a & b` the count is 3 but slot 2 is never written |
| Command.LastOpIndex | smallsh.c:276-294 | the last position of the operator that has a token after it, with no later one |
| Command.LastTarget | smallsh.c:276-294 | the target is the terminal exactly when no operator has a token after it; otherwise it is the token after the last operator |
| Command.LastTargetStep | smallsh.c:279-290 | one scan step either takes the token after the operator or keeps the earlier target |
| Command.ScanRedirections | smallsh.c:417-434 | the scan over all tokens yields the input and output targets named by the last `<` and the last `>` |
| Command.BackgroundDefault | smallsh.c:471-532 | a background stream is the named file when there is one and `/dev/null` otherwise |
| Status.ForegroundStatus | smallsh.c:370-389 | the status is 0, 1 or 100; 0 exactly for a zero exit, 100 exactly for a signal death |
| Status.RecordSignal | smallsh.c:383-385 | a normal exit leaves `SIGNAL_NUMBER` unchanged; a signal death sets it to that signal |
| Status.ReadRender | smallsh.c:181-186 | every printed status line reads back as the phrase and number it was printed from |
| Status.RenderInjective | smallsh.c:181-186 | no two phrases print the same line |
| Status.ReadNumberLineExact | smallsh.c:181-186 | a line that reads back as a number is exactly the prefix, `%d` of that number, and a newline |
| Status.ReadPhraseExact | smallsh.c:181-186 | a line that reads back as a phrase is, character for character, the line printed for that phrase, so every read-back contract fixes the exact text |
| Status.ShowStatus | smallsh.c:177-188 | status 100 prints as `terminated by signal` with the signal number; any other status prints as `exit value` with that status; with `ReadPhraseExact` the text is exactly what `printf("%d")` writes |
| Status.StatusAfterForeground | smallsh.c:370-389 | after a foreground child, `status` prints `exit value 0` for a zero exit, `exit value 1` for any other exit, and the signal number for a signal death |
| ForegroundMode.HandleSigtstp | smallsh.c:85-100 | the flag is inverted, and the bytes written are the whole entering or exiting notice, since each count equals its notice's length |
| ForegroundMode.FlipTwice | smallsh.c:85-100 | two flips restore the flag; from normal mode they write the entering notice, then the exiting one |
| Registry.StartedNotice | smallsh.c:545 | the start notice is `background pid is `, the pid as `%d` digits with no leading zero, and a newline, and the pid reads back from it; with `Decimal.ShowParse` this is the exact text |
| Registry.Register | smallsh.c:540-546 | the tail record takes the pid and one fresh sentinel is appended; earlier records are untouched and a valid list stays valid |
| Registry.ClearZombie | smallsh.c:649-667 | the pid is kept; the record becomes reported exactly when it was live and its job had finished |
| Registry.PollStepMatches | smallsh.c:714-718 | polling one more record keeps the reports in list order and complete |
| Registry.PollUpTo | smallsh.c:714-718 | polling the first n records marks and reports exactly the live finished ones among them, in order |
| Registry.PollAll | smallsh.c:711-718 | the poll before the prompt covers every record but the tail and reports exactly the live finished jobs, each with its pid and status; it keeps the list valid |
| Registry.NoReportTwice | smallsh.c:649-667 | a record reported by one poll is not reported by the next |
| Registry.StepFacts | smallsh.c:540-546 | a spawn or a poll keeps every reported mark and reports only unmarked records, each once |
| Registry.AppendDistinct | smallsh.c:711-718 | reports of consecutive polls never name the same record |
| Registry.AppendMarked | smallsh.c:711-718 | every report of consecutive polls names a marked record |
| Registry.ReportedAtMostOnce | smallsh.c:649-677 | over any run of spawns and polls, every reported record stays marked and no record is reported twice |
| Registry.KillUpTo | smallsh.c:765-774 | the sweep over the first n records signals exactly the pids of the unreported ones |
| Registry.Shutdown | smallsh.c:762-774 | the exit sweep kills exactly the unreported non-tail records, and in a valid list never pid 0 |
| Registry.ReportLine | smallsh.c:662-676 | the report begins `background pid N is done: `; the rest is the exact line of a phrase (by `ReadPhraseExact`): a signal death names the job's signal, an exit names its code, and exit code 100 reads as the last foreground signal |
| Registry.IntendedReportLine | smallsh.c:664-675 | the corrected report is the prefix followed by the exact line of the job's own exit code or signal, in every case |
| Registry.ReportDiffersOnlyFor100 | smallsh.c:668-669 | the printed report differs from the corrected one exactly when the job exited with code 100 |
| Registry.Exit100Example | smallsh.c:668-669 | a job exiting with 100, after a foreground death by signal 2, is reported as `terminated by signal 2` |
| Dispatch.StartBackground | smallsh.c:395-546 | the background child gets argv; each stream is the file after the last `<` or `>`, or `/dev/null` when there is none; the job list is the spawn of `Registry.Register`, growing by one unreported record holding the child's pid with earlier records untouched and validity kept; status and signal number are kept; the notice names the pid |
| Dispatch.RunForeground | smallsh.c:252-392 | the foreground child gets argv, with each stream the file after the last `<` or `>` or else the terminal. Only the status and the signal number change: the status is the collapse of the wait status, a normal exit leaves `SIGNAL_NUMBER` as it was, and a signal death sets it to that signal. The parent prints a notice exactly for a signal death, and `status` afterwards prints the child's fate |
| Dispatch.AfterForegroundWait | smallsh.c:371-389 | the shell once the blocking wait returns: only the status and the signal number change; the status is the collapse of the wait status, a normal exit keeps `SIGNAL_NUMBER`, a signal death sets it to that signal. `RunForeground` leaves the shell in exactly this state |
| Dispatch.StartValid | smallsh.c:685-691 | the start-up state is normal mode, status 0 and a job list holding only the sentinel, which is valid and not live |
| Dispatch.ReportLines | smallsh.c:662-676 | the poll's output is empty exactly when there is no report; otherwise it opens with `background pid N is done: ` for the first report |
| Dispatch.PollJobs | smallsh.c:711-718 | the poll before the prompt, applied to the shell: only the job list changes, it stays valid, and the output is the report of each completion in list order with the shell's current `SIGNAL_NUMBER` as the number `showStatus` prints for exit 100; nothing is printed exactly when no live job has finished |
| Dispatch.Exit100ReportsSignalNumber | smallsh.c:180-181 | for any job list, a poll that finds one live job exited with 100 (and no other finished) prints `background pid N is done: terminated by signal S`, where S is the shell's `SIGNAL_NUMBER` at that moment |
| Dispatch.ForegroundSignalInExit100Report | smallsh.c:668-669 | once a foreground wait has recorded a death by signal `s` (`AfterForegroundWait`, the shell `RunForeground` leaves, which sets `SIGNAL_NUMBER` as line 385 does), the next poll that finds one live job exited with 100 (and no other finished) prints `background pid N is done: terminated by signal s` |
| Registry.SingleReport | smallsh.c:714-718 | a poll in which only one live record's job has finished reports that record alone, with its pid and status |
| Dispatch.ExecuteOtherCommands | smallsh.c:583-646 | over 512 arguments: the notice, nothing started, the state unchanged. Otherwise a child is always started, in the background exactly when the last token is `&` and foreground-only mode is off; the mode never changes |
| Dispatch.ArgvIgnoresTrailingAmpersand | smallsh.c:562-567 | appending `&` does not change argv |
| Dispatch.FirstRedirectWithAmpersand | smallsh.c:604-610 | appending `&` does not move the first redirection |
| Dispatch.ArgCountIgnoresTrailingAmpersand | smallsh.c:612-615 | appending `&` does not change the argument count |
| Dispatch.LastTargetIgnoresTrailingAmpersand | smallsh.c:276-294 | appending `&` does not change the redirection targets |
| Dispatch.ForegroundOnlyIgnoresAmpersand | smallsh.c:636-644 | in foreground-only mode, a command with a trailing `&` is dispatched exactly as the command without it |
| Dispatch.BackgroundAddsOneJob | smallsh.c:636-642 | in normal mode, a command ending in `&` keeps the status and adds one live job with the child's pid to a valid list |

## Left out

- `fork`, `execvp`, `dup2`, `open`, `waitpid`, `kill` and `sigaction` are operating-system effects. Their results are inputs and their side effects are not modelled.
- The child's exit codes 2 and 1 after a failed redirection or `execvp`, and the messages it prints then, are not modelled. They happen inside the child process, and the parent sees them only through the wait-status input.
- The shell's fatal exit when `fork` fails is not modelled. Dispatch takes a successful child pid.
- Signal delivery, the signal masks, and `handle_SIGINT` are not modelled. These are asynchronous. `handle_SIGINT` is installed only in the child, where `execvp` resets it. The `fflush` calls inside handlers are also left out.
- `malloc`/`calloc`/`free` and the leaked strings are not modelled. The linked lists are sequences. The sentinel's unset `value` and `next` are replaced by the sequence's end.
- The undefined cases are excluded by preconditions. `Dispatch.Dispatchable` excludes an empty token list, which only a line of nothing but spaces produces (`Tokenize.NoTokensIffBlank`). It also excludes `<` or `>` as the last token, and argv slots left unset. The non-blocking `waitpid` failing with -1 and an unset status cannot be expressed by `Registry.WaitResult`.
- `main`'s prompt, `fgets`, the 2048-character limit, the comment/blank-line filter and the `exit` test are terminal I/O and are not modelled. The `cd` and `status` built-ins, `changeDirectory`, `chdir`, `getcwd` and `getenv` are also left out.
- An interrupted foreground wait is not modelled, because `Status.WaitStatus` has only `Exited` and `Signaled`. The SIGTSTP handler is installed without `SA_RESTART` (smallsh.c:705-710). A Ctrl-Z during a foreground wait can therefore make `waitpid` (smallsh.c:368) return -1. `childStatus` is then classified while unset (smallsh.c:371-389), and the child is never reaped. The model treats every blocking wait as returning the child's real exit or signal.
- Pids are unbounded naturals. `int` overflow is not modelled. The ten-byte pid buffer is covered by `Decimal.PidFitsBuffer` only for pids below 10^9.
- Registry.Shutdown: states which pids are killed, not the order of the `kill` calls or how often a reused pid is hit.

## Findings

| source | as written | input that shows it | evidently intended | confidence | as-written member | corrected member |
|---|---|---|---|---|---|---|
| smallsh.c:604-633 | the argv array is sized by a count that includes non-`&` tokens after a non-final `&`, but `buildArgv` stops at that `&`, so slots before the NULL are never written | `echo a & b`: count 3, two arguments written, slot 2 unset when `execvp` reads it | a NULL-terminated vector holding exactly the collected arguments | not executed; medium | Command.UnsetSlotExample | Command.ExecVector |
| smallsh.c:668-669 | a background job's raw exit code goes to `showStatus`, which treats 100 as "killed by a signal" | a background job that exits with 100 after a foreground child died by signal 2 is reported as `terminated by signal 2` | `exit value 100` | not executed; high | Registry.Exit100Example | Registry.IntendedReportLine |

For the first row, `Command.SlotsWellFormedIff` proves that the array as
left equals `Command.ExecVector` exactly on the commands where every slot
is written. Dispatch passes `Command.Argv`, which is what `ExecVector`
holds, and it excludes the other commands by precondition.

For the second row, the model keeps the printed wording
(`Registry.ReportLine`), because that is what the shell shows. The
corrected wording is `Registry.IntendedReportLine`.
`Registry.ReportDiffersOnlyFor100` proves the two differ exactly for exit
code 100. `Dispatch.PollJobs` prints with the shell's own `SIGNAL_NUMBER`,
and `Dispatch.ForegroundSignalInExit100Report` follows the quirk from a
foreground signal death through to the next poll's output.
