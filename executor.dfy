/** The pipeline executor: `executecommands` walks the stages of a parsed
    line, creates a pipe between each pair of neighbouring stages, hands
    each stage its input and output descriptor through `executeCommand`,
    and closes in the parent the pipe ends the children now own.
    `executeCommand` prepares the stage text, forks, and records the stage
    in the history according to the recording policy.

    The system calls are opaque here: what `pipe`, `fork`, `waitpid` and
    `time` return for a stage is given as a `StageRun`. */
module Executor {
  import opened History
  import opened StageText
  import opened Tokenizer

  /** A descriptor in the parent. `ReadEnd(k)` and `WriteEnd(k)` are the
      two ends of the pipe created for stage k, fresh by construction;
      `Unset` is the value of the never-assigned `fd[0]`. */
  datatype Fd = Stdin | Stdout | ReadEnd(pipe: nat) | WriteEnd(pipe: nat) | Unset

  /** What `waitpid` reports about a foreground child. */
  datatype ChildStatus = Exited(code: int) | Signalled(signal: int)

  /** The result of `fork` for one stage; the status is only observed for
      a foreground stage. */
  datatype ForkResult = ForkFailed | Forked(pid: int, status: ChildStatus)

  /** The opaque outcomes of one stage's system calls: whether `pipe`
      succeeded (asked only when a stage follows), the `fork` result, and
      the clock read before `fork` and after `waitpid` (foreground) or
      right after `fork` (background). */
  datatype StageRun = StageRun(pipeOk: bool, fork: ForkResult, startClock: int, endClock: int)

  /** A launched child: its pid, the NULL-terminated argument vector it
      passes to `execvp`, its background flag and its wiring. */
  datatype Launch = Launch(pid: int, argv: seq<Slot>, background: bool, input: Fd, output: Fd)

  /** The argument vector the child of a stage passes to `execvp`: the
      stage text cut at '&', trimmed, and split by `makecmd`. */
  function StageArgv(command: string): seq<Slot>
  {
    ArgvSlots(Split(TrimTrailing(BeforeAmpersand(command)), Blanks))
  }

  /** The descriptor stage `i` reads from. */
  function StageInput(i: nat): Fd
  {
    if i == 0 then Stdin else ReadEnd(i - 1)
  }

  /** The descriptor stage `i` of `n` writes to. */
  function StageOutput(i: nat, n: nat): Fd
  {
    if i + 1 < n then WriteEnd(i) else Stdout
  }

  /** The pipe ends the parent holds once stage `i` of `n` is launched:
      only the read end feeding the next stage. */
  function HeldAfter(i: nat, n: nat): set<Fd>
  {
    if i + 1 < n then {ReadEnd(i)} else {}
  }

  /** The parent's descriptor state in `executecommands`: `inputfd`, the
      two slots of `fd`, and the pipe ends it holds open. */
  datatype FdState = FdState(inputfd: Fd, fdRead: Fd, fdWrite: Fd, held: set<Fd>)

  /** Before stage `i` of `n`: `pipe(fd)` when a stage follows (the new
      pipe's two ends are now held), else `fd[1] = STDOUT_FILENO`. */
  function OpenStage(s: FdState, i: nat, n: nat): FdState
  {
    if i + 1 < n then FdState(s.inputfd, ReadEnd(i), WriteEnd(i), s.held + {ReadEnd(i), WriteEnd(i)})
    else s.(fdWrite := Stdout)
  }

  /** What the parent closes once stage `i` is launched: the write end it
      just handed out, and the previous read end unless it is stdin. */
  function Closed(s: FdState, i: nat, n: nat): set<Fd>
  {
    (if i + 1 < n then {s.fdWrite} else {}) + (if s.inputfd != Stdin then {s.inputfd} else {})
  }

  /** After stage `i`: the closes, then `inputfd = fd[0]`. */
  function CloseStage(s: FdState, i: nat, n: nat): FdState
  {
    FdState(s.fdRead, s.fdRead, s.fdWrite, s.held - Closed(s, i, n))
  }

  /** The parent is ready for stage `i`: the stage's input is `inputfd`
      and the only pipe end held is the one feeding it. */
  predicate Ready(s: FdState, i: nat, n: nat)
  {
    (i < n ==> s.inputfd == StageInput(i)) && s.held == (if i == 0 then {} else HeldAfter(i - 1, n))
  }

  /** One stage of the descriptor loop: the child gets the wiring of its
      position, the parent closes only descriptors it holds, and then
      keeps at most the read end for the next stage. */
  lemma StageStep(s: FdState, i: nat, n: nat)
    requires i < n && Ready(s, i, n)
    ensures OpenStage(s, i, n).inputfd == StageInput(i)
    ensures OpenStage(s, i, n).fdWrite == StageOutput(i, n)
    ensures Closed(OpenStage(s, i, n), i, n) <= OpenStage(s, i, n).held
    ensures CloseStage(OpenStage(s, i, n), i, n).held == HeldAfter(i, n)
    ensures Ready(CloseStage(OpenStage(s, i, n), i, n), i + 1, n)
  {
    var o := OpenStage(s, i, n);
    if i > 0 {
      assert o.inputfd == ReadEnd(i - 1) && ReadEnd(i - 1) in o.held;
    }
    if i + 1 < n {
      assert o.held == s.held + {ReadEnd(i), WriteEnd(i)};
      assert CloseStage(o, i, n).held == {ReadEnd(i)};
    } else {
      assert CloseStage(o, i, n).held == {};
    }
  }

  /** Neighbouring stages are joined by the two ends of one pipe, and no
      pipe end is handed to two stages. */
  lemma WiringIsAPipeline(n: nat)
    ensures forall i :: 0 <= i && i + 1 < n ==>
      StageOutput(i, n) == WriteEnd(i) && StageInput(i + 1) == ReadEnd(i)
    ensures forall i, j :: 0 <= i < j < n ==> StageInput(i) != StageInput(j)
    ensures forall i, j :: 0 <= i < j < n ==> StageOutput(i, n) != StageOutput(j, n) || StageOutput(i, n) == Stdout
    ensures n > 0 ==> StageInput(0) == Stdin && StageOutput(n - 1, n) == Stdout
  {
  }

  /** The recording policy: a foreground stage is recorded only when the
      child exited normally with status 0; a background stage always. */
  predicate Qualifies(command: string, run: StageRun)
  {
    run.fork.Forked? && ('&' in command || run.fork.status == Exited(0))
  }

  /** The history record of a launched stage: the original stage text,
      before the '&' cut and the trim. */
  function EntryOf(command: string, run: StageRun): Entry
    requires run.fork.Forked?
  {
    Entry(command, run.fork.pid, run.startClock, run.endClock)
  }

  /** What one stage adds to the history: nothing or one record. */
  function StageRecord(command: string, run: StageRun): (r: seq<Entry>)
    ensures |r| <= 1
    ensures |r| == 1 <==> Qualifies(command, run)
  {
    if Qualifies(command, run) then [EntryOf(command, run)] else []
  }

  /** What the first `k` stages add to the history, in stage order. */
  function PipelineRecords(commands: seq<string>, runs: seq<StageRun>, k: nat): (r: seq<Entry>)
    requires k <= |commands| == |runs|
    ensures |r| <= k
  {
    if k == 0 then []
    else PipelineRecords(commands, runs, k - 1) + StageRecord(commands[k - 1], runs[k - 1])
  }

  /** The records of a pipeline are exactly the records of its qualifying
      stages: one per stage, never one for a stage that does not qualify. */
  lemma {:induction false} PipelineRecordsExactly(commands: seq<string>, runs: seq<StageRun>, k: nat, e: Entry)
    requires k <= |commands| == |runs|
    ensures e in PipelineRecords(commands, runs, k) <==>
      exists i :: 0 <= i < k && Qualifies(commands[i], runs[i]) && e == EntryOf(commands[i], runs[i])
  {
    if k > 0 {
      PipelineRecordsExactly(commands, runs, k - 1, e);
    }
  }

  /** Recording one more stage extends the pipeline's effect on the
      history by that stage's record. */
  lemma PipelineRecordsStep(h: seq<Entry>, commands: seq<string>, runs: seq<StageRun>, k: nat,
                            before: seq<Entry>, after: seq<Entry>)
    requires |h| <= MaxHistory && k < |commands| == |runs|
    requires before == AppendAll(h, PipelineRecords(commands, runs, k))
    requires after == AppendAll(before, StageRecord(commands[k], runs[k]))
    ensures after == AppendAll(h, PipelineRecords(commands, runs, k + 1))
  {
    AppendAllConcat(h, PipelineRecords(commands, runs, k), StageRecord(commands[k], runs[k]));
  }

  /** A pipeline none of whose stages qualifies leaves the history as it
      was: failed foreground commands are not recorded. */
  lemma {:induction false} NoQualifyingStageNoRecord(commands: seq<string>, runs: seq<StageRun>, k: nat)
    requires k <= |commands| == |runs|
    requires forall i :: 0 <= i < k ==> !Qualifies(commands[i], runs[i])
    ensures PipelineRecords(commands, runs, k) == []
  {
    if k > 0 {
      NoQualifyingStageNoRecord(commands, runs, k - 1);
    }
  }

  /** Every stage is recorded on its own: a two-stage foreground pipeline
      whose stages both exit with status 0 adds two records, each with
      its own stage text, in stage order. */
  lemma TwoSuccessfulStagesTwoRecords(commands: seq<string>, runs: seq<StageRun>)
    requires |commands| == |runs| == 2
    requires forall i :: 0 <= i < 2 ==> '&' !in commands[i] && runs[i].fork.Forked? && runs[i].fork.status == Exited(0)
    ensures PipelineRecords(commands, runs, 2) == [EntryOf(commands[0], runs[0]), EntryOf(commands[1], runs[1])]
  {
    assert PipelineRecords(commands, runs, 1) == [EntryOf(commands[0], runs[0])];
  }

  /** A background stage is recorded once, at launch, whatever the child
      does: its record holds the uncut stage text, the clock read before
      `fork` and the clock read after it, so on a clock that does not run
      backwards its end time is not before its start time. */
  lemma BackgroundStageRecorded(command: string, run: StageRun)
    requires '&' in command && run.fork.Forked?
    requires run.startClock <= run.endClock
    ensures |StageRecord(command, run)| == 1
    ensures StageRecord(command, run)[0] == Entry(command, run.fork.pid, run.startClock, run.endClock)
    ensures StageRecord(command, run)[0].endTime >= StageRecord(command, run)[0].startTime
  {
  }

  /** A stage whose launch failed: `pipe` failed with a stage still to
      come, or `fork` failed; the real shell exits at that point. */
  predicate LaunchFails(commands: seq<string>, runs: seq<StageRun>, i: nat)
    requires i < |commands| == |runs|
  {
    (i + 1 < |commands| && !runs[i].pipeOk) || runs[i].fork.ForkFailed?
  }

  /** Launch `l` is stage `i` of `n`: the child forked for `command`
      with the wiring of its position. */
  predicate Wired(l: Launch, command: string, run: StageRun, i: nat, n: nat)
  {
    run.fork.Forked? && l == Launch(run.fork.pid, StageArgv(command), '&' in command, StageInput(i), StageOutput(i, n))
  }

  /** `executeCommand(command, inputfd, outputfd)`: prepare the stage
      text, fork, and record the stage under the policy. Returns whether
      a child was launched and, if so, what it runs and how it is wired. */
  method ExecuteCommand(h: HistoryStore, command: string, input: Fd, output: Fd, run: StageRun)
    returns (launched: bool, launch: Launch)
    requires h.Valid()
    modifies h, h.entries
    ensures h.Valid()
    ensures launched <==> run.fork.Forked?
    ensures launched ==> launch == Launch(run.fork.pid, StageArgv(command), '&' in command, input, output)
    ensures h.Contents() == AppendAll(old(h.Contents()), StageRecord(command, run))
  {
    var text, background := PrepareStage(command);
    launch := Launch(0, [], false, input, output);
    match run.fork {
      case ForkFailed =>
        launched := false;
      case Forked(pid, status) =>
        launched := true;
        // the child splits the stage into its argument vector and execs it
        var argv, argc := MakeCmd(text);
        launch := Launch(pid, argv[..argc + 1], background, input, output);
        if !background {
          if status == Exited(0) {
            h.Add(command, pid, run.startClock, run.endClock);
          }
        } else {
          h.Add(command, pid, run.startClock, run.endClock);
        }
    }
  }

  /** The launches so far are those of the first stages, in order:
      each of those stages launched and got the wiring of its position. */
  predicate Launched(commands: seq<string>, runs: seq<StageRun>, launches: seq<Launch>)
  {
    |launches| <= |commands| == |runs| &&
    forall j {:trigger launches[j]} :: 0 <= j < |launches| ==>
      !LaunchFails(commands, runs, j) && Wired(launches[j], commands[j], runs[j], j, |commands|)
  }

  /** A launch of the next stage, with its wiring, extends the launches. */
  lemma LaunchedExtend(commands: seq<string>, runs: seq<StageRun>, launches: seq<Launch>, l: Launch)
    requires Launched(commands, runs, launches) && |launches| < |commands|
    requires !LaunchFails(commands, runs, |launches|)
    requires Wired(l, commands[|launches|], runs[|launches|], |launches|, |commands|)
    ensures Launched(commands, runs, launches + [l])
  {
    var extended := launches + [l];
    forall j | 0 <= j < |extended|
      ensures !LaunchFails(commands, runs, j) && Wired(extended[j], commands[j], runs[j], j, |commands|)
    {
      if j < |launches| {
        assert extended[j] == launches[j];
      }
    }
  }

  /** One iteration of the descriptor loop, for the stage after the ones
      in `launches`: `pipe` when a stage follows, then the stage itself,
      then the parent's closes. `ok` is false when `pipe` or `fork` failed. */
  method RunStage(h: HistoryStore, commands: seq<string>, runs: seq<StageRun>, fds: FdState,
                  launches: seq<Launch>)
    returns (ok: bool, next: FdState, extended: seq<Launch>)
    requires h.Valid()
    requires Launched(commands, runs, launches) && |launches| < |commands|
    requires Ready(fds, |launches|, |commands|)
    modifies h, h.entries
    ensures h.Valid()
    ensures ok <==> !LaunchFails(commands, runs, |launches|)
    ensures !ok ==> h.Contents() == old(h.Contents())
    ensures ok ==> |extended| == |launches| + 1 && Launched(commands, runs, extended)
    ensures ok ==> Ready(next, |extended|, |commands|)
    ensures ok ==> h.Contents() == AppendAll(old(h.Contents()), StageRecord(commands[|launches|], runs[|launches|]))
  {
    var n, i := |commands|, |launches|;
    next, extended := fds, launches;
    if i + 1 < n && !runs[i].pipeOk {
      return false, next, extended;
    }
    StageStep(fds, i, n);
    var ready := OpenStage(fds, i, n);
    var launched, launch := ExecuteCommand(h, commands[i], ready.inputfd, ready.fdWrite, runs[i]);
    ok := launched;
    if ok {
      next := CloseStage(ready, i, n);
      assert Wired(launch, commands[i], runs[i], i, n);
      LaunchedExtend(commands, runs, launches, launch);
      extended := launches + [launch];
    }
  }

  /** `executecommands(commands)`: launch every stage in order with its
      pipe wiring. `held` is the set of pipe ends the parent still holds
      at the end: none after a complete run. A failed `pipe` or `fork` ends the
      shell there (`aborted`). */
  method ExecuteCommands(h: HistoryStore, commands: seq<string>, runs: seq<StageRun>)
    returns (launches: seq<Launch>, held: set<Fd>, aborted: bool)
    requires h.Valid() && |runs| == |commands|
    modifies h, h.entries
    ensures h.Valid()
    ensures |launches| <= |commands|
    ensures aborted <==> |launches| < |commands|
    ensures forall i :: 0 <= i < |launches| ==> !LaunchFails(commands, runs, i)
    ensures aborted ==> LaunchFails(commands, runs, |launches|)
    ensures forall i :: 0 <= i < |launches| ==> Wired(launches[i], commands[i], runs[i], i, |commands|)
    ensures !aborted ==> held == {}
    ensures h.Contents() == AppendAll(old(h.Contents()), PipelineRecords(commands, runs, |launches|))
  {
    ghost var start := h.Contents();
    var fds := FdState(Stdin, Unset, Unset, {});
    launches, aborted := [], false;
    while |launches| < |commands| && !aborted
      invariant h.Valid() && Launched(commands, runs, launches)
      invariant !aborted ==> Ready(fds, |launches|, |commands|)
      invariant aborted ==> |launches| < |commands| && LaunchFails(commands, runs, |launches|)
      invariant h.Contents() == AppendAll(start, PipelineRecords(commands, runs, |launches|))
      decreases |commands| - |launches|, if aborted then 0 else 1
    {
      ghost var before := h.Contents();
      var ok, next, extended := RunStage(h, commands, runs, fds, launches);
      if ok {
        PipelineRecordsStep(start, commands, runs, |launches|, before, h.Contents());
        fds, launches := next, extended;
      } else {
        aborted := true;
      }
    }
    held := fds.held;
    forall j | 0 <= j < |launches|
      ensures !LaunchFails(commands, runs, j)
    {
      assert Wired(launches[j], commands[j], runs[j], j, |commands|);
    }
  }
}
