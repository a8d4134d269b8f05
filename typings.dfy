/** The sequential batch of src/TypesService.ts: TypingsService installs or uninstalls the
    `@types/<name>` package of every key of a dependency section, one `npm` command at a time,
    the next command starting only from the previous one's completion callback, and reports
    the number of successful commands to a final callback.

    `childProcess.exec` is an oracle: the batch is given, per key, the `(error, stdout, stderr)`
    triple that key's command produces. The `stateCallback` messages come out as a sequence. */
module Typings {
  import opened Shared

  /** The arguments `exec` passes to its callback; `error` is `None` where it is `null`. */
  datatype ExecResult = ExecResult(error: Option<string>, stdout: string, stderr: string)

  /** One command that ran: its command line, the messages it sent to `stateCallback`, and the
      value it passed to its completion callback. */
  datatype Attempt = Attempt(command: string, messages: seq<string>, success: bool)

  datatype Operation = Install | Uninstall

  const InstallPrefix := "npm install @types/"
  const UninstallPrefix := "npm uninstall @types/"

  /** The two endings of a command line: a space and the save flag. */
  const SaveSuffix := " --save"
  const SaveDevSuffix := " --save-dev"

  /** `saveString`: `--save`, extended to `--save-dev` exactly when `isDev`. */
  function SaveFlag(isDev: bool): (flag: string)
    ensures "--save" <= flag
    ensures isDev <==> flag != "--save"
  {
    if isDev then "--save-dev" else "--save"
  }

  /** The command line for one key: the operation's prefix, the key, a space and the save flag. */
  function Command(prefix: string, key: string, isDev: bool): (line: string)
    ensures |line| == |prefix| + |key| + 1 + |SaveFlag(isDev)|
    ensures line[..|prefix|] == prefix && line[|prefix|..|prefix| + |key|] == key
    ensures line[|prefix| + |key|] == ' ' && line[|prefix| + |key| + 1..] == SaveFlag(isDev)
  {
    prefix + key + " " + SaveFlag(isDev)
  }

  /** The command line of `op` for one key: always an `npm` command, and an install command
      exactly when `op` is `Install`. */
  function CommandFor(op: Operation, key: string, isDev: bool): (line: string)
    ensures "npm " <= line
    ensures op.Install? <==> InstallPrefix <= line
    ensures op.Uninstall? <==> UninstallPrefix <= line
  {
    var prefix := if op.Install? then InstallPrefix else UninstallPrefix;
    var line := Command(prefix, key, isDev);
    assert line[4] == prefix[4] && InstallPrefix[4] != UninstallPrefix[4];
    line
  }

  /** Reads the key and the save flag back from a command line built with `prefix`. */
  function ParseCommand(prefix: string, command: string): Option<(string, bool)>
  {
    if !(prefix <= command) then None
    else
      var rest := command[|prefix|..];
      if |rest| >= |SaveDevSuffix| && rest[|rest| - |SaveDevSuffix|..] == SaveDevSuffix then
        Some((rest[..|rest| - |SaveDevSuffix|], true))
      else if |rest| >= |SaveSuffix| && rest[|rest| - |SaveSuffix|..] == SaveSuffix then
        Some((rest[..|rest| - |SaveSuffix|], false))
      else None
  }

  /** Every command line names its key and its save flag unambiguously, whatever the key. */
  lemma CommandRoundTrip(prefix: string, key: string, isDev: bool)
    ensures ParseCommand(prefix, Command(prefix, key, isDev)) == Some((key, isDev))
  {
    var tail := if isDev then SaveDevSuffix else SaveSuffix;
    assert Command(prefix, key, isDev) == prefix + (key + tail);
    ParseTail(prefix, key, tail);
  }

  lemma ParseTail(prefix: string, key: string, tail: string)
    requires tail == SaveDevSuffix || tail == SaveSuffix
    ensures ParseCommand(prefix, prefix + (key + tail)) == Some((key, tail == SaveDevSuffix))
  {
    RestAfterPrefix(prefix, key + tail);
    KeyBeforeTail(key, tail);
    if tail == SaveSuffix {
      LastChar(key + tail);
    }
  }

  lemma RestAfterPrefix(prefix: string, rest: string)
    ensures prefix <= prefix + rest && (prefix + rest)[|prefix|..] == rest
  {
  }

  lemma KeyBeforeTail(key: string, tail: string)
    ensures (key + tail)[|key + tail| - |tail|..] == tail && (key + tail)[..|key + tail| - |tail|] == key
  {
  }

  lemma LastChar(rest: string)
    requires |rest| >= |SaveSuffix| && rest[|rest| - |SaveSuffix|..] == SaveSuffix
    ensures !(|rest| >= |SaveDevSuffix| && rest[|rest| - |SaveDevSuffix|..] == SaveDevSuffix)
  {
    assert rest[|rest| - 1] == rest[|rest| - |SaveSuffix|..][|SaveSuffix| - 1] == 'e';
  }

  /** Distinct keys or flags give distinct command lines, and an install command is never an uninstall command. */
  lemma CommandsDistinct(op: Operation, key: string, isDev: bool, op': Operation, key': string, isDev': bool)
    requires (op, key, isDev) != (op', key', isDev')
    ensures CommandFor(op, key, isDev) != CommandFor(op', key', isDev')
  {
    if op == op' {
      var prefix := if op.Install? then InstallPrefix else UninstallPrefix;
      assert CommandFor(op, key, isDev) == Command(prefix, key, isDev);
      assert CommandFor(op', key', isDev') == Command(prefix, key', isDev');
      CommandRoundTrip(prefix, key, isDev);
      CommandRoundTrip(prefix, key', isDev');
    } else {
      assert CommandFor(op, key, isDev)[4] != CommandFor(op', key', isDev')[4];
    }
  }

  /** The outcome classification of installDependency: a failure exactly when stderr is
      non-empty and contains `ERR!`; the emptiness test is implied by the containment test. */
  predicate InstallSucceeded(result: ExecResult): (r: bool)
    ensures r <==> !Contains(result.stderr, "ERR!")
    ensures result.stderr == "" ==> r
  {
    !(result.stderr != "" && Contains(result.stderr, "ERR!"))
  }

  /** The outcome classification of uninstallDependency: a success exactly when there is no
      error and stdout contains `@types`; stderr plays no part, and an empty stdout is a failure. */
  predicate UninstallSucceeded(result: ExecResult): (r: bool)
    ensures r ==> result.error.None? && |result.stdout| >= 6
    ensures result.error.None? && "@types" <= result.stdout ==> r
  {
    assert "@types" <= result.stdout ==> OccursAt(result.stdout, "@types", 0);
    result.error.None? && Contains(result.stdout, "@types")
  }

  /** installDependency: `None` when the key contains `@types`, for then it sends no message,
      runs no command and never calls its callback. */
  function InstallDependency(key: string, isDev: bool, result: ExecResult): (attempt: Option<Attempt>)
    ensures attempt.None? <==> Contains(key, "@types")
    ensures attempt.Some? ==>
      && attempt.value.command == "npm install @types/" + key + " " + (if isDev then "--save-dev" else "--save")
      && (attempt.value.success <==> !Contains(result.stderr, "ERR!"))
      && |attempt.value.messages| >= 2
      && attempt.value.messages[0] == "Installing types package '" + key + "'\n"
  {
    if Contains(key, "@types") then None
    else
      var started := ["Installing types package '" + key + "'\n"];
      var success := InstallSucceeded(result);
      var reported :=
        if !success then
          if Contains(result.stderr, "ERR! 404") then ["Types for package '" + key + "' not found\n\n"]
          else [result.stderr]
        else [result.stdout, "Successfully installed Types for package '" + key + "'\n\n"];
      Some(Attempt(Command(InstallPrefix, key, isDev), started + reported, success))
  }

  /** A `404` from npm is a failure reported as "not found"; any other `ERR!` is a failure
      that echoes stderr; otherwise stdout and a success message are reported. */
  lemma InstallMessages(key: string, isDev: bool, result: ExecResult)
    requires !Contains(key, "@types")
    ensures var attempt := InstallDependency(key, isDev, result).value;
      && (Contains(result.stderr, "ERR! 404") ==>
            !attempt.success && attempt.messages[1..] == ["Types for package '" + key + "' not found\n\n"])
      && (Contains(result.stderr, "ERR!") && !Contains(result.stderr, "ERR! 404") ==>
            !attempt.success && attempt.messages[1..] == [result.stderr])
      && (!Contains(result.stderr, "ERR!") ==>
            attempt.success && attempt.messages[1..] == [result.stdout, "Successfully installed Types for package '" + key + "'\n\n"])
  {
    if Contains(result.stderr, "ERR! 404") {
      ContainsPrefix(result.stderr, "ERR!", "ERR! 404");
    }
  }

  /** uninstallDependency: it always runs its command and calls its callback; stdout is reported either way. */
  function UninstallDependency(key: string, isDev: bool, result: ExecResult): (attempt: Attempt)
    ensures attempt.command == "npm uninstall @types/" + key + " " + (if isDev then "--save-dev" else "--save")
    ensures attempt.success <==> result.error.None? && Contains(result.stdout, "@types")
    ensures |attempt.messages| == if attempt.success then 3 else 2
    ensures attempt.messages[..2] == ["Uninstalling types package '" + key + "'\n", result.stdout]
    ensures attempt.success ==> attempt.messages[2] == "Successfully uninstalled Types for package '" + key + "'\n\n"
  {
    var started := ["Uninstalling types package '" + key + "'\n"];
    var success := UninstallSucceeded(result);
    var reported :=
      if !success then [result.stdout]
      else [result.stdout, "Successfully uninstalled Types for package '" + key + "'\n\n"];
    Attempt(Command(UninstallPrefix, key, isDev), started + reported, success)
  }

  /** One key's command; `None` when its completion callback is never called. */
  function Step(op: Operation, key: string, isDev: bool, result: ExecResult): (attempt: Option<Attempt>)
    ensures attempt.None? <==> op.Install? && Contains(key, "@types")
    ensures attempt.Some? ==> attempt.value.command == CommandFor(op, key, isDev)
  {
    match op
    case Install => InstallDependency(key, isDev, result)
    case Uninstall => Some(UninstallDependency(key, isDev, result))
  }

  /** The state of the chain: whether it is stuck in a command whose callback never comes,
      the successes counted so far, the messages sent, and the commands run, in order. */
  datatype BatchRun = BatchRun(stalled: bool, successCount: nat, messages: seq<string>, commands: seq<string>)
  {
    /** The argument of the final callback, `None` when it is never called. */
    function Completion(): Option<nat>
    {
      if stalled then None else Some(successCount)
    }
  }

  const NotStarted := BatchRun(false, 0, [], [])

  /** What each key's command does, `results[i]` being what `exec` reports for `keys[i]`. */
  function Steps(op: Operation, keys: seq<string>, isDev: bool, results: seq<ExecResult>): seq<Option<Attempt>>
    requires |results| == |keys|
  {
    seq(|keys|, i requires 0 <= i < |keys| => Step(op, keys[i], isDev, results[i]))
  }

  /** The chain after the commands `steps`, taken one after the other: a command that never
      calls back leaves the chain stuck; otherwise its messages, command and success are added. */
  function Chain(steps: seq<Option<Attempt>>): BatchRun
    decreases |steps|
  {
    if steps == [] then NotStarted
    else
      var n := |steps| - 1;
      var before := Chain(steps[..n]);
      if before.stalled then before
      else
        match steps[n]
        case None => before.(stalled := true)
        case Some(attempt) =>
          BatchRun(false, before.successCount + (if attempt.success then 1 else 0),
                   before.messages + attempt.messages, before.commands + [attempt.command])
  }

  /** The batch of `op` over `keys`. */
  function Batch(op: Operation, keys: seq<string>, isDev: bool, results: seq<ExecResult>): BatchRun
    requires |results| == |keys|
  {
    Chain(Steps(op, keys, isDev, results))
  }

  /** Once a command never calls back, no later command changes anything. */
  lemma {:induction false} StalledStays(steps: seq<Option<Attempt>>, i: nat)
    requires i <= |steps|
    requires Chain(steps[..i]).stalled
    ensures Chain(steps) == Chain(steps[..i])
    decreases |steps| - i
  {
    if i < |steps| {
      assert steps[..i + 1][..i] == steps[..i];
      StalledStays(steps, i + 1);
    } else {
      assert steps[..i] == steps;
    }
  }

  /** One more step of the chain. */
  lemma ChainNext(steps: seq<Option<Attempt>>, i: nat)
    requires i < |steps|
    ensures var before := Chain(steps[..i]);
      Chain(steps[..i + 1]) ==
        if before.stalled then before
        else if steps[i].None? then before.(stalled := true)
        else BatchRun(false, before.successCount + (if steps[i].value.success then 1 else 0),
                      before.messages + steps[i].value.messages, before.commands + [steps[i].value.command])
  {
    assert steps[..i + 1][..i] == steps[..i];
  }

  /** The `run(index)` chain of install and uninstall: command `index + 1` is started only after
      command `index` called back; the final callback fires after the last key with the count of
      `true` outcomes. */
  method RunBatch(op: Operation, keys: seq<string>, isDev: bool, results: seq<ExecResult>) returns (run: BatchRun)
    requires |results| == |keys|
    ensures run == Batch(op, keys, isDev, results)
  {
    ghost var steps := Steps(op, keys, isDev, results);
    var successCount := 0;
    var messages: seq<string> := [];
    var commands: seq<string> := [];
    var stalled := false;
    var index := 0;
    while index < |keys| && !stalled
      invariant 0 <= index <= |keys|
      invariant BatchRun(stalled, successCount, messages, commands) == Chain(steps[..index])
    {
      ChainNext(steps, index);
      var step := Step(op, keys[index], isDev, results[index]);
      assert step == steps[index];
      if step.None? {
        stalled := true;
      } else {
        if step.value.success {
          successCount := successCount + 1;
        }
        messages := messages + step.value.messages;
        commands := commands + [step.value.command];
      }
      index := index + 1;
    }
    run := BatchRun(stalled, successCount, messages, commands);
    if stalled {
      StalledStays(steps, index);
    } else {
      assert steps[..index] == steps;
    }
  }

  /** The batch of `install`: no command and a callback with 0 for no keys, else the chain. */
  method InstallAll(keys: seq<string>, isDev: bool, results: seq<ExecResult>) returns (run: BatchRun)
    requires |results| == |keys|
    ensures run == Batch(Install, keys, isDev, results)
    ensures keys == [] ==> run.Completion() == Some(0) && run.messages == [] && run.commands == []
  {
    if |keys| > 0 {
      run := RunBatch(Install, keys, isDev, results);
    } else {
      run := NotStarted;
    }
  }

  /** The batch of `uninstall`: no command and a callback with 0 for no keys, else the chain. */
  method UninstallAll(keys: seq<string>, isDev: bool, results: seq<ExecResult>) returns (run: BatchRun)
    requires |results| == |keys|
    ensures run == Batch(Uninstall, keys, isDev, results)
    ensures keys == [] ==> run.Completion() == Some(0) && run.messages == [] && run.commands == []
  {
    if |keys| > 0 {
      run := RunBatch(Uninstall, keys, isDev, results);
    } else {
      run := NotStarted;
    }
  }

  /** The chain runs the commands of its first steps, one per step and in order, and stops
      exactly at the first command that never calls back. */
  lemma {:induction false} ChainCommands(steps: seq<Option<Attempt>>)
    ensures var run := Chain(steps);
      && |run.commands| <= |steps|
      && (forall j :: 0 <= j < |run.commands| ==> steps[j].Some? && run.commands[j] == steps[j].value.command)
      && (run.stalled ==> |run.commands| < |steps| && steps[|run.commands|].None?)
      && (!run.stalled ==> |run.commands| == |steps|)
    decreases |steps|
  {
    if steps != [] {
      var n := |steps| - 1;
      ChainCommands(steps[..n]);
      assert forall j :: 0 <= j < n ==> steps[..n][j] == steps[j];
    }
  }

  /** The `stateCallback` messages of `steps`, one step after the other, in order; a command
      that never calls back sends none. */
  function Logged(steps: seq<Option<Attempt>>): seq<string>
    decreases |steps|
  {
    if steps == [] then []
    else
      var n := |steps| - 1;
      Logged(steps[..n]) + (if steps[n].Some? then steps[n].value.messages else [])
  }

  /** The chain has sent exactly the messages of the commands it ran, in order. */
  lemma {:induction false} ChainMessages(steps: seq<Option<Attempt>>)
    ensures |Chain(steps).commands| <= |steps|
    ensures Chain(steps).messages == Logged(steps[..|Chain(steps).commands|])
    decreases |steps|
  {
    ChainCommands(steps);
    if steps != [] {
      var n := |steps| - 1;
      var before := Chain(steps[..n]);
      ChainMessages(steps[..n]);
      ChainCommands(steps[..n]);
      assert steps[..n][..|before.commands|] == steps[..|before.commands|];
      if !before.stalled && steps[n].Some? {
        assert steps[..n + 1] == steps;
        assert steps[..n + 1][..n] == steps[..n];
      }
    }
  }

  /** Whether each key's command reports success. */
  function Outcomes(op: Operation, results: seq<ExecResult>): (outcomes: seq<bool>)
    ensures |outcomes| == |results|
  {
    seq(|results|, i requires 0 <= i < |results| =>
      match op
      case Install => InstallSucceeded(results[i])
      case Uninstall => UninstallSucceeded(results[i]))
  }

  /** The success flags of the steps, false for a command that never calls back. */
  function Successes(steps: seq<Option<Attempt>>): (flags: seq<bool>)
    ensures |flags| == |steps|
  {
    seq(|steps|, i requires 0 <= i < |steps| => steps[i].Some? && steps[i].value.success)
  }

  /** A chain that is not stuck has counted exactly its successful commands. */
  lemma {:induction false} ChainCount(steps: seq<Option<Attempt>>)
    requires !Chain(steps).stalled
    ensures Chain(steps).successCount == multiset(Successes(steps))[true]
    decreases |steps|
  {
    if steps != [] {
      var n := |steps| - 1;
      ChainCount(steps[..n]);
      var flags := Successes(steps);
      assert flags == Successes(steps[..n]) + [flags[n]];
      assert multiset(flags) == multiset(Successes(steps[..n])) + multiset{flags[n]};
    }
  }

  /** The commands run are those of the first keys, one per key, in key order; the chain stops
      only at an install of a key containing `@types`, and otherwise runs every key. */
  lemma BatchCommands(op: Operation, keys: seq<string>, isDev: bool, results: seq<ExecResult>)
    requires |results| == |keys|
    ensures var run := Batch(op, keys, isDev, results);
      && |run.commands| <= |keys|
      && (forall j :: 0 <= j < |run.commands| ==> run.commands[j] == CommandFor(op, keys[j], isDev))
      && (forall j :: 0 <= j < |run.commands| ==> !(op.Install? && Contains(keys[j], "@types")))
      && (run.stalled ==> |run.commands| < |keys| && op.Install? && Contains(keys[|run.commands|], "@types"))
      && (!run.stalled ==> |run.commands| == |keys|)
      && run.messages == Logged(Steps(op, keys, isDev, results)[..|run.commands|])
  {
    ChainCommands(Steps(op, keys, isDev, results));
    ChainMessages(Steps(op, keys, isDev, results));
  }

  /** The chain reaches its final callback exactly when no install key contains `@types`;
      an uninstall chain always completes. */
  lemma BatchCompletes(op: Operation, keys: seq<string>, isDev: bool, results: seq<ExecResult>)
    requires |results| == |keys|
    ensures Batch(op, keys, isDev, results).Completion().Some? <==>
      (op.Uninstall? || forall j :: 0 <= j < |keys| ==> !Contains(keys[j], "@types"))
  {
    BatchCommands(op, keys, isDev, results);
  }

  /** A step that calls back reports the outcome classification of its operation. */
  lemma StepSuccess(op: Operation, key: string, isDev: bool, result: ExecResult)
    ensures var step := Step(op, key, isDev, result);
      step.Some? ==> step.value.success == (if op.Install? then InstallSucceeded(result) else UninstallSucceeded(result))
  {
  }

  /** When the chain completes, the final callback receives exactly the number of keys whose
      command succeeded, whichever of them failed. */
  lemma BatchCount(op: Operation, keys: seq<string>, isDev: bool, results: seq<ExecResult>)
    requires |results| == |keys|
    requires !Batch(op, keys, isDev, results).stalled
    ensures Batch(op, keys, isDev, results).Completion() == Some(multiset(Outcomes(op, results))[true])
  {
    var steps := Steps(op, keys, isDev, results);
    ChainCommands(steps);
    ChainCount(steps);
    forall j | 0 <= j < |keys|
      ensures Successes(steps)[j] == Outcomes(op, results)[j]
    {
      StepSuccess(op, keys[j], isDev, results[j]);
    }
    assert Successes(steps) == Outcomes(op, results);
  }

  /** A completed batch whose every command fails calls back with 0; one whose every command
      succeeds, with the number of keys. */
  lemma AllOrNothing(op: Operation, keys: seq<string>, isDev: bool, results: seq<ExecResult>)
    requires |results| == |keys|
    requires op.Uninstall? || forall j :: 0 <= j < |keys| ==> !Contains(keys[j], "@types")
    ensures (forall j :: 0 <= j < |keys| ==> !Outcomes(op, results)[j]) ==> Batch(op, keys, isDev, results).Completion() == Some(0)
    ensures (forall j :: 0 <= j < |keys| ==> Outcomes(op, results)[j]) ==> Batch(op, keys, isDev, results).Completion() == Some(|keys|)
  {
    BatchCompletes(op, keys, isDev, results);
    BatchCount(op, keys, isDev, results);
    var outcomes := Outcomes(op, results);
    if forall j :: 0 <= j < |keys| ==> !outcomes[j] {
      assert true !in multiset(outcomes);
    }
    if forall j :: 0 <= j < |keys| ==> outcomes[j] {
      assert outcomes == seq(|keys|, _ => true);
      AllTrueCount(|keys|);
    }
  }

  lemma {:induction false} AllTrueCount(n: nat)
    ensures multiset(seq(n, _ => true))[true] == n
  {
    if n > 0 {
      assert seq(n, _ => true) == seq(n - 1, _ => true) + [true];
      AllTrueCount(n - 1);
    }
  }
}
