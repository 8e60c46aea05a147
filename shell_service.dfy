/**
 * The interactive shell: the registered command patterns, the completion
 * list of a prompt, the help listing, and one iteration of the read-dispatch
 * loop of `run`, with the path recovery that follows a "missing item" reply.
 *
 * The shell client becomes two parameters: an enumerator for dynamic markers
 * and a dispatcher that answers a command line with an Outcome in place of
 * the exceptions `manageCommand` throws.
 */
module ShellService {
  import opened Wrappers
  import opened StringTools
  import opened ShellExpander

  /** How the client's `manageCommand` ends: normally, or with one of its exceptions. */
  datatype Outcome = Ok | MissingItem | UnknownItem | UnknownCommand | OtherFailure

  type Dispatcher = string -> Outcome

  /** A line the shell writes: a listed command, "command not found", or the hint to use '?'. */
  datatype Line = Info(command: string) | CommandNotFound(command: string) | UseHelpHint

  /** The two arrays parseSubCommand updates by reference: the candidate list and the root list. */
  datatype Expansion = Expansion(candidates: seq<string>, root: seq<string>)

  /** What ends `run` with an uncaught error. */
  datatype Fatal = Config(error: ConfigError) | Unhandled(command: string)

  /** The state after one iteration: the process exits, the loop goes on with a path, or an error escapes. */
  datatype StepResult =
    | Exit
    | Continue(path: string, dispatched: Option<string>, output: seq<Line>)
    | Crash(fatal: Fatal)

  predicate IsQuit(input: string)
  {
    input == "quit" || input == "q" || input == "exit"
  }

  predicate IsHelp(input: string)
  {
    input == "?" || input == "help"
  }

  /** The lines of listCurrentAvailableCommands: the candidates without a space, in order. */
  function HelpLines(candidates: seq<string>): seq<Line>
  {
    if candidates == [] then []
    else
      var last := candidates[|candidates| - 1];
      HelpLines(candidates[..|candidates| - 1]) + (if ' ' in last then [] else [Info(last)])
  }

  /** The help listing shows exactly the single-word candidates, and nothing else. */
  lemma {:induction false} HelpLinesExact(candidates: seq<string>)
    ensures |HelpLines(candidates)| <= |candidates|
    ensures forall l :: l in HelpLines(candidates) ==> l.Info? && l.command in candidates && ' ' !in l.command
    ensures forall x :: x in candidates && ' ' !in x ==> Info(x) in HelpLines(candidates)
  {
    if candidates != [] {
      var n := |candidates| - 1;
      HelpLinesExact(candidates[..n]);
      assert candidates == candidates[..n] + [candidates[n]];
    }
  }

  /** The command line handed to the client: the path in words, then the input. */
  function CommandLine(path: string, input: string): string
  {
    if path == "" then input else Replace(path, '.', ' ') + " " + input
  }

  /** `trim(commonPart(str_replace(' ', '.', $command), $cmd), '.')`. */
  function RecoveryCandidate(command: string, cmd: string): string
  {
    Trim(CommonPart(Replace(command, ' ', '.'), cmd), '.')
  }

  /** The recovery candidates, one per registered command, in order. */
  function Candidates(command: string, commands: seq<string>): (r: seq<string>)
    ensures |r| == |commands|
    ensures forall k :: 0 <= k < |commands| ==> r[k] == RecoveryCandidate(command, commands[k])
  {
    seq(|commands|, k requires 0 <= k < |commands| => RecoveryCandidate(command, commands[k]))
  }

  /** Scanning the candidates in order, a candidate replaces the current value only when strictly longer. */
  function KeepLongest(start: string, candidates: seq<string>): string
  {
    if candidates == [] then start
    else
      var before := KeepLongest(start, candidates[..|candidates| - 1]);
      var tmp := candidates[|candidates| - 1];
      if |tmp| > |before| then tmp else before
  }

  /** The path after the recovery loop over the registered commands. */
  function Recovered(path: string, command: string, commands: seq<string>): string
  {
    KeepLongest(path, Candidates(command, commands))
  }

  /**
   * The scan never shortens its start; it either keeps it or ends on the
   * first candidate of greatest length, which is strictly longer than the
   * start, and no candidate is longer than the result.
   */
  lemma {:induction false} KeepLongestIsFirstLongest(start: string, candidates: seq<string>)
    ensures |KeepLongest(start, candidates)| >= |start|
    ensures forall k :: 0 <= k < |candidates| ==> |candidates[k]| <= |KeepLongest(start, candidates)|
    ensures KeepLongest(start, candidates) == start ||
      exists k :: 0 <= k < |candidates| && KeepLongest(start, candidates) == candidates[k] && |candidates[k]| > |start| &&
        forall j :: 0 <= j < k ==> |candidates[j]| < |candidates[k]|
  {
    if candidates != [] {
      var n := |candidates| - 1;
      var front := candidates[..n];
      KeepLongestIsFirstLongest(start, front);
      var before := KeepLongest(start, front);
      var r := KeepLongest(start, candidates);
      forall k | 0 <= k < |candidates|
        ensures |candidates[k]| <= |r|
      {
        if k < n {
          assert candidates[k] == front[k];
        }
      }
      if r != start {
        if r == before {
          var k :| 0 <= k < |front| && before == front[k] && |front[k]| > |start| &&
            forall j :: 0 <= j < k ==> |front[j]| < |front[k]|;
          assert candidates[k] == front[k];
          forall j | 0 <= j < k
            ensures |candidates[j]| < |candidates[k]|
          {
            assert candidates[j] == front[j];
          }
        } else {
          assert r == candidates[n];
          forall j | 0 <= j < n
            ensures |candidates[j]| < |candidates[n]|
          {
            assert candidates[j] == front[j];
          }
        }
      }
    }
  }

  /**
   * Recovery never shortens the path; it either keeps it or adopts the first
   * recovery candidate of greatest length, which is strictly longer, and no
   * candidate is longer than the result.
   */
  lemma RecoveredIsFirstLongest(path: string, command: string, commands: seq<string>)
    ensures |Recovered(path, command, commands)| >= |path|
    ensures forall k :: 0 <= k < |commands| ==>
      |RecoveryCandidate(command, commands[k])| <= |Recovered(path, command, commands)|
    ensures Recovered(path, command, commands) == path ||
      exists k :: 0 <= k < |commands| && Recovered(path, command, commands) == RecoveryCandidate(command, commands[k]) &&
        |RecoveryCandidate(command, commands[k])| > |path| &&
        forall j :: 0 <= j < k ==> |RecoveryCandidate(command, commands[j])| < |Recovered(path, command, commands)|
  {
    var cs := Candidates(command, commands);
    KeepLongestIsFirstLongest(path, cs);
    if Recovered(path, command, commands) != path {
      var k :| 0 <= k < |cs| && KeepLongest(path, cs) == cs[k] && |cs[k]| > |path| &&
        forall j :: 0 <= j < k ==> |cs[j]| < |cs[k]|;
      assert Recovered(path, command, commands) == RecoveryCandidate(command, commands[k]);
    }
  }

  /** An empty command line recovers nothing: the path stays empty. */
  lemma RecoveredFromEmpty(commands: seq<string>)
    ensures Recovered("", "", commands) == ""
  {
    var cs := Candidates("", commands);
    assert forall k :: 0 <= k < |cs| ==> cs[k] == "";
    KeepLongestIsFirstLongest("", cs);
  }

  /**
   * When the typed command, in dotted form, is a prefix of a registered
   * command and is longer than the path, recovery lands exactly on it.
   */
  lemma {:induction false} RecoveredToTypedPrefix(path: string, command: string, commands: seq<string>, k: nat)
    requires k < |commands|
    requires IsPrefix(Replace(command, ' ', '.'), commands[k])
    requires command != "" && command[0] != ' ' && command[|command| - 1] != ' ' && '.' !in command
    requires |command| > |path|
    ensures Recovered(path, command, commands) == Replace(command, ' ', '.')
  {
    var dotted := Replace(command, ' ', '.');
    TypedPrefixCandidate(command, commands[k]);
    RecoveredIsFirstLongest(path, command, commands);
    var r := Recovered(path, command, commands);
    var j :| 0 <= j < |commands| && r == RecoveryCandidate(command, commands[j]);
    FullLengthCandidate(command, commands[j]);
  }

  /** A typed command that is a prefix of a registered command, with no stray separators, is its own candidate. */
  lemma TypedPrefixCandidate(command: string, cmd: string)
    requires IsPrefix(Replace(command, ' ', '.'), cmd)
    requires command != "" && command[0] != ' ' && command[|command| - 1] != ' ' && '.' !in command
    ensures RecoveryCandidate(command, cmd) == Replace(command, ' ', '.')
  {
    var dotted := Replace(command, ' ', '.');
    CommonPartOfPrefix(dotted, cmd);
    assert dotted[0] != '.' && dotted[|dotted| - 1] != '.';
  }

  /** No candidate is longer than the typed command, and one as long as it is the command in dotted form. */
  lemma FullLengthCandidate(command: string, cmd: string)
    requires command != "" && command[0] != ' ' && command[|command| - 1] != ' ' && '.' !in command
    ensures |RecoveryCandidate(command, cmd)| <= |command|
    ensures |RecoveryCandidate(command, cmd)| == |command| ==> RecoveryCandidate(command, cmd) == Replace(command, ' ', '.')
  {
    var dotted := Replace(command, ' ', '.');
    var c := CommonPart(dotted, cmd);
    if |RecoveryCandidate(command, cmd)| == |command| {
      assert c == dotted;
      assert dotted[0] != '.' && dotted[|dotted| - 1] != '.';
    }
  }

  /**
   * With `user.add`, `user.remove` and `group.add` registered, a missing item
   * after `user` recovers the path `user`.
   */
  lemma WholeWordRecovery()
    ensures Recovered("", "user", ["user.add", "user.remove", "group.add", "quit", "help"]) == "user"
  {
    var cmds := ["user.add", "user.remove", "group.add", "quit", "help"];
    assert Replace("user", ' ', '.') == "user";
    assert IsPrefix("user", cmds[0]);
    RecoveredToTypedPrefix("", "user", cmds, 0);
  }

  /**
   * With the same commands, a missing item after `grp` recovers `gr`: the
   * common part is taken character by character, not word by word.
   */
  lemma PartialWordRecovery()
    ensures Recovered("", "grp", ["user.add", "user.remove", "group.add", "quit", "help"]) == "gr"
  {
    var cmds := ["user.add", "user.remove", "group.add", "quit", "help"];
    assert cmds[2] == "group.add";
    GroupCandidate();
    SingleSharedStart("grp", cmds, 2);
  }

  /**
   * When exactly one registered command starts like the command line, an
   * empty path recovers that command's candidate.
   */
  lemma SingleSharedStart(command: string, commands: seq<string>, j: int)
    requires command != "" && command[0] != ' '
    requires 0 <= j < |commands|
    requires forall k :: 0 <= k < |commands| && k != j ==> commands[k] != "" && commands[k][0] != command[0]
    ensures Recovered("", command, commands) == RecoveryCandidate(command, commands[j])
  {
    forall k | 0 <= k < |commands| && k != j
      ensures RecoveryCandidate(command, commands[k]) == ""
    {
      NoSharedStart(command, commands[k]);
    }
    RecoveredIsFirstLongest("", command, commands);
  }

  /** `grp` and `group.add` share `gr`, which has no dots to trim. */
  lemma GroupCandidate()
    ensures RecoveryCandidate("grp", "group.add") == "gr"
  {
    assert Replace("grp", ' ', '.') == "grp";
    assert CommonPart("grp", "group.add") == "gr" by {
      assert CommonPart("p", "oup.add") == "";
    }
  }

  /** The inner loop's next entry extends the row by one root. */
  lemma RowSnoc(value: string, roots: seq<string>, b: int)
    requires 0 <= b < |roots|
    ensures Row(value, roots[..b + 1]) == Row(value, roots[..b]) + [Extend(roots[b], value)]
  {
    assert roots[..b + 1][..b] == roots[..b];
  }

  /** The outer loop's next value adds its whole row after the earlier ones. */
  lemma ProductSnoc(values: seq<string>, a: int, roots: seq<string>)
    requires 0 <= a < |values|
    ensures Product(values[..a + 1], roots) == Product(values[..a], roots) + Row(values[a], roots)
  {
    var v := values[..a + 1];
    assert v[..|v| - 1] == values[..a];
    assert v[|v| - 1] == values[a];
  }

  /** One more entry is appended to the candidates exactly when it is not among them yet. */
  lemma AppendNewSnoc(acc: seq<string>, xs: seq<string>, x: string)
    ensures AppendNew(acc, xs + [x]) == if x in AppendNew(acc, xs) then AppendNew(acc, xs) else AppendNew(acc, xs) + [x]
  {
    assert (xs + [x])[..|xs|] == xs;
  }

  /** The scan over one more candidate compares it once with the result so far. */
  lemma KeepLongestStep(start: string, candidates: seq<string>, k: int)
    requires 0 <= k < |candidates|
    ensures KeepLongest(start, candidates[..k + 1]) ==
      if |candidates[k]| > |KeepLongest(start, candidates[..k])| then candidates[k] else KeepLongest(start, candidates[..k])
  {
    assert candidates[..k + 1][..k] == candidates[..k];
  }

  /** A command line and a registered command that start differently share no candidate. */
  lemma NoSharedStart(command: string, cmd: string)
    requires command != "" && cmd != "" && command[0] != ' ' && command[0] != cmd[0]
    ensures RecoveryCandidate(command, cmd) == ""
  {
    assert Replace(command, ' ', '.')[0] == command[0];
  }

  /**
   * One iteration of `run` on the current path: compute the completion list,
   * then act on the line read from the user.
   */
  function Step(commands: seq<string>, path: string, input: string, enumerate: Enumerator, dispatch: Dispatcher): StepResult
  {
    match Available(commands, path, enumerate)
    case Failure(e) => Crash(Config(e))
    case Success(candidates) =>
      if IsQuit(input) then Exit
      else if IsHelp(input) then Continue(path, None, HelpLines(candidates))
      else
        var p := if input == "" then "" else path;
        var command := CommandLine(p, input);
        match dispatch(command)
        case Ok => Continue(p, Some(command), [])
        case MissingItem => Continue(Recovered(p, command, commands), Some(command), [])
        case UnknownItem => Continue(p, Some(command), [CommandNotFound(command)])
        case UnknownCommand => Continue(p, Some(command), [UseHelpHint])
        case OtherFailure => Crash(Unhandled(command))
  }

  /** A malformed marker in a pattern the path selects stops the shell before anything is read. */
  lemma StepConfigError(commands: seq<string>, path: string, input: string, enumerate: Enumerator, dispatch: Dispatcher)
    requires Available(commands, path, enumerate).Failure?
    ensures Step(commands, path, input, enumerate, dispatch) == Crash(Config(Available(commands, path, enumerate).error))
  {
  }

  /** A quit token ends the shell without dispatching anything. */
  lemma StepQuit(commands: seq<string>, path: string, input: string, enumerate: Enumerator, dispatch: Dispatcher)
    requires Available(commands, path, enumerate).Success?
    requires IsQuit(input)
    ensures Step(commands, path, input, enumerate, dispatch) == Exit
  {
  }

  /** A help token dispatches nothing, keeps the path, and lists exactly the single-word candidates. */
  lemma StepHelp(commands: seq<string>, path: string, input: string, enumerate: Enumerator, dispatch: Dispatcher)
    requires Available(commands, path, enumerate).Success?
    requires IsHelp(input)
    ensures var r := Step(commands, path, input, enumerate, dispatch);
      var candidates := Available(commands, path, enumerate).value;
      && r.Continue? && r.path == path && r.dispatched == None
      && (forall l :: l in r.output ==> l.Info? && l.command in candidates && ' ' !in l.command)
      && (forall x :: x in candidates && ' ' !in x ==> Info(x) in r.output)
  {
    HelpLinesExact(Available(commands, path, enumerate).value);
  }

  /**
   * Any other input is dispatched as the command line built from the path
   * (reset to empty on an empty input) and the input; the new path depends on
   * the outcome.
   */
  lemma StepDispatch(commands: seq<string>, path: string, input: string, enumerate: Enumerator, dispatch: Dispatcher)
    requires Available(commands, path, enumerate).Success?
    requires !IsQuit(input) && !IsHelp(input)
    ensures var p := if input == "" then "" else path;
      var command := if p == "" then input else Replace(p, '.', ' ') + " " + input;
      var r := Step(commands, path, input, enumerate, dispatch);
      && (dispatch(command) == OtherFailure ==> r == Crash(Unhandled(command)))
      && (dispatch(command) != OtherFailure ==> r.Continue? && r.dispatched == Some(command))
      && (dispatch(command) == Ok ==> r.path == p && r.output == [])
      && (dispatch(command) == UnknownItem ==> r.path == p && r.output == [CommandNotFound(command)])
      && (dispatch(command) == UnknownCommand ==> r.path == p && r.output == [UseHelpHint])
      && (dispatch(command) == MissingItem ==> r.path == Recovered(p, command, commands) && r.output == [])
  {
  }

  /** On a missing item the path never gets shorter, and changes only to a strictly longer recovery candidate. */
  lemma StepMissingItem(commands: seq<string>, path: string, input: string, enumerate: Enumerator, dispatch: Dispatcher)
    requires Available(commands, path, enumerate).Success?
    requires !IsQuit(input) && !IsHelp(input)
    requires dispatch(CommandLine(if input == "" then "" else path, input)) == MissingItem
    ensures var p := if input == "" then "" else path;
      var command := CommandLine(p, input);
      var r := Step(commands, path, input, enumerate, dispatch);
      && r.Continue? && |r.path| >= |p|
      && (r.path == p || exists k :: 0 <= k < |commands| && r.path == RecoveryCandidate(command, commands[k]) && |r.path| > |p|)
  {
    var p := if input == "" then "" else path;
    RecoveredIsFirstLongest(p, CommandLine(p, input), commands);
  }

  /** An empty line returns the shell to the root: it dispatches the empty command and the path stays empty. */
  lemma StepEmptyInput(commands: seq<string>, path: string, enumerate: Enumerator, dispatch: Dispatcher)
    requires Available(commands, path, enumerate).Success?
    requires dispatch("") != OtherFailure
    ensures var r := Step(commands, path, "", enumerate, dispatch);
      r.Continue? && r.path == "" && r.dispatched == Some("")
  {
    RecoveredFromEmpty(commands);
  }

  class InteractiveShell {
    /** The registered command patterns, '.'-separated. */
    var commands: seq<string>

    constructor()
      ensures commands == []
    {
      commands := [];
    }

    /** Registers the patterns; "quit" and "help" are always added after them. */
    method SetCommands(patterns: seq<string>)
      modifies this
      ensures commands == patterns + ["quit", "help"]
    {
      commands := patterns + ["quit", "help"];
    }

    /**
     * Expands one segment against the current roots: every value of the
     * segment extends every root, values outer, roots inner; each new entry
     * is added to the candidates unless already there.
     */
    method ParseSubCommand(candidates: seq<string>, root: seq<string>, sub: string, enumerate: Enumerator)
      returns (r: Result<Expansion, ConfigError>)
      ensures SubCommandValues(sub, enumerate).Failure? ==> r == Failure(SubCommandValues(sub, enumerate).error)
      ensures SubCommandValues(sub, enumerate).Success? ==>
        r == Success(Expansion(AppendNew(candidates, Product(SubCommandValues(sub, enumerate).value, root)),
                               Product(SubCommandValues(sub, enumerate).value, root)))
    {
      var values := SubCommandValues(sub, enumerate);
      if values.Failure? {
        return Failure(values.error);
      }
      var list := values.value;
      var out := candidates;
      var newRoot: seq<string> := [];
      var a := 0;
      while a < |list|
        invariant 0 <= a <= |list|
        invariant newRoot == Product(list[..a], root)
        invariant out == AppendNew(candidates, newRoot)
      {
        out, newRoot := ExtendRoots(candidates, out, newRoot, list[a], root);
        ProductSnoc(list, a, root);
        a := a + 1;
      }
      assert list[..|list|] == list;
      r := Success(Expansion(out, newRoot));
    }

    /**
     * The inner loop of parseSubCommand: the value extends each root in
     * turn, and each new entry joins the candidates unless already there.
     */
    method ExtendRoots(candidates: seq<string>, seen: seq<string>, built: seq<string>, value: string, root: seq<string>)
      returns (out: seq<string>, newRoot: seq<string>)
      requires seen == AppendNew(candidates, built)
      ensures newRoot == built + Row(value, root)
      ensures out == AppendNew(candidates, newRoot)
    {
      out, newRoot := seen, built;
      var b := 0;
      while b < |root|
        invariant 0 <= b <= |root|
        invariant newRoot == built + Row(value, root[..b])
        invariant out == AppendNew(candidates, newRoot)
      {
        var command := Extend(root[b], value);
        RowSnoc(value, root, b);
        assert built + Row(value, root[..b + 1]) == (built + Row(value, root[..b])) + [command];
        AppendNewSnoc(candidates, newRoot, command);
        if command !in out {
          out := out + [command];
        }
        newRoot := newRoot + [command];
        b := b + 1;
      }
      assert root[..|root|] == root;
    }

    /** The completion list for a prompt at `path`. */
    method AvailableCommands(path: string, enumerate: Enumerator) returns (r: Result<seq<string>, ConfigError>)
      ensures r == Available(commands, path, enumerate)
    {
      var candidates: seq<string> := [];
      var k := 0;
      while k < |commands|
        invariant 0 <= k <= |commands|
        invariant Collect(candidates, Stream(commands[k..], path, enumerate)) == Available(commands, path, enumerate)
      {
        var entry := commands[k];
        ghost var rest := Stream(commands[k + 1..], path, enumerate);
        StreamUnfold(commands, k, path, enumerate);
        if path != "" && !Contains(entry, path) {
          ConcatEmpty(rest);
          k := k + 1;
          continue;
        }
        var expanded := ExpandPattern(candidates, Split(entry, '.'), Split(path, '.'), enumerate);
        CollectConcat(candidates, PatternStream(entry, path, enumerate), rest);
        if expanded.Failure? {
          return Failure(expanded.error);
        }
        candidates := expanded.value;
        k := k + 1;
      }
      r := Success(candidates);
    }

    /**
     * The segment loop of availableCommands for one pattern: a segment equal
     * to the path segment at its index is skipped, any other is expanded
     * against the current roots, which its entries then replace.
     */
    method ExpandPattern(candidates: seq<string>, list: seq<string>, subPath: seq<string>, enumerate: Enumerator)
      returns (r: Result<seq<string>, ConfigError>)
      ensures r == Collect(candidates, ExpandSegments(list, subPath, 0, [""], enumerate))
    {
      var out := candidates;
      var root: seq<string> := [""];
      var i := 0;
      while i < |list|
        invariant 0 <= i <= |list|
        invariant Collect(out, ExpandSegments(list, subPath, i, root, enumerate)) ==
          Collect(candidates, ExpandSegments(list, subPath, 0, [""], enumerate))
      {
        var sub := list[i];
        if i < |subPath| && sub == subPath[i] {
          i := i + 1;
          continue;
        }
        var parsed := ParseSubCommand(out, root, sub, enumerate);
        if parsed.Failure? {
          return Failure(parsed.error);
        }
        CollectPrepend(out, parsed.value.root, ExpandSegments(list, subPath, i + 1, parsed.value.root, enumerate));
        out, root := parsed.value.candidates, parsed.value.root;
        i := i + 1;
      }
      r := Success(out);
    }

    /** The help listing of the current candidates. */
    method ListCurrentAvailableCommands(candidates: seq<string>) returns (output: seq<Line>)
      ensures output == HelpLines(candidates)
    {
      output := [];
      var k := 0;
      while k < |candidates|
        invariant 0 <= k <= |candidates|
        invariant output == HelpLines(candidates[..k])
      {
        assert candidates[..k + 1][..k] == candidates[..k];
        if ' ' !in candidates[k] {
          output := output + [Info(candidates[k])];
        }
        k := k + 1;
      }
      assert candidates[..|candidates|] == candidates;
    }

    /** The recovery loop run when the client reports a missing item. */
    method RecoverPath(path: string, command: string) returns (p: string)
      ensures p == Recovered(path, command, commands)
    {
      ghost var candidates := Candidates(command, commands);
      p := path;
      var k := 0;
      while k < |commands|
        invariant 0 <= k <= |commands|
        invariant p == KeepLongest(path, candidates[..k])
      {
        KeepLongestStep(path, candidates, k);
        var tmp := RecoveryCandidate(command, commands[k]);
        if |tmp| > |p| {
          p := tmp;
        }
        k := k + 1;
      }
      assert candidates[..|commands|] == candidates;
    }

    /** One iteration of the `run` loop, given the line the user typed and the client's answer. */
    method RunStep(path: string, input: string, enumerate: Enumerator, dispatch: Dispatcher) returns (r: StepResult)
      ensures r == Step(commands, path, input, enumerate, dispatch)
    {
      var available := AvailableCommands(path, enumerate);
      if available.Failure? {
        return Crash(Config(available.error));
      }
      var candidates := available.value;
      if IsQuit(input) {
        return Exit;
      }
      if IsHelp(input) {
        var output := ListCurrentAvailableCommands(candidates);
        return Continue(path, None, output);
      }
      var p := path;
      if input == "" {
        p := "";
      }
      var command := if p == "" then input else Replace(p, '.', ' ') + " " + input;
      match dispatch(command)
      case Ok =>
        r := Continue(p, Some(command), []);
      case MissingItem =>
        var recovered := RecoverPath(p, command);
        r := Continue(recovered, Some(command), []);
      case UnknownItem =>
        r := Continue(p, Some(command), [CommandNotFound(command)]);
      case UnknownCommand =>
        r := Continue(p, Some(command), [UseHelpHint]);
      case OtherFailure =>
        r := Crash(Unhandled(command));
    }
  }

  /** The stream from the k-th pattern on is that pattern's entries, then the rest. */
  lemma StreamUnfold(patterns: seq<string>, k: nat, path: string, enumerate: Enumerator)
    requires k < |patterns|
    ensures Stream(patterns[k..], path, enumerate) ==
      Concat(PatternStream(patterns[k], path, enumerate), Stream(patterns[k + 1..], path, enumerate))
  {
    assert patterns[k..][0] == patterns[k] && patterns[k..][1..] == patterns[k + 1..];
  }

  /** A pattern that produces nothing leaves the rest of the stream as it is. */
  lemma ConcatEmpty(rest: Result<seq<string>, ConfigError>)
    ensures Concat(Success([]), rest) == rest
  {
    match rest
    case Failure(e) =>
    case Success(t) =>
      assert [] + t == t;
  }

  /** Adding an expanded segment's entries and then the rest is adding both in turn. */
  lemma CollectPrepend(acc: seq<string>, next: seq<string>, rest: Result<seq<string>, ConfigError>)
    ensures Collect(acc, Prepend(next, rest)) == Collect(AppendNew(acc, next), rest)
  {
    match rest
    case Failure(e) =>
    case Success(s) =>
      AppendNewConcat(acc, next, s);
  }

  /** Adding one pattern's entries and then the rest's: the pattern's failure wins. */
  lemma CollectConcat(acc: seq<string>, first: Result<seq<string>, ConfigError>, rest: Result<seq<string>, ConfigError>)
    ensures Collect(acc, Concat(first, rest)) == (match Collect(acc, first)
      case Failure(e) => Failure(e)
      case Success(a) => Collect(a, rest))
  {
    match first
    case Failure(e) =>
    case Success(s) =>
      match rest
      case Failure(e) =>
      case Success(t) =>
        AppendNewConcat(acc, s, t);
  }
}
