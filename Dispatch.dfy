/** What the shell does with a finished, non-blank line once it has been split into
    words (src/main.rs lines 244-317): builtins are handled in the shell, every other
    verb is looked up on `PATH`. Effects are described by an `Action`; carrying them out
    (printing, changing directory, spawning, exiting) is the caller's business. */
module Dispatch {
  import opened Wrappers
  import opened Strings
  import opened Numbers
  import opened System
  import opened History

  /** `is_builtin`. */
  predicate IsBuiltin(command: string)
  {
    command in {"echo", "exit", "help", "type", "pwd", "cd", "history"}
  }

  const HelpText: string := "Available commands: type, exit [code], help, echo, pwd, cd, history"

  /** A verb and its arguments. */
  datatype Command = Command(verb: string, args: seq<string>)

  /** What dispatching one line does. */
  datatype Action =
    | Exit(code: int)                          // restore the terminal and end the process
    | Help(text: string)                       // print the usage text
    | Echo(text: string)                       // print the arguments joined by spaces
    | Pwd                                      // print the working directory
    | ChangeDir(target: string)                // change the working directory to `target`
    | CdMissingArgument                        // `cd` without an argument: report, go on
    | HomeNotSet                               // `cd ~` without `HOME`: the shell panics
    | ListHistory(lines: seq<string>)          // print the numbered history
    | NoOp                                     // `type`: recognised, does nothing
    | Spawn(program: string, args: seq<string>) // run the program found on `PATH`
    | NotFound(verb: string)                   // report `<verb>: command not found`
    | TokenizeError                            // the line held no words: report, go on

  /** How the source splits the words (line 246-247) when there are none: indexing
      `parts[0]` panics. */
  datatype Split = Words(cmd: Command) | IndexPanic

  /** Lines 246-247 as written: the first word is the verb, the rest are arguments, and
      an empty word list crashes the shell. */
  function SplitCommandAsWritten(parts: seq<string>): (r: Split)
    ensures r.IndexPanic? <==> parts == []
    ensures r.Words? ==> [r.cmd.verb] + r.cmd.args == parts
  {
    if |parts| == 0 then IndexPanic else Words(Command(parts[0], parts[1..]))
  }

  /** Lines 246-247 with the empty word list reported instead of indexed. */
  function SplitCommand(parts: seq<string>): (r: Option<Command>)
    ensures r.None? <==> parts == []
    ensures r.Some? ==> [r.value.verb] + r.value.args == parts
  {
    if |parts| == 0 then None else Some(Command(parts[0], parts[1..]))
  }

  /** The source crashes exactly where the corrected split reports an error, and the
      two agree on every other word list. */
  lemma SplitCommandCorrected(parts: seq<string>)
    ensures parts == [] ==> SplitCommandAsWritten(parts) == IndexPanic && SplitCommand(parts) == None
    ensures parts != [] ==> SplitCommandAsWritten(parts) == Words(SplitCommand(parts).value)
  {
  }

  /** `find_in_path` over the `PATH` entries: the first `dir/command` that exists. */
  function FirstExisting(dirs: seq<string>, command: string, existing: set<string>): (r: Option<string>)
    ensures r.Some? ==> r.value in existing
    ensures r.Some? ==> exists i :: (0 <= i < |dirs| && r.value == dirs[i] + "/" + command
      && forall j :: 0 <= j < i ==> dirs[j] + "/" + command !in existing)
    ensures r.None? ==> forall i :: 0 <= i < |dirs| ==> dirs[i] + "/" + command !in existing
    decreases |dirs|
  {
    if dirs == [] then None
    else
      var candidate := dirs[0] + "/" + command;
      if candidate in existing then
        Some(candidate)
      else
        var r := FirstExisting(dirs[1..], command, existing);
        assert r.Some? ==> exists i :: (1 <= i < |dirs| && r.value == dirs[i] + "/" + command
          && forall j :: 0 <= j < i ==> dirs[j] + "/" + command !in existing) by {
          if r.Some? {
            var i :| 0 <= i < |dirs| - 1 && r.value == dirs[1..][i] + "/" + command
              && forall j :: 0 <= j < i ==> dirs[1..][j] + "/" + command !in existing;
            assert forall j :: 1 <= j < i + 1 ==> dirs[j] == dirs[1..][j - 1];
          }
        }
        r
  }

  /** `find_in_path`: nothing when `PATH` is unset, otherwise the first of its
      colon-separated entries under which the command exists (existence only, the
      execute bits are not consulted). */
  function FindInPath(command: string, path: Option<string>, existing: set<string>): (r: Option<string>)
    ensures path.None? ==> r.None?
    ensures r.Some? ==> r.value in existing
    ensures path.Some? ==> (r.None? <==>
      forall d :: d in SplitOn(path.value, ':') ==> d + "/" + command !in existing)
  {
    if path.None? then None else FirstExisting(SplitOn(path.value, ':'), command, existing)
  }

  /** The `exit` status (line 254): the first argument read as a 32-bit integer, 0 when
      there is no argument or it is not a number. */
  function ExitCode(args: seq<string>): (code: int)
    ensures MinI32 <= code <= MaxI32
  {
    if args == [] then 0 else ParseI32(args[0]).GetOr(0)
  }

  /** `exit` ends with whatever 32-bit status it is given, as it is displayed. */
  lemma ExitCodeRoundTrip(n: int, rest: seq<string>)
    requires MinI32 <= n <= MaxI32
    ensures ExitCode([IntToString(n)] + rest) == n
  {
    ParseDisplayed(n);
  }

  /** `exit 7` ends with 7; `exit` and `exit notanumber` end with 0. */
  lemma ExitCodeExamples()
    ensures ExitCode(["7"]) == 7
    ensures ExitCode([]) == 0
    ensures ExitCode(["notanumber"]) == 0
  {
    assert ExitCode(["7"]) == 7 by {
      assert ["7"][0] == "7" && AllDigits("7") && "7"[..0] == [];
    }
    assert !AllDigits("notanumber") by {
      assert !IsDigit("notanumber"[0]);
    }
  }

  /** `cd` (lines 267-281): no argument is an error; `~` means `HOME`, whose absence makes
      the shell panic; any other first argument is the target as typed. */
  function CdAction(args: seq<string>, home: Option<string>): (a: Action)
    ensures a == CdMissingArgument <==> args == []
    ensures a == HomeNotSet <==> args != [] && args[0] == "~" && home.None?
    ensures a.ChangeDir? ==> a.target == (if args[0] == "~" then home.value else args[0])
    ensures a.CdMissingArgument? || a.HomeNotSet? || a.ChangeDir?
  {
    if args == [] then CdMissingArgument
    else if args[0] == "~" then (if home.Some? then ChangeDir(home.value) else HomeNotSet)
    else ChangeDir(args[0])
  }

  /** `cd` looks at its first argument only. */
  lemma CdIgnoresExtraArguments(args: seq<string>, home: Option<string>)
    requires args != []
    ensures CdAction(args, home) == CdAction(args[..1], home)
  {
  }

  /** The builtins (lines 249-290). */
  function Builtin(cmd: Command, history: seq<string>, home: Option<string>): Action
    requires IsBuiltin(cmd.verb)
  {
    match cmd.verb
    case "exit" => Exit(ExitCode(cmd.args))
    case "help" => Help(HelpText)
    case "echo" => Echo(Join(cmd.args, " "))
    case "pwd" => Pwd
    case "cd" => CdAction(cmd.args, home)
    case "history" => ListHistory(HistoryLines(history))
    case _ => NoOp
  }

  /** Which builtin does what: each verb has its own kind of action, `cd` the three
      outcomes of `CdAction`; no builtin spawns, reports a missing command or a
      tokenize error. */
  lemma BuiltinActions(cmd: Command, history: seq<string>, home: Option<string>)
    requires IsBuiltin(cmd.verb)
    ensures var a := Builtin(cmd, history, home);
      && (a.Exit? <==> cmd.verb == "exit")
      && (a.Exit? ==> a.code == ExitCode(cmd.args))
      && (a.Help? <==> cmd.verb == "help")
      && (a.Echo? <==> cmd.verb == "echo")
      && (a.Echo? ==> a.text == Join(cmd.args, " "))
      && (a.Pwd? <==> cmd.verb == "pwd")
      && (a.ChangeDir? || a.CdMissingArgument? || a.HomeNotSet? <==> cmd.verb == "cd")
      && (cmd.verb == "cd" ==> a == CdAction(cmd.args, home))
      && (a.ListHistory? <==> cmd.verb == "history")
      && (a.ListHistory? ==> |a.lines| == |history|)
      && (a.ListHistory? ==> forall i :: 0 <= i < |history| ==> a.lines[i] == HistoryLine(i + 1, history[i]))
      && (a.NoOp? <==> cmd.verb == "type")
      && !a.Spawn? && !a.NotFound? && !a.TokenizeError?
  {
  }

  /** Dispatch of the words of a line, given the history that already records it: a
      builtin, or the program `PATH` resolves, or "not found". */
  function Decide(parts: seq<string>, history: seq<string>, env: Env): Action
  {
    match SplitCommand(parts)
    case None => TokenizeError
    case Some(cmd) =>
      if IsBuiltin(cmd.verb) then Builtin(cmd, history, env.home)
      else
        match FindInPath(cmd.verb, env.path, env.existing)
        case Some(program) => Spawn(program, cmd.args)
        case None => NotFound(cmd.verb)
  }

  /** A line without words is a tokenize error and nothing else is; a builtin verb is
      handled by `Builtin` with the remaining words as its arguments. */
  lemma DecideCases(parts: seq<string>, history: seq<string>, env: Env)
    ensures Decide(parts, history, env).TokenizeError? <==> parts == []
    ensures parts != [] && IsBuiltin(parts[0]) ==>
      Decide(parts, history, env) == Builtin(Command(parts[0], parts[1..]), history, env.home)
  {
    if parts != [] && IsBuiltin(parts[0]) {
      BuiltinActions(Command(parts[0], parts[1..]), history, env.home);
    }
  }

  /** A builtin verb never reaches `PATH`: it is neither spawned nor reported missing,
      and what it does is the same whatever `PATH` and the filesystem hold. */
  lemma BuiltinNeverResolved(parts: seq<string>, history: seq<string>, env1: Env, env2: Env)
    requires parts != [] && IsBuiltin(parts[0])
    requires env1.home == env2.home
    ensures !Decide(parts, history, env1).Spawn? && !Decide(parts, history, env1).NotFound?
    ensures Decide(parts, history, env1) == Decide(parts, history, env2)
  {
  }

  /** Any other verb is spawned from the first `PATH` entry where it exists, with the
      remaining words as arguments, and reported missing exactly when there is none. */
  lemma ExternalResolution(parts: seq<string>, history: seq<string>, env: Env)
    requires parts != [] && !IsBuiltin(parts[0])
    ensures var a := Decide(parts, history, env);
      (a.Spawn? || a.NotFound?)
      && (a.Spawn? ==> Some(a.program) == FindInPath(parts[0], env.path, env.existing) && a.args == parts[1..])
      && (a.NotFound? <==> FindInPath(parts[0], env.path, env.existing).None?)
      && (a.NotFound? ==> a.verb == parts[0])
  {
  }
}
