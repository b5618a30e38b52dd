/** The shell's main loop (`main`, src/main.rs lines 124-319) with the terminal taken
    out: read a line with the editor, skip it if it is blank, record it in the history,
    then dispatch it. */
module ShellLoop {
  import opened Wrappers
  import opened Strings
  import opened System
  import opened Dispatch
  import opened LineEditor

  /** How the process stands: still reading, ended by `exit` or Ctrl-C with a status,
      or ended by a panic (`cd ~` with `HOME` unset). */
  datatype Status = Running | Exited(code: int) | Panicked

  /** Actions after which the shell reads no further line. */
  predicate Ends(a: Action)
  {
    a.Exit? || a.HomeNotSet?
  }

  /** The status an action leaves the shell in: `exit` ends it with the given code, the
      `cd ~` panic ends it abnormally, and everything else keeps it reading. */
  function After(a: Action): (r: Status)
    ensures r != Running <==> Ends(a)
  {
    match a
    case Exit(code) => Exited(code)
    case HomeNotSet => Panicked
    case _ => Running
  }

  /** `actions` are `f` applied, in order, to the entries that follow the first `h0` of
      `history`: the `i`-th action is `f` of entry `h0 + i` and the history up to and
      including that entry. */
  ghost predicate Recorded<A>(h0: nat, history: seq<string>, actions: seq<A>, f: (string, seq<string>) -> A)
  {
    |history| == h0 + |actions|
    && forall i :: 0 <= i < |actions| ==> actions[i] == f(history[h0 + i], history[..h0 + i + 1])
  }

  /** The dispatch of one recorded line (lines 240-247): `Decide` on its words, with the
      history that already holds it. */
  function Dispatcher(words: string -> seq<string>, env: Env): (string, seq<string>) -> Action
  {
    (line, history) => Decide(words(line), history, env)
  }

  /** `actions` were dispatched, in order, for the entries that follow the first `h0` of
      `history`. */
  ghost predicate EachDispatched(h0: nat, history: seq<string>, actions: seq<Action>, words: string -> seq<string>, env: Env)
  {
    Recorded(h0, history, actions, Dispatcher(words, env))
  }

  /** Recording one more entry and applying `f` to it on the grown history keeps the
      relation: earlier entries see the same history prefixes as before. */
  lemma RecordedSnoc<A>(h0: nat, history: seq<string>, actions: seq<A>, line: string, a: A,
                        f: (string, seq<string>) -> A)
    requires Recorded(h0, history, actions, f)
    requires a == f(line, history + [line])
    ensures Recorded(h0, history + [line], actions + [a], f)
  {
    var h, n := history + [line], |actions|;
    forall i | 0 <= i < n
      ensures (actions + [a])[i] == f(h[h0 + i], h[..h0 + i + 1])
    {
      assert h[h0 + i] == history[h0 + i] && h[..h0 + i + 1] == history[..h0 + i + 1];
    }
    assert h[h0 + n] == line && h[..h0 + n + 1] == h;
  }

  /** What a session has done so far, reading from `keys` with the history `start` at
      its beginning: the history grew by one non-blank entry per dispatched action,
      nothing follows an action that ends the shell, and a status other than `Running`
      comes from the last action or Ctrl-C. Which action each entry led to is
      `EachDispatched`. */
  ghost predicate Progress(start: seq<string>, history: seq<string>, actions: seq<Action>, status: Status, keys: seq<Key>)
  {
    && start <= history
    && |history| == |start| + |actions|
    && (forall i :: |start| <= i < |history| ==> !AllWhitespace(history[i]))
    && (forall i :: 0 <= i < |actions| - 1 ==> !Ends(actions[i]))
    && (status == Running ==> forall i :: 0 <= i < |actions| ==> !Ends(actions[i]))
    && (actions != [] && Ends(actions[|actions| - 1]) ==> status == After(actions[|actions| - 1]))
    && (status == Panicked ==> actions != [] && actions[|actions| - 1].HomeNotSet?)
    && (status.Exited? ==>
          (actions != [] && actions[|actions| - 1] == Exit(status.code)) || (status == Exited(0) && Ctrl('c') in keys))
  }

  /** One pass of the loop, from a running shell whose history was `prev`, keeps
      `Progress`: a skipped line leaves history and actions alone, a dispatched one adds
      its entry and its action. */
  lemma ProgressStep(start: seq<string>, prev: seq<string>, history: seq<string>, actions: seq<Action>,
                     action: Option<Action>, status: Status, keys: seq<Key>, last: nat)
    requires Progress(start, prev, actions, Running, keys)
    requires last < |keys|
    requires action.None? ==> history == prev
    requires action.None? && status != Running ==> status == Exited(0) && keys[last] == Ctrl('c')
    requires action.Some? ==>
      |history| == |prev| + 1 && history[..|prev|] == prev
      && !AllWhitespace(history[|prev|])
      && status == After(action.value)
    ensures Progress(start, history, if action.Some? then actions + [action.value] else actions, status, keys)
  {
    if action.Some? {
      var a, acts := action.value, actions + [action.value];
      assert start <= history by {
        assert history[..|start|] == prev[..|start|];
      }
      forall i | |start| <= i < |history|
        ensures !AllWhitespace(history[i])
      {
        if i < |prev| {
          assert history[i] == prev[i];
        }
      }
      forall i | 0 <= i < |acts| - 1
        ensures !Ends(acts[i])
      {
        assert acts[i] == actions[i];
      }
    }
  }

  class Shell {
    var history: seq<string>
    var editor: Editor
    var status: Status

    ghost predicate Valid()
      reads this, editor
    {
      editor.Valid()
    }

    /** Start-up (lines 132-147): the history read back from the history file, a fresh
        editor. */
    constructor (saved: seq<string>)
      ensures Valid() && fresh(editor)
      ensures history == saved && status == Running
      ensures editor.State() == EditorState([], [], 0)
    {
      history := saved;
      editor := new Editor();
      status := Running;
    }

    /** A finished line (lines 235-247): a blank one is skipped and leaves the history
        alone; any other is appended, untrimmed, and its words are dispatched. */
    method Submit(line: string, parts: seq<string>, env: Env) returns (action: Option<Action>)
      modifies this`history
      ensures AllWhitespace(line) ==> action == None && history == old(history)
      ensures !AllWhitespace(line) ==>
        history == old(history) + [line] && action == Some(Decide(parts, history, env))
    {
      TrimEmptyIffBlank(line);
      if Trim(line) == [] {
        return None;
      }
      history := history + [line];
      action := Some(Decide(parts, history, env));
    }

    /** One pass of the loop (lines 156-317): read a line, and on Enter submit it and
        take the status its action leaves; on Ctrl-C end with status 0. */
    method Turn(keys: seq<Key>, words: string -> seq<string>, env: Env, ghost h0: nat, ghost done: seq<Action>)
      returns (action: Option<Action>, used: nat)
      requires Valid() && status == Running && keys != []
      requires EachDispatched(h0, history, done, words, env)
      modifies this, editor
      ensures Valid() && editor == old(editor)
      ensures 0 < used <= |keys|
      ensures action.None? ==> history == old(history)
      ensures action.None? && status != Running ==> status == Exited(0) && keys[used - 1] == Ctrl('c')
      ensures action.Some? ==>
        |history| == |old(history)| + 1 && history[..|old(history)|] == old(history)
        && !AllWhitespace(history[|old(history)|])
        && EachDispatched(h0, history, done + [action.value], words, env)
        && status == After(action.value)
      ensures var r := Run(old(editor.State()).(buffer := []), keys, env.fs, env.path);
        && used == r.used && editor.State() == r.state
        && (action.None? && status != Running <==> r.signal == Interrupt)
        && (action.Some? ==> history[|old(history)|] == r.state.buffer)
        && (action.None? && r.signal != Interrupt ==> AllWhitespace(r.state.buffer))
    {
      var line, signal, used' := editor.ReadLine(keys, env.fs, env.path);
      used := used';
      action := None;
      if signal == Interrupt {
        status := Exited(0);
      } else {
        action := Submit(line, words(line), env);
        if action.Some? {
          assert history[..|old(history)|] == old(history);
          RecordedSnoc(h0, old(history), done, line, action.value, Dispatcher(words, env));
          status := After(action.value);
        }
      }
    }

    /** The session (lines 154-318) over a finite stream of keys, with `words` standing
        for the shell-word splitter. Lines are read and handled until `exit`, Ctrl-C, a
        panic, or the end of the keys; the dispatched actions are returned in order, each
        the decision on a recorded line with the history as it stood once that line was
        recorded. */
    method Session(keys: seq<Key>, words: string -> seq<string>, env: Env) returns (actions: seq<Action>)
      requires Valid() && status == Running
      modifies this, editor
      ensures Valid() && editor == old(editor)
      ensures old(history) <= history
      ensures |history| == |old(history)| + |actions|
      ensures forall i :: |old(history)| <= i < |history| ==> !AllWhitespace(history[i])
      ensures EachDispatched(|old(history)|, history, actions, words, env)
      ensures forall i :: 0 <= i < |actions| - 1 ==> !Ends(actions[i])
      ensures status == Running ==> forall i :: 0 <= i < |actions| ==> !Ends(actions[i])
      ensures actions != [] && Ends(actions[|actions| - 1]) ==> status == After(actions[|actions| - 1])
      ensures status == Panicked ==> actions != [] && actions[|actions| - 1].HomeNotSet?
      ensures status.Exited? ==>
        (actions != [] && actions[|actions| - 1] == Exit(status.code)) || (status == Exited(0) && Ctrl('c') in keys)
    {
      actions := [];
      var pos := 0;
      while pos < |keys| && status == Running
        invariant 0 <= pos <= |keys|
        invariant Valid() && editor == old(editor)
        invariant Progress(old(history), history, actions, status, keys)
        invariant EachDispatched(|old(history)|, history, actions, words, env)
        decreases |keys| - pos
      {
        ghost var prev := history;
        var action, used := Turn(keys[pos..], words, env, |old(history)|, actions);
        if action.None? && status != Running {
          assert keys[pos..][used - 1] == keys[pos + used - 1];
        }
        ProgressStep(old(history), prev, history, actions, action, status, keys, pos + used - 1);
        if action.Some? {
          actions := actions + [action.value];
        }
        pos := pos + used;
      }
    }
  }
}
