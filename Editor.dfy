/** The line editor of the key loop in `main` (src/main.rs lines 154-226): the buffer
    being typed, the completion candidates of the last Tab, and the index of the next
    candidate to show. Drawing on the terminal is not modelled. */
module LineEditor {
  import opened Wrappers
  import opened System
  import opened Completion

  /** The key events the loop distinguishes (termion's `Key`): a character (Tab is
      `'\t'`, Enter is `'\n'`), Backspace, a control chord, and any other key. */
  datatype Key = Char(c: char) | Backspace | Ctrl(c: char) | Other

  /** `input_string`, `current_completion_candidates`, `current_completion_index`. */
  datatype EditorState = EditorState(buffer: string, candidates: seq<string>, index: nat)

  /** What a key asks of the loop around the editor: read on, hand over the line, or
      end the session (Ctrl-C). */
  datatype Signal = Continue | Submit | Interrupt

  /** The index always selects a candidate, or there are none and it is 0. */
  predicate WellFormed(s: EditorState)
  {
    s.index < |s.candidates| || (s.candidates == [] && s.index == 0)
  }

  /** Tab (lines 177-195): with no candidates, compute them for the buffer and start at
      the first; then, if there are any, show the selected one and move on cyclically. */
  function TabStep(s: EditorState, fs: FileSystem, path: Option<string>): (r: EditorState)
    requires WellFormed(s)
    ensures WellFormed(r)
    ensures s.candidates != [] ==> r.candidates == s.candidates
    ensures s.candidates == [] ==> r.candidates == Candidates(s.buffer, fs, path)
    ensures r.candidates == [] ==> r == EditorState(s.buffer, [], 0)
  {
    var candidates := if s.candidates == [] then Candidates(s.buffer, fs, path) else s.candidates;
    var index := if s.candidates == [] then 0 else s.index;
    if candidates == [] then EditorState(s.buffer, candidates, index)
    else EditorState(candidates[index], candidates, (index + 1) % |candidates|)
  }

  /** One key (lines 176-225). Enter and every other character clear the completion
      state; Backspace drops the last character, if any, and keeps it; Ctrl-C and other
      keys change nothing. */
  function Step(s: EditorState, k: Key, fs: FileSystem, path: Option<string>): (r: (EditorState, Signal))
    requires WellFormed(s)
    ensures WellFormed(r.0)
    ensures r.1 == Submit <==> k == Char('\n')
    ensures r.1 == Interrupt <==> k == Ctrl('c')
  {
    match k
    case Char('\t') => (TabStep(s, fs, path), Continue)
    case Char('\n') => (EditorState(s.buffer, [], 0), Submit)
    case Backspace => (if s.buffer != [] then s.(buffer := s.buffer[..|s.buffer| - 1]) else s, Continue)
    case Char(c) => (EditorState(s.buffer + [c], [], 0), Continue)
    case Ctrl('c') => (s, Interrupt)
    case _ => (s, Continue)
  }

  /** The outcome of reading keys for one line: the editor state, why reading stopped
      (`Continue` when the keys ran out), and how many keys were consumed. */
  datatype LineResult = LineResult(state: EditorState, signal: Signal, used: nat)

  /** The inner `for key in stdin.keys()` loop: keys are handled until Enter or Ctrl-C,
      or until there are no more. */
  function Run(s: EditorState, keys: seq<Key>, fs: FileSystem, path: Option<string>): (r: LineResult)
    requires WellFormed(s)
    ensures WellFormed(r.state)
    ensures r.used <= |keys|
    ensures r.signal == Continue <==> r.used == |keys| && forall i :: 0 <= i < |keys| ==> keys[i] != Char('\n') && keys[i] != Ctrl('c')
    ensures r.signal != Continue ==> r.used > 0 && keys[r.used - 1] in {Char('\n'), Ctrl('c')}
    ensures r.signal == Submit ==> r.used > 0 && keys[r.used - 1] == Char('\n')
    ensures r.signal == Interrupt ==> r.used > 0 && keys[r.used - 1] == Ctrl('c')
    ensures forall i :: 0 <= i < r.used - 1 ==> keys[i] != Char('\n') && keys[i] != Ctrl('c')
    decreases |keys|
  {
    if keys == [] then LineResult(s, Continue, 0)
    else
      var (t, signal) := Step(s, keys[0], fs, path);
      if signal != Continue then LineResult(t, signal, 1)
      else
        var r := Run(t, keys[1..], fs, path);
        RunTail(keys, r.used);
        LineResult(r.state, r.signal, r.used + 1)
  }

  /** Positions of `keys[1..]` are those of `keys`, shifted by one. */
  lemma RunTail(keys: seq<Key>, used: nat)
    requires keys != [] && used <= |keys| - 1
    ensures forall i :: 1 <= i < |keys| ==> keys[i] == keys[1..][i - 1]
    ensures used > 0 ==> keys[used] == keys[1..][used - 1]
  {
  }

  /** `n` Tab presses in a row. */
  function Tabs(s: EditorState, n: nat, fs: FileSystem, path: Option<string>): (r: EditorState)
    requires WellFormed(s)
    ensures WellFormed(r)
    decreases n
  {
    if n == 0 then s else Tabs(TabStep(s, fs, path), n - 1, fs, path)
  }

  /** `x` modulo `m`, by repeated subtraction. The cycling lemmas below state the index
      with `Wrap` rather than `%` because their inductions step `x` by `m` at a time, and
      the solver cannot relate `(x + m) % m` to `x % m` (that is nonlinear arithmetic);
      `NextIndex` ties each single Tab step back to the code's `(index + 1) % len`. */
  function Wrap(x: nat, m: nat): (r: nat)
    requires m > 0
    ensures r < m
    decreases x
  {
    if x < m then x else Wrap(x - m, m)
  }

  /** The index step of Tab, `(index + 1) % len`, wraps from the last candidate to the
      first. */
  lemma NextIndex(i: nat, m: nat)
    requires i < m
    ensures (i + 1) % m == Wrap(i + 1, m)
  {
  }

  lemma WrapShift(x: nat, b: nat, m: nat)
    requires 0 < m && x <= m
    ensures Wrap(Wrap(x, m) + b, m) == Wrap(x + b, m)
  {
    if x == m {
      assert Wrap(x, m) == 0;
      assert Wrap(x + b, m) == Wrap(b, m);
    }
  }

  /** Tab presses with candidates in place walk through them cyclically: after `n`
      presses the list is unchanged, the index has moved on by `n` modulo its length, and
      the buffer shows the candidate selected before the last press. */
  lemma {:induction false} TabsCycle(s: EditorState, n: nat, fs: FileSystem, path: Option<string>)
    requires WellFormed(s) && s.candidates != []
    ensures Tabs(s, n, fs, path).candidates == s.candidates
    ensures Tabs(s, n, fs, path).index == Wrap(s.index + n, |s.candidates|)
    ensures n > 0 ==> Tabs(s, n, fs, path).buffer == s.candidates[Wrap(s.index + n - 1, |s.candidates|)]
    decreases n
  {
    var m := |s.candidates|;
    if n > 0 {
      var t := TabStep(s, fs, path);
      NextIndex(s.index, m);
      assert t == EditorState(s.candidates[s.index], s.candidates, Wrap(s.index + 1, m));
      assert Tabs(s, n, fs, path) == Tabs(t, n - 1, fs, path);
      TabsCycle(t, n - 1, fs, path);
      WrapShift(s.index + 1, n - 1, m);
      if n > 1 {
        WrapShift(s.index + 1, n - 2, m);
      }
    }
  }

  /** No candidates for the buffer: Tab changes nothing, however often it is pressed. */
  lemma {:induction false} TabsWithoutCandidates(s: EditorState, n: nat, fs: FileSystem, path: Option<string>)
    requires s.candidates == [] && s.index == 0
    requires Candidates(s.buffer, fs, path) == []
    ensures Tabs(s, n, fs, path) == s
    decreases n
  {
    if n > 0 {
      TabsWithoutCandidates(TabStep(s, fs, path), n - 1, fs, path);
    }
  }

  /** After an edit (no candidates held), Tab number `n` shows candidate `(n-1) mod N` of
      the `N` candidates for the buffer. */
  lemma TabsAfterEdit(s: EditorState, n: nat, fs: FileSystem, path: Option<string>)
    requires s.candidates == [] && s.index == 0
    requires n > 0
    ensures var cs := Candidates(s.buffer, fs, path);
      cs != [] ==>
        Tabs(s, n, fs, path).candidates == cs
        && Tabs(s, n, fs, path).buffer == cs[Wrap(n - 1, |cs|)]
        && Tabs(s, n, fs, path).index == Wrap(n, |cs|)
  {
    var t := TabStep(s, fs, path);
    if t.candidates != [] {
      NextIndex(0, |t.candidates|);
      assert Tabs(s, n, fs, path) == Tabs(t, n - 1, fs, path);
      TabsFromFirst(t, n, fs, path);
    }
  }

  /** The cycle as seen from the first candidate, shown by the first press. */
  lemma TabsFromFirst(t: EditorState, n: nat, fs: FileSystem, path: Option<string>)
    requires t.candidates != [] && t.index == Wrap(1, |t.candidates|) && t.buffer == t.candidates[0]
    requires n > 0
    ensures Tabs(t, n - 1, fs, path).candidates == t.candidates
    ensures Tabs(t, n - 1, fs, path).buffer == t.candidates[Wrap(n - 1, |t.candidates|)]
    ensures Tabs(t, n - 1, fs, path).index == Wrap(n, |t.candidates|)
  {
    var m := |t.candidates|;
    TabsCycle(t, n - 1, fs, path);
    WrapShift(1, n - 1, m);
    if n > 1 {
      WrapShift(1, n - 2, m);
    }
  }

  /** The first `N` Tab presses after an edit show the `N` candidates once each, in
      sorted order; after them the index is back at 0, so press `N + 1` shows the first
      candidate again. */
  lemma TabsRoundTrip(s: EditorState, fs: FileSystem, path: Option<string>)
    requires s.candidates == [] && s.index == 0
    ensures var cs := Candidates(s.buffer, fs, path);
      forall n :: 1 <= n <= |cs| ==> Tabs(s, n, fs, path).buffer == cs[n - 1]
    ensures var cs := Candidates(s.buffer, fs, path);
      cs != [] ==> Tabs(s, |cs|, fs, path).index == 0 && Tabs(s, |cs| + 1, fs, path).buffer == cs[0]
  {
    var cs := Candidates(s.buffer, fs, path);
    forall n | 1 <= n <= |cs|
      ensures Tabs(s, n, fs, path).buffer == cs[n - 1]
    {
      TabsAfterEdit(s, n, fs, path);
    }
    if cs != [] {
      TabsAfterEdit(s, |cs|, fs, path);
      TabsAfterEdit(s, |cs| + 1, fs, path);
      assert Wrap(|cs|, |cs|) == 0;
    }
  }

  /** The keys of typing `w`. */
  function Typing(w: string): (keys: seq<Key>)
    ensures |keys| == |w|
    ensures forall i :: 0 <= i < |w| ==> keys[i] == Char(w[i])
  {
    seq(|w|, i requires 0 <= i < |w| => Char(w[i]))
  }

  /** Characters other than Tab and Enter. */
  predicate PlainText(w: string)
  {
    forall i :: 0 <= i < |w| ==> w[i] != '\t' && w[i] != '\n'
  }

  /** Typing plain text appends exactly that text to the buffer and drops any
      completion state. */
  lemma {:induction false} TypingAppends(s: EditorState, w: string, fs: FileSystem, path: Option<string>)
    requires WellFormed(s) && PlainText(w) && w != []
    ensures Run(s, Typing(w), fs, path) == LineResult(EditorState(s.buffer + w, [], 0), Continue, |w|)
    decreases |w|
  {
    var t := EditorState(s.buffer + [w[0]], [], 0);
    assert Step(s, Char(w[0]), fs, path) == (t, Continue);
    assert Typing(w)[1..] == Typing(w[1..]);
    if |w| > 1 {
      TypingAppends(t, w[1..], fs, path);
      assert t.buffer + w[1..] == s.buffer + w;
    } else {
      assert Typing(w)[1..] == [];
      assert s.buffer + [w[0]] == s.buffer + w;
    }
  }

  /** A line typed as plain text and ended with Enter is submitted as exactly that text,
      with the completion state cleared and the keys after Enter left unread. */
  lemma SubmittedLineIsTyped(s: EditorState, w: string, rest: seq<Key>, fs: FileSystem, path: Option<string>)
    requires WellFormed(s) && s.buffer == [] && PlainText(w)
    ensures Run(s, Typing(w) + [Char('\n')] + rest, fs, path) == LineResult(EditorState(w, [], 0), Submit, |w| + 1)
  {
    var keys := Typing(w) + [Char('\n')] + rest;
    if w == [] {
      assert keys[0] == Char('\n');
    } else {
      TypingAppends(s, w, fs, path);
      RunAppend(s, Typing(w), [Char('\n')] + rest, fs, path);
      assert keys == Typing(w) + ([Char('\n')] + rest);
      assert ([Char('\n')] + rest)[0] == Char('\n');
    }
  }

  /** Reading on after a stretch of keys that neither submits nor interrupts is reading
      the rest from the state that stretch left. */
  lemma {:induction false} RunAppend(s: EditorState, a: seq<Key>, b: seq<Key>, fs: FileSystem, path: Option<string>)
    requires WellFormed(s) && Run(s, a, fs, path).signal == Continue
    ensures var r := Run(s, a, fs, path);
      var q := Run(r.state, b, fs, path);
      Run(s, a + b, fs, path) == LineResult(q.state, q.signal, |a| + q.used)
    decreases |a|
  {
    if a == [] {
      assert a + b == b;
    } else {
      var t := Step(s, a[0], fs, path).0;
      assert Step(s, a[0], fs, path).1 == Continue;
      var ra := Run(t, a[1..], fs, path);
      assert Run(s, a, fs, path) == LineResult(ra.state, ra.signal, ra.used + 1);
      assert (a + b)[0] == a[0] && (a + b)[1..] == a[1..] + b;
      var rab := Run(t, a[1..] + b, fs, path);
      assert Run(s, a + b, fs, path) == LineResult(rab.state, rab.signal, rab.used + 1);
      RunAppend(t, a[1..], b, fs, path);
    }
  }

  /** The editor of one shell session. */
  class Editor {
    var buffer: string
    var candidates: seq<string>
    var index: nat

    function State(): EditorState
      reads this
    {
      EditorState(buffer, candidates, index)
    }

    ghost predicate Valid()
      reads this
    {
      WellFormed(State())
    }

    /** Lines 146-147 and 155: an empty buffer and no candidates. */
    constructor ()
      ensures Valid()
      ensures State() == EditorState([], [], 0)
    {
      buffer, candidates, index := [], [], 0;
    }

    /** Tab (lines 177-195). */
    method Tab(fs: FileSystem, path: Option<string>)
      requires Valid()
      modifies this
      ensures Valid()
      ensures State() == TabStep(old(State()), fs, path)
    {
      ghost var before := State();
      ghost var after := TabStep(before, fs, path);
      var cs, i := candidates, index;
      if cs == [] {
        cs := GetCompletionCandidates(buffer, fs, path);
        assert cs == Candidates(before.buffer, fs, path);
        i := 0;
      }
      assert cs == after.candidates;
      var shown := buffer;
      if cs != [] {
        shown := cs[i];
        i := (i + 1) % |cs|;
      }
      assert shown == after.buffer && i == after.index;
      buffer, candidates, index := shown, cs, i;
    }

    /** Enter (lines 196-203): the completion state is cleared; the buffer is the line. */
    method Enter() returns (line: string)
      modifies this
      ensures line == buffer == old(buffer)
      ensures candidates == [] && index == 0
    {
      candidates := [];
      index := 0;
      line := buffer;
    }

    /** Backspace (lines 204-210): the last character goes, if there is one; the
        completion state stays. */
    method Erase()
      modifies this
      ensures buffer == if old(buffer) == [] then [] else old(buffer)[..|old(buffer)| - 1]
      ensures candidates == old(candidates) && index == old(index)
    {
      if buffer != [] {
        buffer := buffer[..|buffer| - 1];
      }
    }

    /** Any other character (lines 211-218): the completion state is cleared and the
        character appended. */
    method Insert(c: char)
      requires c != '\t' && c != '\n'
      modifies this
      ensures buffer == old(buffer) + [c]
      ensures candidates == [] && index == 0
    {
      candidates := [];
      index := 0;
      buffer := buffer + [c];
    }

    /** One key event of the loop (lines 176-225). */
    method HandleKey(k: Key, fs: FileSystem, path: Option<string>) returns (signal: Signal)
      requires Valid()
      modifies this
      ensures Valid()
      ensures (State(), signal) == Step(old(State()), k, fs, path)
    {
      signal := Continue;
      match k {
        case Char('\t') =>
          Tab(fs, path);
        case Char('\n') =>
          var _ := Enter();
          signal := Submit;
        case Backspace =>
          Erase();
        case Char(c) =>
          Insert(c);
        case Ctrl('c') =>
          signal := Interrupt;
        case _ =>
      }
    }

    /** One line (lines 155 and 174-226): the buffer starts empty, keys are handled until
        Enter or Ctrl-C or until they run out; the completion state carries over from the
        previous line. */
    method ReadLine(keys: seq<Key>, fs: FileSystem, path: Option<string>) returns (line: string, signal: Signal, used: nat)
      requires Valid()
      modifies this
      ensures Valid()
      ensures line == buffer
      ensures LineResult(State(), signal, used) == Run(old(State()).(buffer := []), keys, fs, path)
    {
      buffer := [];
      ghost var start := State();
      signal := Continue;
      used := 0;
      var i := 0;
      while i < |keys|
        invariant 0 <= i <= |keys|
        invariant Valid()
        invariant signal == Continue
        invariant var r := Run(State(), keys[i..], fs, path);
          Run(start, keys, fs, path) == LineResult(r.state, r.signal, r.used + i)
      {
        ghost var before := State();
        signal := HandleKey(keys[i], fs, path);
        assert keys[i..][0] == keys[i] && keys[i..][1..] == keys[i + 1..];
        if signal != Continue {
          assert Run(before, keys[i..], fs, path) == LineResult(State(), signal, 1);
          used := i + 1;
          line := buffer;
          return;
        }
        assert Run(before, keys[i..], fs, path) == LineResult(Run(State(), keys[i + 1..], fs, path).state,
          Run(State(), keys[i + 1..], fs, path).signal, Run(State(), keys[i + 1..], fs, path).used + 1);
        i := i + 1;
      }
      assert keys[i..] == [];
      used := i;
      line := buffer;
    }
  }
}
