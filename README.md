# supa-shell: a Dafny model of the shell's input and dispatch logic

supa-shell is a small interactive shell written in Rust (one file, `src/main.rs`).
It reads keys from a terminal in raw mode and edits one line. Tab cycles through
completion candidates taken from the file system and from `PATH`. A finished line is
recorded in the history and then run as a builtin (`echo`, `exit`, `help`, `type`,
`pwd`, `cd`, `history`) or as a program found on `PATH`.

This project models that logic with the terminal, the file system and process I/O
taken out:

- `Wrappers.dfy`: `Option`.
- `Strings.dfy`: the `str` operations the shell uses: `starts_with`, `rfind`, `split`
  on one character and its inverse `join`, and `trim`.
- `Order.dfy`: the ordering of `String` and `Vec::sort`. Sorting gives an ascending
  permutation, and that permutation is unique.
- `Numbers.dfy`: `str::parse::<i32>`, decimal rendering, and right alignment (`{:>5}`).
- `System.dfy`: the file system and environment as data. This covers directory
  listings (`read_dir` plus each entry's metadata), which paths exist, `PATH` and `HOME`.
- `Completion.dfy`: `get_completion_candidates`, written as loops (`ScanDirectory`,
  `ScanExecutables`, `ScanPath`, `GetCompletionCandidates`) and checked against the function `Candidates`.
- `History.dfy`: the numbered listing printed by `history`, as a function and as the
  loop that builds it.
- `Dispatch.dfy`: `is_builtin`, `find_in_path`, the `exit` status, the choice of `cd`
  target, and `Decide`, which maps the words of a line to an
  `Action`.
- `Editor.dfy`: the key loop's state machine. `Step`, `TabStep` and `Run` are pure
  functions. The class `Editor` holds the three variables of the loop (`input_string`,
  `current_completion_candidates`, `current_completion_index`), with one method per key.
- `Shell.dfy`: the class `Shell` holds the in-memory history and the session loop.

Notes on how the code was read:

- Ordering: `String`'s `Ord` compares UTF-8 bytes. For Unicode scalar values this is
  the same as comparing characters, so `Leq` compares `char`s.
- Duplicates: the code never removes duplicate candidates. A program found in two
  `PATH` directories is offered twice, so Tab shows it twice in a row.
- End of input: when the key stream ends before Enter, the code handles the partial
  line as if Enter had been pressed, but does not clear the completion state. After
  that it keeps prompting and reading empty lines, which it skips. `Run` and
  `Editor.ReadLine` report this case as `Continue`. `Shell.Session` stops at the end
  of the keys instead of looping.
- Persistence of completion state: the candidates and the index live outside the
  per-line loop, so they carry over from one line to the next. Enter clears them, so
  they only carry over at end of input.
- Empty word list: a line that splits into no words should be reported as a
  tokenize error and skipped. The code indexes `parts[0]` unchecked, which crashes
  (see Findings). The model follows the corrected
  behaviour and records the code's behaviour as `SplitCommandAsWritten`.

## Model

| member | source | states |
|---|---|---|
| `Strings.LastIndexOf` | src/main.rs:40 | `rfind('/')`: the index holds the character and no later position does; -1 exactly when the character is absent |
| `Strings.SplitOn` | src/main.rs:71 | `split(':')` yields at least one piece, no piece holds the separator, and joining the pieces with it gives back the input |
| `Strings.SplitJoin` | src/main.rs:108 | `split` inverts `join` for separator-free pieces, so the `PATH` entries are exactly the colon-separated fields |
| `Strings.TrimStart` | src/main.rs:235 | leading white space removed: a suffix, all dropped characters white space, empty exactly when the input is all white space |
| `Strings.TrimEnd` | src/main.rs:235 | trailing white space removed: a prefix, all dropped characters white space, empty exactly when the input is all white space |
| `Strings.TrimShape` | src/main.rs:235 | what `trim` leaves is the contiguous part of the line that starts right after its leading white space |
| `Strings.TrimDropsWhitespace` | src/main.rs:235 | only white space is dropped: everything before and after what `trim` leaves is white space |
| `Strings.TrimEnds` | src/main.rs:235 | what `trim` leaves neither starts nor ends with white space |
| `Strings.TrimEmptyIffBlank` | src/main.rs:235-238 | a line trims to nothing exactly when every character is white space in Rust's sense |
| `Order.Insert` | src/main.rs:88 | inserting into a sorted list keeps it sorted and adds exactly that element |
| `Order.Sort` | src/main.rs:88 | `sort()` yields an ascending permutation of the candidates |
| `Order.SortedUnique` | src/main.rs:88 | two ascending sequences with the same elements are equal, so the sorted result does not depend on gathering order |
| `Order.SortPermutationInvariant` | src/main.rs:88 | sorting two permutations of one list gives the same list |
| `Numbers.ParseI32` | src/main.rs:254 | `parse::<i32>` succeeds only with a value in the 32-bit range |
| `Numbers.ParseDisplayed` | src/main.rs:254 | every 32-bit value, displayed in decimal, is parsed back to itself |
| `Numbers.DecimalDigits` | src/main.rs:284 | the decimal rendering of n is all digits, has no leading zero, and reads back as n |
| `Numbers.PadLeft` | src/main.rs:284 | `{:>5}` right-aligns in at least five columns, the input preceded only by spaces, never truncated |
| `Completion.SplitInput` | src/main.rs:38-45 | with a `/`: directory up to and including the last `/`, prefix after it, the two concatenating to the input; otherwise `.` and the whole input |
| `Completion.ExecuteBits` | src/main.rs:92-99 | an entry is executable exactly when it is a regular file with the owner, group or other execute bit set (`mode & 0o111 != 0`) |
| `Completion.MatchesMember` | src/main.rs:48-67 | a string is gathered from a listing exactly when some entry emits it: a matching name, `/` appended for a directory; in the `PATH` scan, a matching executable file's name |
| `Completion.PathMatchesMember` | src/main.rs:70-85 | a string is gathered by the `PATH` scan exactly when an entry of some `PATH` directory emits it |
| `Completion.MatchesAppend` | src/main.rs:49-66 | scanning two listings back to back gathers what each gathers, in that order |
| `Completion.MatchesDistinct` | src/main.rs:48-82 | a listing whose names are distinct and hold no `/` gives no string twice, both in the directory scan and in the scan of one `PATH` directory |
| `Completion.DirectoryCandidatesDistinct` | src/main.rs:48-88 | without the fallback, the candidates from such a directory are all different |
| `Completion.CandidatesAreGathered` | src/main.rs:88 | sorting keeps exactly the strings that were gathered |
| `Completion.Candidates` | src/main.rs:33-36 | empty input gives no candidates; the candidates are always sorted ascending |
| `Completion.ScanDirectory` | src/main.rs:48-67 | the directory loop pushes exactly the matching names in listing order, with `/` on directories |
| `Completion.ScanExecutables` | src/main.rs:72-81 | one `PATH` directory contributes exactly its matching executable file names, in listing order |
| `Completion.ScanPath` | src/main.rs:70-85 | the `PATH` loops push exactly the matching executable names, directory by directory in `PATH` order |
| `Completion.GetCompletionCandidates` | src/main.rs:30-90 | the imperative function computes exactly `Candidates` |
| `Completion.MatchesPermutation` | src/main.rs:48-66 | what a listing contributes depends only on its entries, not on their order |
| `Completion.CandidatesIgnoreListingOrder` | src/main.rs:48-88 | file systems whose directories hold the same entries in any order give the same candidates |
| `Completion.DirectoryCandidateSource` | src/main.rs:48-67 | without fallback, c is a candidate iff some search-directory entry starts with the prefix and c is its name, plus `/` for a directory |
| `Completion.PathCandidateSource` | src/main.rs:69-99 | with fallback, c is a candidate iff some `PATH` directory holds a regular file with an execute bit (`mode & 0o111`) whose name starts with the prefix and equals c |
| `Completion.CandidatesStartWithPrefix` | src/main.rs:56 | every candidate starts with the prefix typed after the last `/` |
| `Completion.PathOnlyOnFallback` | src/main.rs:69 | if a `/` was typed or the directory scan found something, `PATH` does not affect the candidates |
| `Completion.SrExample` | src/main.rs:30-90 | `sr` next to `src/` and `srv.txt` completes to `["src/", "srv.txt"]` |
| `Dispatch.SplitCommandAsWritten` | src/main.rs:246-247 | as written: the first word is the verb and the rest are arguments; an empty word list panics |
| `Dispatch.SplitCommand` | src/main.rs:246-247 | corrected: the same split, with an empty word list reported as an error |
| `Dispatch.SplitCommandCorrected` | src/main.rs:246 | the code crashes exactly where the corrected split reports an error, and agrees with it elsewhere |
| `Dispatch.FirstExisting` | src/main.rs:108-115 | returns `dir/command` for the first entry, in order, where that path exists; none when no entry matches |
| `Dispatch.FindInPath` | src/main.rs:106-116 | nothing when `PATH` is unset; otherwise an existing path, absent iff no entry's `dir/command` exists (existence only) |
| `Dispatch.ExitCode` | src/main.rs:254 | the `exit` status is always a 32-bit value |
| `Dispatch.ExitCodeRoundTrip` | src/main.rs:254 | `exit n` ends with status n for every 32-bit n, whatever follows |
| `Dispatch.ExitCodeExamples` | src/main.rs:254 | `exit 7` gives 7; bare `exit` and `exit notanumber` give 0 |
| `Dispatch.CdAction` | src/main.rs:267-281 | no argument is an error; `~` means `HOME`, and a panic when `HOME` is unset; otherwise the first argument as typed |
| `Dispatch.CdIgnoresExtraArguments` | src/main.rs:272 | `cd` uses only its first argument |
| `History.HistoryLineShape` | src/main.rs:284 | a listing line is exactly `{:>5}` of the number (spaces up to five columns, never truncated) followed by two spaces and the entry; the number is rendered in decimal digits without leading zero that read back as the number |
| `History.HistoryLines` | src/main.rs:282-286 | one line per entry, in order, numbered from 1 |
| `History.HistoryLinesAppend` | src/main.rs:240 | recording one entry adds one line numbered after the others and leaves the earlier lines unchanged |
| `Dispatch.BuiltinActions` | src/main.rs:249-290 | each builtin verb has its own kind of action (`exit` the parsed status, `echo` the arguments joined by spaces, `history` one numbered line per entry, `type` nothing, `cd` one of its three outcomes); no builtin spawns or reports a missing command |
| `Dispatch.DecideCases` | src/main.rs:244-290 | a line without words is a tokenize error and nothing else is; a builtin verb is handled as a builtin with the remaining words as arguments |
| `Dispatch.BuiltinNeverResolved` | src/main.rs:22-27 | a builtin verb is never spawned or reported missing, and what it does does not depend on `PATH` or the file system |
| `Dispatch.ExternalResolution` | src/main.rs:292-317 | another verb is spawned from `find_in_path`'s result with the remaining words, and reported missing iff that result is none |
| `LineEditor.TabStep` | src/main.rs:177-195 | Tab keeps existing candidates, computes them only when there are none, and with none leaves buffer and index unchanged |
| `LineEditor.Step` | src/main.rs:176-225 | each key keeps the index in range; only Enter submits and only Ctrl-C interrupts |
| `LineEditor.Run` | src/main.rs:175-226 | keys are read until the first Enter (Submit) or Ctrl-C (Interrupt), which is the last key used and is preceded by neither; with neither among the keys, every key is read and the line continues |
| `LineEditor.NextIndex` | src/main.rs:190-191 | `(index + 1) % len` steps to the next candidate and wraps from the last to the first |
| `LineEditor.TabsCycle` | src/main.rs:177-195 | n Tabs keep the candidates, advance the index by n modulo their number, and show the candidate before the last step |
| `LineEditor.TabsWithoutCandidates` | src/main.rs:178-183 | when nothing completes the buffer, any number of Tabs changes nothing |
| `LineEditor.TabsAfterEdit` | src/main.rs:177-195 | after an edit, Tab n shows candidate (n-1) mod N |
| `LineEditor.TabsRoundTrip` | src/main.rs:177-195 | the first N Tabs show each candidate once in sorted order; then the index is 0 and Tab N+1 shows the first candidate again |
| `LineEditor.TypingAppends` | src/main.rs:211-218 | typing text without Tab or Enter appends exactly that text and clears the completion state |
| `LineEditor.SubmittedLineIsTyped` | src/main.rs:196-218 | text followed by Enter submits exactly that text, clears the completion state, and leaves the later keys unread |
| `LineEditor.RunAppend` | src/main.rs:175 | reading past a stretch of keys that neither submits nor interrupts continues from the state that stretch left |
| `LineEditor.Editor.constructor` | src/main.rs:146-147 | the editor starts with an empty buffer, no candidates and index 0 |
| `LineEditor.Editor.Tab` | src/main.rs:177-195 | the Tab branch updates the three variables exactly as `TabStep` says |
| `LineEditor.Editor.Enter` | src/main.rs:196-203 | Enter clears the candidates, resets the index, and yields the unchanged buffer |
| `LineEditor.Editor.Erase` | src/main.rs:204-210 | Backspace drops the last character, if any, and leaves the completion state alone |
| `LineEditor.Editor.Insert` | src/main.rs:211-218 | any other character clears the completion state and is appended |
| `LineEditor.Editor.HandleKey` | src/main.rs:176-225 | one key event changes the state and signals exactly as `Step` says |
| `LineEditor.Editor.ReadLine` | src/main.rs:155-226 | one line starts from an empty buffer, keeps the completion state, and ends as `Run` says |
| `ShellLoop.Shell.constructor` | src/main.rs:133-147 | the session starts with the saved history and a fresh editor |
| `ShellLoop.Shell.Submit` | src/main.rs:235-247 | a blank line changes nothing and is not dispatched; any other is appended untrimmed at the end of the history, and its words are dispatched |
| `History.HistoryListing` | src/main.rs:282-286 | the `history` loop produces exactly the numbered listing `HistoryLines` of the entries |
| `ShellLoop.After` | src/main.rs:251-256 | the status an action leaves: `exit` ends with its code, the `HOME` panic ends abnormally, every other action keeps the shell running |
| `ShellLoop.RecordedSnoc` | src/main.rs:240-247 | recording a line and dispatching it on the grown history extends the dispatch record without changing earlier entries |
| `ShellLoop.Shell.Turn` | src/main.rs:156-317 | one pass of the loop: the editor reads the keys exactly as `LineEditor.Run` does from an emptied buffer (keys consumed, final editor state); Ctrl-C, and only Ctrl-C, ends with status 0 and records nothing; a line left blank records nothing; any other line is recorded exactly as read, is dispatched, and sets the status its action leaves |
| `ShellLoop.ProgressStep` | src/main.rs:154-318 | one pass of the loop keeps the session invariant: history only grows, by one non-blank entry per action, nothing follows an action that ends the shell, and a stopped status comes from the last action or Ctrl-C |
| `ShellLoop.Shell.Session` | src/main.rs:154-318 | history is append-only and gains one non-blank entry per dispatched action; the i-th action is `Decide` on the words of the i-th new entry with the history up to it; nothing is dispatched after `exit` or a panic; the final status is the last action's `exit` code, a panic after `cd ~` without `HOME`, or 0 after a Ctrl-C among the keys |

## Left out

- Terminal handling is not modelled: raw mode, the prompt and its colours, cursor
  show/hide, the echo and erase sequences, and the Tab redraw (lines 125-130, 149-172,
  184-188, 200-201, 207, 216, 227-233). So is the Ctrl-C teardown (lines 219-223),
  which the model reduces to the status `Exited(0)`.
- The shell-word splitter (`shlex`, lines 244-245) is an outside library. Its result
  is an input: the word list, or the function `words` in `Shell.Session`.
- Reading and appending the history file, and `home::home_dir` (lines 132-144,
  241-242), are file I/O. The saved history is given to the constructor.
- Running programs, printing their output, and mirroring it to `output.txt`
  (lines 293-314) are process and file I/O. `Decide` stops at `Spawn(program, args)`.
- The effects of `echo`, `help`, `pwd` and `cd` (printing, querying and changing the
  working directory) are not modelled. Only the `Action` chosen for each is. The
  failure messages of `cd` and `pwd` are not modelled.
- `process::exit` is the status `Exited(code)`. The operating system's truncation of
  the status to 8 bits is not modelled.
- `read_dir`, `metadata`, `is_dir`, `is_file` and `env::var` are inputs. The file
  system is a map keyed by the exact path string passed to `read_dir`. Paths are not
  normalised, so `src` and `src/` are different keys, and symbolic links are whatever
  the entry's metadata says.
- File names that are not valid UTF-8 become `""` in the code (lines 53 and 76). The
  model has no such names: every name is a `string`.
- Byte length and character length are not distinguished. Strings are sequences of
  characters, as for ASCII input.
- `ShellLoop.Shell.Session`: stops when the keys run out. The code instead keeps
  prompting and skipping empty lines forever.
- `ShellLoop.Shell.Session`: does not say which keys produced each recorded line; that is stated for each pass by `ShellLoop.Shell.Turn`.
- `ShellLoop.Shell.Session`: runs every line against one `Env`. In the code, `cd` changes the working directory (lines 275 and 278), and spawned programs can create or remove files. Both change what later completions list (line 48) and what `find_in_path` finds through relative `PATH` entries (lines 72 and 110). The model keeps the file system, `PATH` and `HOME` fixed for the whole session.
- `Completion.DirectoryCandidatesDistinct`: covers the directory scan only. In the fallback, a name found in two `PATH` directories is gathered twice, since the code keeps duplicates.
- `is_executable` on systems other than Unix (lines 100-103) always answers no. Only the Unix branch is modelled.
- `LineEditor.Editor.Tab`: does not model the redraw, which erases as many columns as
  the previous buffer had.
- `Numbers.ParseI32`: only the success value is modelled. Rust's error kinds (empty,
  invalid digit, overflow) are not distinguished.

## Findings

| source | as written | input that shows it | evidently intended | confidence | as-written member | corrected member |
|---|---|---|---|---|---|---|
| src/main.rs:246 | `parts[0]` is indexed without checking that the splitter returned a word | a non-blank line with no words, such as `#` (a comment) or a lone `"`, for which `shlex` returns an empty list | report a tokenize error and read the next line | not executed; medium (depends on the outside splitter returning no words) | `Dispatch.SplitCommandAsWritten` (see `Dispatch.SplitCommandCorrected`) | `Dispatch.SplitCommand` (used by `Dispatch.Decide`) |
