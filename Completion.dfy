/** Tab-completion candidates (`get_completion_candidates`, src/main.rs lines 30-90):
    entries of the directory named by the input up to its last `/` whose names start
    with the rest of the input, falling back to executables on `PATH` when nothing
    matched and no `/` was typed; the result is sorted. */
module Completion {
  import opened Wrappers
  import opened Strings
  import opened Order
  import opened System

  /** The directory to search and the name prefix to match: split after the last `/`,
      or the current directory `.` and the whole input when there is no `/`. */
  function SplitInput(input: string): (r: (string, string))
    ensures '/' in input ==> r.0 + r.1 == input && r.0 != [] && r.0[|r.0| - 1] == '/' && '/' !in r.1
    ensures '/' !in input ==> r == (".", input)
  {
    var k := LastIndexOf(input, '/');
    if k >= 0 then
      SplitAfterLast(input, k);
      (input[..k + 1], input[k + 1..])
    else (".", input)
  }

  /** Splitting after the last `/` leaves no `/` in the second part. */
  lemma SplitAfterLast(input: string, k: int)
    requires 0 <= k < |input| && input[k] == '/'
    requires forall j :: k < j < |input| ==> input[j] != '/'
    ensures input[..k + 1] + input[k + 1..] == input
    ensures input[..k + 1][k] == '/' && '/' !in input[k + 1..]
  {
    var rest := input[k + 1..];
    assert forall j :: 0 <= j < |rest| ==> rest[j] == input[k + 1 + j];
  }

  /** `is_executable`: a regular file with at least one execute bit (`mode & 0o111`). */
  predicate IsExecutable(e: Entry)
  {
    e.isFile && e.mode & 0x49 != 0
  }

  /** `0o111` is the three execute bits: an entry is executable exactly when it is a
      regular file that its owner (`0o100`), its group (`0o010`) or anyone (`0o001`)
      may execute. */
  lemma ExecuteBits(e: Entry)
    ensures IsExecutable(e) <==> e.isFile && (e.mode & 0x40 != 0 || e.mode & 0x8 != 0 || e.mode & 0x1 != 0)
  {
  }

  /** What one entry adds: in the directory scan, a matching name, with `/` appended for a
      directory; in the `PATH` scan, a matching name of an executable file. */
  function Emit(e: Entry, prefix: string, fromPath: bool): seq<string>
  {
    if !StartsWith(e.name, prefix) then []
    else if fromPath then (if IsExecutable(e) then [e.name] else [])
    else if e.isDir then [e.name + "/"] else [e.name]
  }

  /** The strings gathered from a listing, in listing order. */
  function Matches(entries: seq<Entry>, prefix: string, fromPath: bool): seq<string>
    decreases |entries|
  {
    if entries == [] then []
    else Matches(entries[..|entries| - 1], prefix, fromPath) + Emit(entries[|entries| - 1], prefix, fromPath)
  }

  /** The strings gathered from the `PATH` directories, directory after directory. */
  function PathMatches(fs: FileSystem, dirs: seq<string>, prefix: string): seq<string>
    decreases |dirs|
  {
    if dirs == [] then []
    else PathMatches(fs, dirs[..|dirs| - 1], prefix) + Matches(Listing(fs, dirs[|dirs| - 1]), prefix, true)
  }

  /** The `PATH` fallback runs when the directory scan found nothing, no `/` was typed
      (the search directory is `.`), and `PATH` is set. */
  predicate FallsBack(fs: FileSystem, path: Option<string>, dir: string, prefix: string)
  {
    Matches(Listing(fs, dir), prefix, false) == [] && dir == "." && path.Some?
  }

  /** Everything gathered before sorting. */
  function Gathered(input: string, fs: FileSystem, path: Option<string>): seq<string>
  {
    if input == [] then []
    else
      var split := SplitInput(input);
      if FallsBack(fs, path, split.0, split.1) then PathMatches(fs, SplitOn(path.value, ':'), split.1)
      else Matches(Listing(fs, split.0), split.1, false)
  }

  /** The candidates offered for `input`: what was gathered, sorted. */
  function Candidates(input: string, fs: FileSystem, path: Option<string>): (r: seq<string>)
    ensures input == [] ==> r == []
    ensures Sorted(r)
  {
    Sort(Gathered(input, fs, path))
  }

  /** The directory scan of `get_completion_candidates` (lines 48-67): each entry whose
      name starts with `prefix`, with `/` appended for a directory. */
  method ScanDirectory(entries: seq<Entry>, prefix: string) returns (found: seq<string>)
    ensures found == Matches(entries, prefix, false)
  {
    found := [];
    var i := 0;
    while i < |entries|
      invariant 0 <= i <= |entries|
      invariant found == Matches(entries[..i], prefix, false)
    {
      var entry := entries[i];
      if StartsWith(entry.name, prefix) {
        var candidate := if entry.isDir then entry.name + "/" else entry.name;
        found := found + [candidate];
      }
      assert entries[..i + 1][..i] == entries[..i];
      i := i + 1;
    }
    assert entries[..i] == entries;
  }

  /** One directory of the `PATH` scan (lines 72-81): each entry whose name starts with
      `prefix` and that is an executable file. */
  method ScanExecutables(entries: seq<Entry>, prefix: string) returns (found: seq<string>)
    ensures found == Matches(entries, prefix, true)
  {
    found := [];
    var i := 0;
    while i < |entries|
      invariant 0 <= i <= |entries|
      invariant found == Matches(entries[..i], prefix, true)
    {
      var entry := entries[i];
      if StartsWith(entry.name, prefix) && IsExecutable(entry) {
        found := found + [entry.name];
      }
      assert entries[..i + 1][..i] == entries[..i];
      i := i + 1;
    }
    assert entries[..i] == entries;
  }

  /** The `PATH` scan of `get_completion_candidates` (lines 70-85): for each directory
      in order, each entry whose name starts with `prefix` and that is executable. */
  method ScanPath(fs: FileSystem, dirs: seq<string>, prefix: string) returns (found: seq<string>)
    ensures found == PathMatches(fs, dirs, prefix)
  {
    found := [];
    var j := 0;
    while j < |dirs|
      invariant 0 <= j <= |dirs|
      invariant found == PathMatches(fs, dirs[..j], prefix)
    {
      assert dirs[..j + 1][..j] == dirs[..j];
      if dirs[j] in fs {
        var executables := ScanExecutables(fs[dirs[j]], prefix);
        found := found + executables;
      }
      j := j + 1;
    }
    assert dirs[..j] == dirs;
  }

  /** `get_completion_candidates`: the directory scan, the `PATH` fallback, then `sort`. */
  method GetCompletionCandidates(input: string, fs: FileSystem, path: Option<string>)
    returns (candidates: seq<string>)
    ensures candidates == Candidates(input, fs, path)
  {
    candidates := [];
    if input == [] {
      return;
    }
    var (searchDir, prefix) := SplitInput(input);
    if searchDir in fs {
      candidates := ScanDirectory(fs[searchDir], prefix);
    }
    if candidates == [] && searchDir == "." && path.Some? {
      candidates := ScanPath(fs, SplitOn(path.value, ':'), prefix);
    }
    candidates := Sort(candidates);
  }

  /** One more entry at the end adds what that entry emits. */
  lemma MatchesSnoc(s: seq<Entry>, x: Entry, prefix: string, fromPath: bool)
    ensures Matches(s + [x], prefix, fromPath) == Matches(s, prefix, fromPath) + Emit(x, prefix, fromPath)
  {
    var sx := s + [x];
    assert sx[..|sx| - 1] == s && sx[|sx| - 1] == x;
  }

  /** Gathering from two listings one after the other is gathering from each. */
  lemma {:induction false} MatchesAppend(a: seq<Entry>, b: seq<Entry>, prefix: string, fromPath: bool)
    ensures Matches(a + b, prefix, fromPath) == Matches(a, prefix, fromPath) + Matches(b, prefix, fromPath)
    decreases |b|
  {
    if b == [] {
      assert a + b == a;
    } else {
      var b', last := b[..|b| - 1], b[|b| - 1];
      assert b == b' + [last];
      assert a + b == (a + b') + [last];
      MatchesAppend(a, b', prefix, fromPath);
      MatchesSnoc(a + b', last, prefix, fromPath);
      MatchesSnoc(b', last, prefix, fromPath);
      var ma, mb', e := Matches(a, prefix, fromPath), Matches(b', prefix, fromPath), Emit(last, prefix, fromPath);
      assert ma + mb' + e == ma + (mb' + e);
    }
  }

  /** A string is gathered from a listing exactly when some entry of it emits the string. */
  lemma {:induction false} MatchesMember(entries: seq<Entry>, prefix: string, fromPath: bool, c: string)
    ensures c in Matches(entries, prefix, fromPath) <==> exists e :: e in entries && c in Emit(e, prefix, fromPath)
    decreases |entries|
  {
    if entries != [] {
      var init := entries[..|entries| - 1];
      MatchesMember(init, prefix, fromPath, c);
      assert entries == init + [entries[|entries| - 1]];
      assert forall e :: e in entries <==> e in init || e == entries[|entries| - 1];
    }
  }

  /** A string is gathered from the `PATH` directories exactly when an entry of one of
      them emits it. */
  lemma {:induction false} PathMatchesMember(fs: FileSystem, dirs: seq<string>, prefix: string, c: string)
    ensures c in PathMatches(fs, dirs, prefix) <==>
      exists d, e :: d in dirs && e in Listing(fs, d) && c in Emit(e, prefix, true)
    decreases |dirs|
  {
    if dirs != [] {
      var init, last := dirs[..|dirs| - 1], dirs[|dirs| - 1];
      PathMatchesMember(fs, init, prefix, c);
      MatchesMember(Listing(fs, last), prefix, true, c);
      assert forall d :: d in dirs <==> d in init || d == last;
    }
  }

  /** An element of a sequence splits it into the part before and the part after. */
  lemma SplitAround(s: seq<Entry>, x: Entry) returns (left: seq<Entry>, right: seq<Entry>)
    requires x in multiset(s)
    ensures s == left + [x] + right
    ensures multiset(left + right) == multiset(s) - multiset{x}
  {
    var j :| 0 <= j < |s| && s[j] == x;
    left, right := s[..j], s[j + 1..];
    assert s == left + [x] + right;
    assert multiset(left + right) == multiset(left) + multiset(right);
  }

  /** What is gathered from a listing depends only on which entries it holds, not on
      the order `read_dir` returns them in. */
  lemma {:induction false} MatchesPermutation(s1: seq<Entry>, s2: seq<Entry>, prefix: string, fromPath: bool)
    requires multiset(s1) == multiset(s2)
    ensures multiset(Matches(s1, prefix, fromPath)) == multiset(Matches(s2, prefix, fromPath))
    decreases |s1|
  {
    if s1 != [] {
      var x := s1[|s1| - 1];
      var init := s1[..|s1| - 1];
      assert s1 == init + [x];
      assert multiset(init) == multiset(s1) - multiset{x};
      var left, right := SplitAround(s2, x);
      MatchesPermutation(init, left + right, prefix, fromPath);
      MatchesSnoc(init, x, prefix, fromPath);
      MatchesAppend(left, right, prefix, fromPath);
      MatchesAppend(left + [x], right, prefix, fromPath);
      MatchesSnoc(left, x, prefix, fromPath);
      var ml, mr, e := Matches(left, prefix, fromPath), Matches(right, prefix, fromPath), Emit(x, prefix, fromPath);
      assert Matches(s2, prefix, fromPath) == ml + e + mr;
      calc {
        multiset(Matches(s1, prefix, fromPath));
        multiset(Matches(init, prefix, fromPath) + e);
        multiset(Matches(init, prefix, fromPath)) + multiset(e);
        multiset(ml + mr) + multiset(e);
        multiset(ml) + multiset(mr) + multiset(e);
        multiset(ml + e + mr);
      }
    }
  }

  /** The same holds for the `PATH` scan, directory by directory. */
  lemma {:induction false} PathMatchesPermutation(fs1: FileSystem, fs2: FileSystem, dirs: seq<string>, prefix: string)
    requires forall d :: multiset(Listing(fs1, d)) == multiset(Listing(fs2, d))
    ensures multiset(PathMatches(fs1, dirs, prefix)) == multiset(PathMatches(fs2, dirs, prefix))
    decreases |dirs|
  {
    if dirs != [] {
      var last := dirs[|dirs| - 1];
      PathMatchesPermutation(fs1, fs2, dirs[..|dirs| - 1], prefix);
      MatchesPermutation(Listing(fs1, last), Listing(fs2, last), prefix, true);
    }
  }

  /** The candidates do not depend on the order of any directory listing: two filesystems
      whose directories hold the same entries give the same sorted candidates. */
  lemma CandidatesIgnoreListingOrder(input: string, fs1: FileSystem, fs2: FileSystem, path: Option<string>)
    requires forall d :: multiset(Listing(fs1, d)) == multiset(Listing(fs2, d))
    ensures Candidates(input, fs1, path) == Candidates(input, fs2, path)
  {
    if input != [] {
      var (dir, prefix) := SplitInput(input);
      var found1, found2 := Matches(Listing(fs1, dir), prefix, false), Matches(Listing(fs2, dir), prefix, false);
      MatchesPermutation(Listing(fs1, dir), Listing(fs2, dir), prefix, false);
      assert found1 == [] <==> found2 == [] by {
        assert |found1| == |multiset(found1)| == |multiset(found2)| == |found2|;
      }
      if path.Some? {
        PathMatchesPermutation(fs1, fs2, SplitOn(path.value, ':'), prefix);
      }
      SortPermutationInvariant(Gathered(input, fs1, path), Gathered(input, fs2, path));
    }
  }

  /** Sorting keeps exactly the strings that were gathered. */
  lemma CandidatesAreGathered(input: string, fs: FileSystem, path: Option<string>, c: string)
    ensures c in Candidates(input, fs, path) <==> c in Gathered(input, fs, path)
  {
    assert c in multiset(Candidates(input, fs, path)) <==> c in multiset(Gathered(input, fs, path));
  }

  /** Where each candidate comes from when there is no fallback: exactly the entries of
      the search directory whose names start with the prefix, a directory's with `/`
      appended. */
  lemma DirectoryCandidateSource(input: string, fs: FileSystem, path: Option<string>, c: string)
    requires input != []
    requires !FallsBack(fs, path, SplitInput(input).0, SplitInput(input).1)
    ensures c in Candidates(input, fs, path) <==>
      exists e :: e in Listing(fs, SplitInput(input).0) && StartsWith(e.name, SplitInput(input).1)
        && c == (if e.isDir then e.name + "/" else e.name)
  {
    var dir, prefix := SplitInput(input).0, SplitInput(input).1;
    CandidatesAreGathered(input, fs, path, c);
    assert Gathered(input, fs, path) == Matches(Listing(fs, dir), prefix, false);
    MatchesMember(Listing(fs, dir), prefix, false, c);
    if c in Matches(Listing(fs, dir), prefix, false) {
      var e :| e in Listing(fs, dir) && c in Emit(e, prefix, false);
      assert StartsWith(e.name, prefix) && c == (if e.isDir then e.name + "/" else e.name);
    }
    if exists e :: e in Listing(fs, dir) && StartsWith(e.name, prefix) && c == (if e.isDir then e.name + "/" else e.name) {
      var e :| e in Listing(fs, dir) && StartsWith(e.name, prefix) && c == (if e.isDir then e.name + "/" else e.name);
      assert c in Emit(e, prefix, false);
    }
  }

  /** Where each candidate comes from with the fallback: exactly the names, starting with
      the prefix, of executable files in the `PATH` directories. */
  lemma PathCandidateSource(input: string, fs: FileSystem, path: Option<string>, c: string)
    requires input != []
    requires FallsBack(fs, path, SplitInput(input).0, SplitInput(input).1)
    ensures c in Candidates(input, fs, path) <==>
      exists d, e :: d in SplitOn(path.value, ':') && e in Listing(fs, d)
        && StartsWith(e.name, SplitInput(input).1) && IsExecutable(e) && c == e.name
  {
    var prefix, dirs := SplitInput(input).1, SplitOn(path.value, ':');
    CandidatesAreGathered(input, fs, path, c);
    assert Gathered(input, fs, path) == PathMatches(fs, dirs, prefix);
    PathMatchesMember(fs, dirs, prefix, c);
    if c in PathMatches(fs, dirs, prefix) {
      var d, e :| d in dirs && e in Listing(fs, d) && c in Emit(e, prefix, true);
      assert StartsWith(e.name, prefix) && IsExecutable(e) && c == e.name;
    }
    if exists d, e :: d in dirs && e in Listing(fs, d) && StartsWith(e.name, prefix) && IsExecutable(e) && c == e.name {
      var d, e :| d in dirs && e in Listing(fs, d) && StartsWith(e.name, prefix) && IsExecutable(e) && c == e.name;
      assert c in Emit(e, prefix, true);
    }
  }

  /** Every candidate starts with the prefix typed after the last `/`. */
  lemma CandidatesStartWithPrefix(input: string, fs: FileSystem, path: Option<string>, c: string)
    requires input != [] && c in Candidates(input, fs, path)
    ensures StartsWith(c, SplitInput(input).1)
  {
    var split := SplitInput(input);
    if FallsBack(fs, path, split.0, split.1) {
      PathCandidateSource(input, fs, path, c);
    } else {
      DirectoryCandidateSource(input, fs, path, c);
    }
  }

  /** `PATH` matters only through the fallback: when a `/` was typed, or the directory scan
      found something, the candidates are the same whatever `PATH` holds. */
  lemma PathOnlyOnFallback(input: string, fs: FileSystem, p1: Option<string>, p2: Option<string>)
    requires input != []
    requires '/' in input || Matches(Listing(fs, SplitInput(input).0), SplitInput(input).1, false) != []
    ensures Candidates(input, fs, p1) == Candidates(input, fs, p2)
    ensures Candidates(input, fs, p1) == Sort(Matches(Listing(fs, SplitInput(input).0), SplitInput(input).1, false))
  {
  }

  /** No string occurs twice. */
  predicate Distinct(s: seq<string>)
  {
    forall i, j :: 0 <= i < j < |s| ==> s[i] != s[j]
  }

  /** What a directory listing guarantees: no two entries share a name, and no name
      contains `/`. */
  predicate WellNamed(entries: seq<Entry>)
  {
    (forall i, j :: 0 <= i < j < |entries| ==> entries[i].name != entries[j].name)
    && forall i :: 0 <= i < |entries| ==> '/' !in entries[i].name
  }

  /** Each string an entry emits is its name, possibly with `/` appended. */
  lemma EmitName(e: Entry, prefix: string, fromPath: bool, c: string)
    requires c in Emit(e, prefix, fromPath)
    ensures c == e.name || (!fromPath && c == e.name + "/")
  {
  }

  /** Appending `/` to names without one neither yields another such name nor merges two
      names. */
  lemma SlashSuffix(a: string, b: string)
    requires '/' !in a && '/' !in b
    ensures a + "/" != b
    ensures a + "/" == b + "/" ==> a == b
  {
    assert (a + "/")[|a|] == '/';
    assert (a + "/")[..|a|] == a && (b + "/")[..|b|] == b;
  }

  /** Two entries with different names, neither holding `/`, emit no common string. */
  lemma EmitsApart(x: Entry, y: Entry, prefix: string, fromPath: bool, c: string)
    requires x.name != y.name && '/' !in x.name && '/' !in y.name
    requires c in Emit(x, prefix, fromPath)
    ensures c !in Emit(y, prefix, fromPath)
  {
    EmitName(x, prefix, fromPath, c);
    SlashSuffix(x.name, y.name);
    SlashSuffix(y.name, x.name);
  }

  /** What an entry emits was not gathered already from entries with other names. */
  lemma NotYetGathered(init: seq<Entry>, last: Entry, prefix: string, fromPath: bool, c: string)
    requires forall i :: 0 <= i < |init| ==> init[i].name != last.name && '/' !in init[i].name
    requires '/' !in last.name && c in Emit(last, prefix, fromPath)
    ensures c !in Matches(init, prefix, fromPath)
  {
    MatchesMember(init, prefix, fromPath, c);
    if c in Matches(init, prefix, fromPath) {
      var x :| x in init && c in Emit(x, prefix, fromPath);
      var k :| 0 <= k < |init| && init[k] == x;
      EmitsApart(last, x, prefix, fromPath, c);
    }
  }

  /** One scan of a well-named listing gathers no string twice: in the directory scan a
      name and a name with `/` appended never coincide, since names hold no `/`. */
  lemma {:induction false} MatchesDistinct(entries: seq<Entry>, prefix: string, fromPath: bool)
    requires WellNamed(entries)
    ensures Distinct(Matches(entries, prefix, fromPath))
    decreases |entries|
  {
    if entries != [] {
      var n := |entries| - 1;
      var init, last := entries[..n], entries[n];
      assert forall i :: 0 <= i < n ==> init[i] == entries[i];
      MatchesDistinct(init, prefix, fromPath);
      assert entries == init + [last];
      MatchesSnoc(init, last, prefix, fromPath);
      var m, e := Matches(init, prefix, fromPath), Emit(last, prefix, fromPath);
      assert |e| <= 1;
      if e != [] {
        NotYetGathered(init, last, prefix, fromPath, e[0]);
      }
      forall i, j | 0 <= i < j < |m + e|
        ensures (m + e)[i] != (m + e)[j]
      {
        if j >= |m| {
          assert i < |m| && (m + e)[i] in m && (m + e)[j] == e[0];
        }
      }
    }
  }

  /** In a sequence with no string twice, each string occurs at most once. */
  lemma {:induction false} DistinctCounts(s: seq<string>)
    requires Distinct(s)
    ensures forall x :: multiset(s)[x] <= 1
    decreases |s|
  {
    if s != [] {
      var n := |s| - 1;
      var init, last := s[..n], s[n];
      assert s == init + [last];
      assert forall k :: 0 <= k < n ==> init[k] == s[k];
      DistinctCounts(init);
      assert last !in init;
      assert forall x :: multiset(s)[x] == multiset(init)[x] + (if x == last then 1 else 0);
    }
  }

  /** Conversely, a sequence in which each string occurs at most once has no string twice. */
  lemma CountsDistinct(s: seq<string>)
    requires forall x :: multiset(s)[x] <= 1
    ensures Distinct(s)
  {
    forall i, j | 0 <= i < j < |s|
      ensures s[i] != s[j]
    {
      var left, mid, right := s[..i], s[i + 1..j], s[j + 1..];
      assert s == left + [s[i]] + mid + [s[j]] + right;
      assert multiset(s) == multiset(left) + multiset{s[i]} + multiset(mid) + multiset{s[j]} + multiset(right);
      assert multiset(s)[s[j]] >= multiset{s[i]}[s[j]] + 1;
    }
  }

  /** Without the fallback, a well-named search directory gives candidates that are all
      different: sorting keeps what the single directory scan gathered. */
  lemma DirectoryCandidatesDistinct(input: string, fs: FileSystem, path: Option<string>)
    requires input != []
    requires !FallsBack(fs, path, SplitInput(input).0, SplitInput(input).1)
    requires WellNamed(Listing(fs, SplitInput(input).0))
    ensures Distinct(Candidates(input, fs, path))
  {
    var g := Gathered(input, fs, path);
    assert g == Matches(Listing(fs, SplitInput(input).0), SplitInput(input).1, false);
    MatchesDistinct(Listing(fs, SplitInput(input).0), SplitInput(input).1, false);
    DistinctCounts(g);
    CountsDistinct(Sort(g));
  }

  /** The directory of the example below: a sub-directory `src` and a file `srv.txt`. */
  function SrDirectory(): FileSystem
  {
    map["." := [Entry("srv.txt", false, true, 0x1A4), Entry("src", true, false, 0x1ED)]]
  }

  lemma SrGathered(path: Option<string>)
    ensures Gathered("sr", SrDirectory(), path) == ["srv.txt", "src/"]
  {
    var listing := SrDirectory()["."];
    assert SplitInput("sr") == (".", "sr");
    assert listing[..1] == [listing[0]] && listing[..1][..0] == [];
    assert StartsWith("srv.txt", "sr") && StartsWith("src", "sr");
    assert Matches(listing[..1], "sr", false) == ["srv.txt"];
    assert listing[..|listing| - 1] == listing[..1];
    assert listing[1].isDir && listing[1].name + "/" == "src/";
    assert Emit(listing[1], "sr", false) == ["src/"];
    assert Matches(listing, "sr", false) == ["srv.txt", "src/"];
  }

  /** In a directory holding `src/` and `srv.txt`, `sr` completes to `src/` then
      `srv.txt`, whatever `PATH` holds. */
  lemma SrExample(path: Option<string>)
    ensures Candidates("sr", SrDirectory(), path) == ["src/", "srv.txt"]
  {
    SrGathered(path);
    var g := ["srv.txt", "src/"];
    assert g[1..] == ["src/"] && g[1..][1..] == [];
    assert Sort(g[1..]) == ["src/"];
    assert !Leq("srv.txt", "src/");
    assert Insert("srv.txt", ["src/"]) == ["src/", "srv.txt"];
  }
}
