/** The string operations of Rust's `str` that the shell relies on, over `seq<char>`:
    prefix test, last occurrence of a character, `split` on one character,
    `join`, and `trim` with Rust's notion of white space. */
module Strings {

  /** `s.starts_with(p)`. */
  predicate StartsWith(s: string, p: string)
  {
    p <= s
  }

  /** Index of the last occurrence of `c` in `s` (`rfind`), or -1 when there is none. */
  function LastIndexOf(s: string, c: char): (r: int)
    ensures -1 <= r < |s|
    ensures r >= 0 ==> s[r] == c
    ensures forall j :: r < j < |s| ==> s[j] != c
    decreases |s|
  {
    if s == [] then -1
    else if s[|s| - 1] == c then |s| - 1
    else LastIndexOf(s[..|s| - 1], c)
  }

  /** `pieces.join(sep)`: the pieces with `sep` between neighbours; empty for no pieces. */
  function Join(pieces: seq<string>, sep: string): (r: string)
    decreases |pieces|
  {
    if |pieces| == 0 then []
    else if |pieces| == 1 then pieces[0]
    else pieces[0] + sep + Join(pieces[1..], sep)
  }

  /** `s.split(sep)`: the maximal runs between occurrences of `sep`, always at least one
      (the empty string splits into one empty piece). Joining the pieces gives back `s`. */
  function SplitOn(s: string, sep: char): (r: seq<string>)
    ensures |r| >= 1
    ensures forall i :: 0 <= i < |r| ==> sep !in r[i]
    ensures Join(r, [sep]) == s
    decreases |s|
  {
    if s == [] then [[]]
    else
      var rest := SplitOn(s[1..], sep);
      if s[0] == sep then
        assert s == [sep] + s[1..];
        [[]] + rest
      else
        var r := [[s[0]] + rest[0]] + rest[1..];
        assert |rest| > 1 ==> Join(rest, [sep]) == rest[0] + [sep] + Join(rest[1..], [sep]);
        assert |rest| > 1 ==> Join(r, [sep]) == [s[0]] + rest[0] + [sep] + Join(rest[1..], [sep]) by {
          assert r[1..] == rest[1..];
        }
        assert s == [s[0]] + s[1..];
        r
  }

  /** Splitting a piece free of `sep` that is followed by `sep` yields that piece first. */
  lemma {:induction false} SplitAfterPiece(a: string, sep: char, t: string)
    requires sep !in a
    ensures SplitOn(a + [sep] + t, sep) == [a] + SplitOn(t, sep)
    decreases |a|
  {
    if a == [] {
      assert a + [sep] + t == [sep] + t;
      assert ([sep] + t)[1..] == t;
    } else {
      var s := a + [sep] + t;
      assert s[1..] == a[1..] + [sep] + t;
      SplitAfterPiece(a[1..], sep, t);
      var rest := SplitOn(s[1..], sep);
      assert rest[0] == a[1..] && rest[1..] == SplitOn(t, sep);
      assert s[0] == a[0] != sep;
      assert SplitOn(s, sep) == [[s[0]] + rest[0]] + rest[1..];
      assert [a[0]] + a[1..] == a;
    }
  }

  /** A string free of `sep` splits into itself. */
  lemma {:induction false} SplitWhole(a: string, sep: char)
    requires sep !in a
    ensures SplitOn(a, sep) == [a]
    decreases |a|
  {
    if a != [] {
      SplitWhole(a[1..], sep);
      assert [a[0]] + a[1..] == a;
    }
  }

  /** `split` inverts `join` when no piece contains the separator. */
  lemma {:induction false} SplitJoin(pieces: seq<string>, sep: char)
    requires |pieces| >= 1
    requires forall i :: 0 <= i < |pieces| ==> sep !in pieces[i]
    ensures SplitOn(Join(pieces, [sep]), sep) == pieces
    decreases |pieces|
  {
    if |pieces| == 1 {
      SplitWhole(pieces[0], sep);
    } else {
      SplitJoin(pieces[1..], sep);
      SplitAfterPiece(pieces[0], sep, Join(pieces[1..], [sep]));
      assert [pieces[0]] + pieces[1..] == pieces;
    }
  }

  /** Rust's `char::is_whitespace`: the Unicode White_Space property. */
  predicate IsWhitespace(c: char)
  {
    var n := c as int;
    (0x09 <= n <= 0x0D) || n == 0x20 || n == 0x85 || n == 0xA0 || n == 0x1680
    || (0x2000 <= n <= 0x200A) || n == 0x2028 || n == 0x2029 || n == 0x202F
    || n == 0x205F || n == 0x3000
  }

  /** Every character of `s` is white space (vacuously so for the empty string). */
  predicate AllWhitespace(s: string)
  {
    forall i :: 0 <= i < |s| ==> IsWhitespace(s[i])
  }

  /** `trim_start`: drop the leading white space. */
  function TrimStart(s: string): (r: string)
    ensures |r| <= |s| && r == s[|s| - |r|..]
    ensures AllWhitespace(s[..|s| - |r|])
    ensures r == [] <==> AllWhitespace(s)
    ensures r != [] ==> !IsWhitespace(r[0])
    decreases |s|
  {
    if s != [] && IsWhitespace(s[0]) then
      var r := TrimStart(s[1..]);
      LeadingWhitespace(s, |s| - |r|);
      r
    else s
  }

  /** White space at the front of `s`, followed by white space up to `k` in the rest,
      is white space up to `k`. */
  lemma LeadingWhitespace(s: string, k: nat)
    requires s != [] && IsWhitespace(s[0]) && 1 <= k <= |s|
    requires AllWhitespace(s[1..][..k - 1])
    ensures AllWhitespace(s[..k]) && s[1..][k - 1..] == s[k..]
    ensures AllWhitespace(s) <==> AllWhitespace(s[1..])
  {
    assert forall i :: 1 <= i < k ==> s[i] == s[1..][..k - 1][i - 1];
    assert forall i :: 1 <= i < |s| ==> s[i] == s[1..][i - 1];
  }

  /** `trim_end`: drop the trailing white space. */
  function TrimEnd(s: string): (r: string)
    ensures |r| <= |s| && r == s[..|r|]
    ensures AllWhitespace(s[|r|..])
    ensures r == [] <==> AllWhitespace(s)
    ensures r != [] ==> !IsWhitespace(r[|r| - 1])
    decreases |s|
  {
    if s != [] && IsWhitespace(s[|s| - 1]) then
      var r := TrimEnd(s[..|s| - 1]);
      assert s[..|s| - 1][|r|..] + [s[|s| - 1]] == s[|r|..];
      r
    else s
  }

  /** `trim`: drop white space at both ends. */
  function Trim(s: string): string
  {
    TrimEnd(TrimStart(s))
  }

  /** How many characters of leading white space `trim` drops. */
  function Leading(s: string): (n: nat)
    ensures n <= |s|
  {
    |s| - |TrimStart(s)|
  }

  /** What `trim` leaves is the part of the input that starts after its leading white
      space. */
  lemma TrimShape(s: string)
    ensures Leading(s) + |Trim(s)| <= |s|
    ensures Trim(s) == s[Leading(s)..Leading(s) + |Trim(s)|]
  {
    var t, r, i := TrimStart(s), Trim(s), Leading(s);
    assert r == TrimEnd(t) && t == s[i..];
    PrefixOfSuffix(s, i, t, r);
  }

  /** Only white space is dropped, before and after what `trim` leaves. */
  lemma TrimDropsWhitespace(s: string)
    ensures Leading(s) + |Trim(s)| <= |s|
    ensures AllWhitespace(s[..Leading(s)]) && AllWhitespace(s[Leading(s) + |Trim(s)|..])
  {
    var t, r, i := TrimStart(s), Trim(s), Leading(s);
    assert i == |s| - |t| && AllWhitespace(s[..|s| - |t|]);
    assert r == TrimEnd(t) && t == s[i..] && AllWhitespace(t[|r|..]);
    PrefixOfSuffix(s, i, t, r);
  }

  /** What `trim` leaves neither starts nor ends with white space. */
  lemma TrimEnds(s: string)
    ensures Trim(s) != [] ==> !IsWhitespace(Trim(s)[0]) && !IsWhitespace(Trim(s)[|Trim(s)| - 1])
  {
    var t := TrimStart(s);
    var r := TrimEnd(t);
    assert r == Trim(s);
    if r != [] {
      assert r[0] == t[0];
    }
  }

  /** A prefix of a suffix is a slice, followed by the rest of the input. */
  lemma PrefixOfSuffix(s: string, i: nat, t: string, r: string)
    requires i <= |s| && t == s[i..] && |r| <= |t| && r == t[..|r|]
    ensures i + |r| <= |s| && r == s[i..i + |r|] && t[|r|..] == s[i + |r|..]
  {
  }

  /** A line trims to nothing exactly when all of it is white space. */
  lemma TrimEmptyIffBlank(s: string)
    ensures Trim(s) == [] <==> AllWhitespace(s)
  {
    var t := TrimStart(s);
    if t != [] {
      assert !IsWhitespace(t[0]);
      assert !AllWhitespace(t);
    }
  }
}
