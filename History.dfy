/** The numbered listing the `history` builtin prints (src/main.rs lines 282-286). */
module History {
  import opened Numbers

  /** One line of the `history` listing: the 1-based number right-aligned in five
      columns, two spaces, the entry. */
  function HistoryLine(number: nat, entry: string): string
  {
    PadLeft(Decimal(number), 5) + "  " + entry
  }

  /** A listing line is exactly the decimal rendering of the number (digits only, no
      leading zero, reading back as the number), preceded by spaces up to five columns
      and never cut, then two spaces, then the entry itself. */
  lemma HistoryLineShape(number: nat, entry: string)
    ensures var d := Decimal(number);
      var k := if |d| < 5 then 5 else |d|;
      && HistoryLine(number, entry) == Spaces(k - |d|) + d + "  " + entry
      && AllDigits(d) && DigitsValue(d) == number && (d[0] == '0' ==> number == 0)
  {
    DecimalDigits(number);
  }

  /** The `history` listing (lines 282-286): one numbered line per entry, in order. */
  function HistoryLines(history: seq<string>): (r: seq<string>)
    ensures |r| == |history|
    ensures forall i :: 0 <= i < |r| ==> r[i] == HistoryLine(i + 1, history[i])
  {
    seq(|history|, i requires 0 <= i < |history| => HistoryLine(i + 1, history[i]))
  }

  /** Recording one more entry adds one line, numbered after the others, and leaves the
      earlier lines as they were. */
  lemma HistoryLinesAppend(history: seq<string>, entry: string)
    ensures HistoryLines(history + [entry]) == HistoryLines(history) + [HistoryLine(|history| + 1, entry)]
  {
    var a, b := HistoryLines(history + [entry]), HistoryLines(history) + [HistoryLine(|history| + 1, entry)];
    assert |a| == |b|;
    forall i | 0 <= i < |a| ensures a[i] == b[i] {
      if i < |history| {
        assert (history + [entry])[i] == history[i];
      }
    }
  }

  /** The loop of the `history` builtin (lines 282-286): one numbered line per entry,
      in the order they were recorded. */
  method HistoryListing(history: seq<string>) returns (lines: seq<string>)
    ensures lines == HistoryLines(history)
  {
    lines := [];
    var i := 0;
    while i < |history|
      invariant 0 <= i <= |history|
      invariant |lines| == i
      invariant forall j :: 0 <= j < i ==> lines[j] == HistoryLine(j + 1, history[j])
    {
      lines := lines + [HistoryLine(i + 1, history[i])];
      i := i + 1;
    }
  }
}
