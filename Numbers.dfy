/** Decimal numbers as the shell reads and writes them: Rust's `str::parse::<i32>` for
    the `exit` status, and decimal rendering with right alignment (`{:>5}`) for the
    numbered `history` listing. */
module Numbers {
  import opened Wrappers

  const MinI32: int := -0x8000_0000
  const MaxI32: int := 0x7FFF_FFFF

  predicate IsDigit(c: char)
  {
    '0' <= c <= '9'
  }

  predicate AllDigits(s: string)
  {
    forall i :: 0 <= i < |s| ==> IsDigit(s[i])
  }

  /** The value of a string of decimal digits, most significant first. */
  function DigitsValue(s: string): nat
    requires AllDigits(s)
    decreases |s|
  {
    if s == [] then 0 else DigitsValue(s[..|s| - 1]) * 10 + (s[|s| - 1] as int - '0' as int)
  }

  /** `s.parse::<i32>().ok()`: an optional `+` or `-`, then one or more decimal digits
      whose signed value fits in 32 bits; anything else (empty, a lone sign, any other
      character, overflow) is no number. */
  function ParseI32(s: string): (r: Option<int>)
    ensures r.Some? ==> MinI32 <= r.value <= MaxI32
  {
    if s == [] then None
    else if (s[0] == '+' || s[0] == '-') && |s| == 1 then None
    else
      var digits := if s[0] == '+' || s[0] == '-' then s[1..] else s;
      if !AllDigits(digits) then None
      else
        var v := if s[0] == '-' then -(DigitsValue(digits) as int) else DigitsValue(digits);
        if MinI32 <= v <= MaxI32 then Some(v) else None
  }

  function DigitChar(d: nat): (c: char)
    requires d < 10
    ensures IsDigit(c) && c as int - '0' as int == d
  {
    ('0' as int + d) as char
  }

  /** Decimal rendering of a natural number, most significant digit first. */
  function Decimal(n: nat): (r: string)
    ensures r != []
    decreases n
  {
    if n < 10 then [DigitChar(n)] else Decimal(n / 10) + [DigitChar(n % 10)]
  }

  /** The rendering is all digits, reads back as `n`, and has no leading zero. */
  lemma {:induction false} DecimalDigits(n: nat)
    ensures AllDigits(Decimal(n)) && DigitsValue(Decimal(n)) == n
    ensures Decimal(n)[0] == '0' ==> n == 0
    decreases n
  {
    if n >= 10 {
      DecimalDigits(n / 10);
      var r := Decimal(n);
      assert r[..|r| - 1] == Decimal(n / 10);
      assert r[0] == Decimal(n / 10)[0];
    }
  }

  /** Display of an integer: a minus sign for negative values, then the digits. */
  function IntToString(n: int): string
  {
    if n < 0 then "-" + Decimal(-n) else Decimal(n)
  }

  /** Parsing reads back every 32-bit value as it is displayed. */
  lemma ParseDisplayed(n: int)
    requires MinI32 <= n <= MaxI32
    ensures ParseI32(IntToString(n)) == Some(n)
  {
    var s := IntToString(n);
    DecimalDigits(if n < 0 then -n else n);
    if n < 0 {
      assert s[1..] == Decimal(-n);
    }
  }

  /** `k` spaces. */
  function Spaces(k: nat): (r: string)
    ensures |r| == k && forall i :: 0 <= i < k ==> r[i] == ' '
  {
    if k == 0 then [] else Spaces(k - 1) + [' ']
  }

  /** `format!("{:>width$}", s)`: `s` right-aligned in a field of `width` characters,
      filled with spaces on the left; never truncated. */
  function PadLeft(s: string, width: nat): (r: string)
    ensures |r| == if |s| < width then width else |s|
    ensures r == Spaces(|r| - |s|) + s
  {
    if width <= |s| then s else Spaces(width - |s|) + s
  }
}
