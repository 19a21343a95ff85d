/**
 * Character-level helpers shared by the date formatting, the ISO parser and
 * the row parser: decimal digits, zero-padded numbers (the `%Y`, `%m`, `%d`,
 * `%H`, `%I` and `%M` directives of strftime) and Python's `str.strip()`.
 */
module Text {
  import opened Wrappers

  predicate IsDigit(c: char) {
    '0' <= c <= '9'
  }

  predicate AllDigits(s: string) {
    forall k :: 0 <= k < |s| ==> IsDigit(s[k])
  }

  function DigitChar(n: int): (c: char)
    requires 0 <= n < 10
    ensures IsDigit(c)
  {
    (n + '0' as int) as char
  }

  function DigitValue(c: char): (n: int)
    requires IsDigit(c)
    ensures 0 <= n < 10
    ensures DigitChar(n) == c
  {
    c as int - '0' as int
  }

  function Pow10(width: nat): (p: nat)
    ensures p >= 1
  {
    if width == 0 then 1 else 10 * Pow10(width - 1)
  }

  /** The number a string of decimal digits denotes, most significant first. */
  function DigitsValue(s: string): (n: nat)
    requires AllDigits(s)
    ensures n < Pow10(|s|)
  {
    if s == [] then 0 else DigitsValue(s[..|s| - 1]) * 10 + DigitValue(s[|s| - 1])
  }

  /** `n` written with exactly `width` decimal digits, zero-padded on the left. */
  function PadDigits(n: nat, width: nat): (s: string)
    requires n < Pow10(width)
    ensures |s| == width
    ensures AllDigits(s)
  {
    if width == 0 then "" else PadDigits(n / 10, width - 1) + [DigitChar(n % 10)]
  }

  function Pad2(n: nat): (s: string)
    requires n < 100
    ensures |s| == 2 && AllDigits(s)
  {
    PadDigits(n, 2)
  }

  function Pad4(n: nat): (s: string)
    requires n < 10000
    ensures |s| == 4 && AllDigits(s)
  {
    PadDigits(n, 4)
  }

  /** Two-digit padding spelled out: the tens digit, then the units digit. */
  lemma Pad2Of(n: nat, tens: nat, units: nat)
    requires tens < 10 && units < 10 && n == 10 * tens + units
    ensures Pad2(n) == [DigitChar(tens), DigitChar(units)]
  {
    assert PadDigits(tens, 1) == PadDigits(0, 0) + [DigitChar(tens)];
  }

  /** A run of decimal digits read as a number; anything else is refused. */
  function ParseNumber(s: string): (r: Option<nat>)
    ensures r.Some? <==> AllDigits(s)
    ensures r.Some? ==> r.value < Pow10(|s|)
  {
    if AllDigits(s) then Some(DigitsValue(s)) else None
  }

  /** Reading back a zero-padded number gives the number. */
  lemma {:induction false} PadDigitsRoundTrip(n: nat, width: nat)
    requires n < Pow10(width)
    ensures ParseNumber(PadDigits(n, width)) == Some(n)
  {
    if width > 0 {
      var s := PadDigits(n, width);
      var front := PadDigits(n / 10, width - 1);
      PadDigitsRoundTrip(n / 10, width - 1);
      assert s[..|s| - 1] == front;
      assert DigitValue(s[|s| - 1]) == n % 10;
    }
  }

  /**
   * The other direction: a run of digits is the zero-padded spelling, at
   * its own width, of the number it is read as.
   */
  lemma {:induction false} ParseNumberCanonical(s: string)
    requires ParseNumber(s).Some?
    ensures PadDigits(ParseNumber(s).value, |s|) == s
    decreases |s|
  {
    if s != [] {
      var front := s[..|s| - 1];
      var c := s[|s| - 1];
      assert AllDigits(front);
      ParseNumberCanonical(front);
      var v := DigitsValue(s);
      assert v == DigitsValue(front) * 10 + DigitValue(c);
      assert v / 10 == DigitsValue(front) && v % 10 == DigitValue(c);
      assert s == front + [c];
    }
  }

  /**
   * Python's `str.isspace()`: the characters that `str.strip()` removes
   * when called without arguments.
   */
  predicate IsSpace(c: char) {
    || ('\U{0009}' <= c <= '\U{000D}')
    || ('\U{001C}' <= c <= '\U{0020}')
    || c == '\U{0085}' || c == '\U{00A0}' || c == '\U{1680}'
    || ('\U{2000}' <= c <= '\U{200A}')
    || c == '\U{2028}' || c == '\U{2029}' || c == '\U{202F}' || c == '\U{205F}'
    || c == '\U{3000}'
  }

  /** `s` without its leading whitespace (`str.lstrip()`). */
  function TrimStart(s: string): (r: string)
    ensures |r| <= |s|
  {
    if s != [] && IsSpace(s[0]) then TrimStart(s[1..]) else s
  }

  /** `s` without its trailing whitespace (`str.rstrip()`). */
  function TrimEnd(s: string): (r: string)
    ensures |r| <= |s|
  {
    if s != [] && IsSpace(s[|s| - 1]) then TrimEnd(s[..|s| - 1]) else s
  }

  /** Python's `s.strip()` without arguments. */
  function Strip(s: string): (r: string)
    ensures |r| <= |s|
  {
    TrimEnd(TrimStart(s))
  }

  lemma {:induction false} TrimStartCutsSpace(s: string)
    ensures TrimStart(s) == s[|s| - |TrimStart(s)|..]
    ensures forall k :: 0 <= k < |s| - |TrimStart(s)| ==> IsSpace(s[k])
    ensures TrimStart(s) != [] ==> !IsSpace(TrimStart(s)[0])
  {
    if s != [] && IsSpace(s[0]) {
      TrimStartCutsSpace(s[1..]);
    }
  }

  lemma {:induction false} TrimEndCutsSpace(s: string)
    ensures TrimEnd(s) == s[..|TrimEnd(s)|]
    ensures forall k :: |TrimEnd(s)| <= k < |s| ==> IsSpace(s[k])
    ensures TrimEnd(s) != [] ==> !IsSpace(TrimEnd(s)[|TrimEnd(s)| - 1])
  {
    if s != [] && IsSpace(s[|s| - 1]) {
      TrimEndCutsSpace(s[..|s| - 1]);
    }
  }

  /**
   * What `Strip` keeps: the infix of `s` from its first non-whitespace
   * character on, cut where only whitespace follows. Everything removed on
   * either side is whitespace, and the result neither starts nor ends with
   * whitespace.
   */
  lemma StripTrims(s: string)
    ensures var a := |s| - |TrimStart(s)|;
            && a + |Strip(s)| <= |s|
            && Strip(s) == s[a..a + |Strip(s)|]
            && (forall k :: 0 <= k < a ==> IsSpace(s[k]))
            && (forall k :: a + |Strip(s)| <= k < |s| ==> IsSpace(s[k]))
            && (Strip(s) != [] ==> !IsSpace(Strip(s)[0]) && !IsSpace(Strip(s)[|Strip(s)| - 1]))
  {
    var t := TrimStart(s);
    TrimStartCutsSpace(s);
    TrimEndCutsSpace(t);
    var a := |s| - |t|;
    var r := Strip(s);
    assert r == t[..|r|];
    assert t == s[a..];
    assert r == s[a..a + |r|];
    forall k | a + |r| <= k < |s| ensures IsSpace(s[k]) {
      assert s[k] == t[k - a];
    }
    if r != [] {
      assert r[0] == t[0];
    }
  }
}
