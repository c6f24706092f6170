/** JavaScript's `Number(s)` on a string, as far as main.ts uses it: whether the result is NaN
    (the event decoder skips lines that are numbers) and whether it is greater than zero (a
    positive `Content-Length`).  `Number` trims white space and accepts the StringNumericLiteral
    grammar: the empty string, `0x`/`0o`/`0b` integers, and signed decimal literals with an
    optional fraction and exponent, or `Infinity`. */
module JsNumber {
  import opened Text
  import opened Radix

  predicate IsDecimalDigit(c: char)
  {
    '0' <= c <= '9'
  }

  predicate AllDecimal(s: string)
  {
    forall k :: 0 <= k < |s| ==> IsDecimalDigit(s[k])
  }

  /** Where the scanner is in a StringNumericLiteral.  `Zero` is a leading unsigned `0`, which
      may still become a `0x`, `0o` or `0b` prefix; `Dot` is a point not preceded by digits;
      `Fraction` is a point or fraction digit after some digit; `Radix(b, any)` reads digits of
      base `b` after a `0x`, `0o` or `0b` prefix. */
  datatype Phase =
    | Start | Signed | Zero | Integer | Dot | Fraction
    | ExponentMark | ExponentSign | Exponent
    | Radix(base: nat, any: bool)
    | Reject

  /** The scanner's state: the phase, whether a `-` sign was read, and whether a digit of the
      significand (not of the exponent) was non-zero. */
  datatype Scan = Scan(phase: Phase, negative: bool, nonZero: bool)

  /** The digits of the significand that a phase reads. */
  function Significant(st: Scan, c: char): bool
  {
    st.nonZero || (IsHexDigit(c) && DigitValue(c) != 0)
  }

  /** One character of the StrDecimalLiteral / NonDecimalIntegerLiteral grammar. */
  function Step(st: Scan, c: char): (r: Scan)
    ensures st.phase == Reject ==> r.phase == Reject
  {
    match st.phase
    case Start =>
      if c == '+' || c == '-' then Scan(Signed, c == '-', false)
      else if c == '0' then Scan(Zero, false, false)
      else if IsDecimalDigit(c) then Scan(Integer, false, true)
      else if c == '.' then Scan(Dot, false, false)
      else Scan(Reject, false, false)
    case Signed =>
      if IsDecimalDigit(c) then Scan(Integer, st.negative, Significant(st, c))
      else if c == '.' then Scan(Dot, st.negative, false)
      else Scan(Reject, st.negative, false)
    case Zero =>
      if c == 'x' || c == 'X' then Scan(Radix(16, false), false, false)
      else if c == 'o' || c == 'O' then Scan(Radix(8, false), false, false)
      else if c == 'b' || c == 'B' then Scan(Radix(2, false), false, false)
      else if IsDecimalDigit(c) then Scan(Integer, false, Significant(st, c))
      else if c == '.' then Scan(Fraction, false, false)
      else if c == 'e' || c == 'E' then Scan(ExponentMark, false, false)
      else Scan(Reject, false, false)
    case Integer =>
      if IsDecimalDigit(c) then Scan(Integer, st.negative, Significant(st, c))
      else if c == '.' then Scan(Fraction, st.negative, st.nonZero)
      else if c == 'e' || c == 'E' then Scan(ExponentMark, st.negative, st.nonZero)
      else Scan(Reject, st.negative, st.nonZero)
    case Dot =>
      if IsDecimalDigit(c) then Scan(Fraction, st.negative, Significant(st, c))
      else Scan(Reject, st.negative, st.nonZero)
    case Fraction =>
      if IsDecimalDigit(c) then Scan(Fraction, st.negative, Significant(st, c))
      else if c == 'e' || c == 'E' then Scan(ExponentMark, st.negative, st.nonZero)
      else Scan(Reject, st.negative, st.nonZero)
    case ExponentMark =>
      if c == '+' || c == '-' then Scan(ExponentSign, st.negative, st.nonZero)
      else if IsDecimalDigit(c) then Scan(Exponent, st.negative, st.nonZero)
      else Scan(Reject, st.negative, st.nonZero)
    case ExponentSign =>
      if IsDecimalDigit(c) then Scan(Exponent, st.negative, st.nonZero)
      else Scan(Reject, st.negative, st.nonZero)
    case Exponent =>
      if IsDecimalDigit(c) then Scan(Exponent, st.negative, st.nonZero)
      else Scan(Reject, st.negative, st.nonZero)
    case Radix(b, _) =>
      if IsDigit(c, b) then Scan(Radix(b, true), false, Significant(st, c))
      else Scan(Reject, false, st.nonZero)
    case Reject => st
  }

  function Run(t: string, st: Scan): Scan
    decreases |t|
  {
    if |t| == 0 then st else Run(t[1..], Step(st, t[0]))
  }

  /** The phases in which the literal may end. */
  predicate Complete(p: Phase)
  {
    p.Zero? || p.Integer? || p.Fraction? || p.Exponent? || (p.Radix? && p.any)
  }

  const Initial: Scan := Scan(Start, false, false)

  predicate IsInfinity(t: string)
  {
    t == "Infinity" || t == "+Infinity" || t == "-Infinity"
  }

  /** `!isNaN(Number(s))`: the trimmed text is empty, an infinity, or a literal the scanner
      reads to the end. */
  predicate IsNumeric(s: string)
  {
    var t := Trim(s);
    |t| == 0 || IsInfinity(t) || Complete(Run(t, Initial).phase)
  }

  /** `Number(s) > 0`: a complete literal without a `-` sign and with a non-zero digit, or a
      positive infinity.  (Floating-point underflow of a tiny value such as `1e-400` to zero is
      not modelled.) */
  predicate IsPositive(s: string)
  {
    var t := Trim(s);
    var st := Run(t, Initial);
    t == "Infinity" || t == "+Infinity" || (Complete(st.phase) && !st.negative && st.nonZero)
  }

  /** Only a number is positive. */
  lemma PositiveIsNumeric(s: string)
    requires IsPositive(s)
    ensures IsNumeric(s)
  {
  }

  lemma {:induction false} RejectStays(t: string, st: Scan)
    requires st.phase == Reject
    ensures Run(t, st).phase == Reject
    decreases |t|
  {
    if |t| > 0 {
      RejectStays(t[1..], Step(st, t[0]));
    }
  }

  /** Decimal digits read in the integer phase keep it there and record a non-zero digit. */
  lemma {:induction false} RunDigits(d: string, st: Scan)
    requires AllDecimal(d)
    requires st.phase == Integer
    ensures Run(d, st).phase == Integer && Run(d, st).negative == st.negative
    ensures Run(d, st).nonZero == (st.nonZero || exists k :: 0 <= k < |d| && d[k] != '0')
    decreases |d|
  {
    if |d| > 0 {
      var next := Step(st, d[0]);
      RunDigits(d[1..], next);
      if d[0] != '0' {
        assert DigitValue(d[0]) != 0;
      }
      if exists k :: 0 <= k < |d| && d[k] != '0' {
        var k :| 0 <= k < |d| && d[k] != '0';
        if k > 0 { assert d[1..][k - 1] != '0'; }
      }
      if exists k :: 0 <= k < |d[1..]| && d[1..][k] != '0' {
        var k :| 0 <= k < |d[1..]| && d[1..][k] != '0';
        assert d[k + 1] != '0';
      }
    }
  }

  /** A string of decimal digits is a number once trimmed: the chunk-size and heartbeat lines
      of the event stream are recognised. */
  lemma DigitsAreNumeric(s: string)
    requires |Trim(s)| > 0 && AllDecimal(Trim(s))
    ensures IsNumeric(s)
  {
    var t := Trim(s);
    var first := Step(Initial, t[0]);
    if |t| == 1 {
      assert Run(t, Initial) == Run(t[1..], first);
    } else {
      var second := Step(first, t[1]);
      assert second.phase == Integer;
      assert Run(t, Initial) == Run(t[2..], second) by {
        assert t[1..][1..] == t[2..];
      }
      RunDigits(t[2..], second);
    }
  }

  /** A line that starts, after white space, with `{` is never taken for a number, so every
      JSON object line of the event stream reaches `JSON.parse`. */
  lemma ObjectIsNotNumeric(s: string)
    requires |Trim(s)| > 0 && Trim(s)[0] == '{'
    ensures !IsNumeric(s)
  {
    var t := Trim(s);
    var st := Step(Initial, t[0]);
    assert st.phase == Reject;
    RejectStays(t[1..], st);
    assert Run(t, Initial) == Run(t[1..], st);
    assert !IsInfinity(t) by {
      assert "Infinity"[0] != '{' && "+Infinity"[0] != '{' && "-Infinity"[0] != '{';
    }
  }

  lemma {:induction false} TrimEndSpaces(x: string, tail: string)
    requires |x| > 0 && !IsJsSpace(Last(x))
    requires forall k :: 0 <= k < |tail| ==> IsJsSpace(tail[k])
    ensures TrimEnd(x + tail) == x
    decreases |tail|
  {
    if |tail| > 0 {
      var s := x + tail;
      assert s[..|s| - 1] == x + tail[..|tail| - 1];
      TrimEndSpaces(x, tail[..|tail| - 1]);
    } else {
      assert x + tail == x;
    }
  }

  lemma TrimDigits(d: string, tail: string)
    requires |d| > 0 && AllDecimal(d)
    requires forall k :: 0 <= k < |tail| ==> IsJsSpace(tail[k])
    ensures Trim(d + tail) == d
  {
    assert TrimStart(d + tail) == d + tail;
    TrimEndSpaces(d, tail);
  }

  /** The value of a `Content-Length` header as main.ts reads it: the printed length, possibly
      followed by the `\r` that ends the header line, is a number, and it is positive exactly
      when the length is. */
  lemma DecimalPositive(n: nat, tail: string)
    requires forall k :: 0 <= k < |tail| ==> IsJsSpace(tail[k])
    ensures IsNumeric(Decimal(n) + tail)
    ensures IsPositive(Decimal(n) + tail) <==> n > 0
  {
    var d := Decimal(n);
    DecimalDigits(n);
    TrimDigits(d, tail);
    DigitsAreNumeric(d + tail);
    DecimalScan(n);
  }

  lemma DecimalDigits(n: nat)
    ensures |Decimal(n)| > 0 && AllDecimal(Decimal(n))
  {
    var d := Decimal(n);
    forall k | 0 <= k < |d| ensures IsDecimalDigit(d[k]) {
      assert IsDigit(d[k], 10);
    }
  }

  /** The scan of a printed count ends without a sign, with a non-zero digit exactly when the
      count is positive, and as a complete literal. */
  lemma DecimalScan(n: nat)
    ensures var st := Run(Decimal(n), Initial);
      !st.negative && (st.nonZero <==> n > 0) && Complete(st.phase)
  {
    var d := Decimal(n);
    DecimalDigits(n);
    var first := Step(Initial, d[0]);
    assert Run(d, Initial) == Run(d[1..], first);
    if n > 0 {
      assert d[0] != '0';
      assert first == Scan(Integer, false, true);
      RunDigits(d[1..], first);
    } else {
      assert d == "0";
    }
  }
}
