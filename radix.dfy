/** Digits in base 10 and base 16: how main.ts and agent/agent.go print integers
    (`${n}`, `%d`) and how main.ts reads a chunk-size line (`parseInt(`0x${s}`, 16)`). */
module Radix {
  import opened Common
  import opened Text

  predicate IsHexDigit(c: char)
  {
    ('0' <= c <= '9') || ('a' <= c <= 'f') || ('A' <= c <= 'F')
  }

  function DigitValue(c: char): (d: nat)
    requires IsHexDigit(c)
    ensures d < 16
  {
    if '0' <= c <= '9' then (c as int) - ('0' as int)
    else if 'a' <= c <= 'f' then (c as int) - ('a' as int) + 10
    else (c as int) - ('A' as int) + 10
  }

  /** The lower-case character for a digit value below 16. */
  function DigitChar(d: nat): (c: char)
    requires d < 16
    ensures IsHexDigit(c) && DigitValue(c) == d
  {
    if d < 10 then (('0' as int) + d) as char else (('a' as int) + d - 10) as char
  }

  /** `c` is a digit of `base` (at most 16). */
  predicate IsDigit(c: char, base: nat)
  {
    IsHexDigit(c) && DigitValue(c) < base
  }

  predicate AllDigits(s: string, base: nat)
  {
    forall k :: 0 <= k < |s| ==> IsDigit(s[k], base)
  }

  /** The number a string of digits denotes, most significant digit first. */
  function Value(s: string, base: nat): nat
    requires AllDigits(s, base)
  {
    if |s| == 0 then 0 else Value(AllButLast(s), base) * base + DigitValue(Last(s))
  }

  /** The digits of `n` in `base`, most significant first, lower-case, no leading zero. */
  function Render(n: nat, base: nat): (r: string)
    requires 2 <= base <= 16
    ensures |r| >= 1 && AllDigits(r, base)
    ensures r[0] == '0' ==> n == 0 && r == "0"
    decreases n
  {
    if n < base then [DigitChar(n)]
    else
      DivFacts(n, base);
      var q := n / base;
      var d := Render(q, base);
      var r := d + [DigitChar(n % base)];
      assert r[0] == d[0];
      r
  }

  lemma DivFacts(n: nat, base: nat)
    requires 2 <= base <= 16 && n >= base
    ensures 0 < n / base < n && n % base < base
    ensures n == (n / base) * base + n % base
  {
  }

  /** Reading back what `Render` printed gives the number again. */
  lemma {:induction false} RenderValue(n: nat, base: nat)
    requires 2 <= base <= 16
    ensures Value(Render(n, base), base) == n
    decreases n
  {
    if n >= base {
      DivFacts(n, base);
      var q := n / base;
      var r := Render(n, base);
      RenderValue(q, base);
      assert AllButLast(r) == Render(q, base);
      assert Last(r) == DigitChar(n % base);
      assert Value(r, base) == q * base + n % base;
    }
  }

  /** `${n}` and Go's `%d` for a non-negative integer. */
  function Decimal(n: nat): (r: string)
    ensures |r| >= 1 && AllDigits(r, 10)
  {
    Render(n, 10)
  }

  /** Decimal printing is injective: different byte counts print differently. */
  lemma DecimalInjective(m: nat, n: nat)
    requires Decimal(m) == Decimal(n)
    ensures m == n
  {
    RenderValue(m, 10);
    RenderValue(n, 10);
  }

  // ---------------------------------------------------------------------------------------
  // parseInt(`0x${s}`, 16)

  /** The length of the longest run of hexadecimal digits at the start of `s`. */
  function HexRun(s: string): (n: nat)
    ensures n <= |s|
    ensures forall k :: 0 <= k < n ==> IsHexDigit(s[k])
    ensures n < |s| ==> !IsHexDigit(s[n])
    decreases |s|
  {
    if |s| > 0 && IsHexDigit(s[0]) then 1 + HexRun(s[1..]) else 0
  }

  /** `parseInt(`0x${s}`, 16)`.  The `0x` put in front is removed again as the radix-16 prefix,
      so the result is the value of the run of hexadecimal digits that `s` starts with; no sign
      and no white space is skipped, and without such a run the result is NaN (`None`). */
  function ParseHexPrefix(s: string): (r: Option<nat>)
    ensures r.None? <==> |s| == 0 || !IsHexDigit(s[0])
  {
    var n := HexRun(s);
    if n == 0 then None
    else
      assert AllDigits(s[..n], 16);
      Some(Value(s[..n], 16))
  }

  lemma {:induction false} HexRunOfDigits(d: string, rest: string)
    requires AllDigits(d, 16)
    requires |rest| == 0 || !IsHexDigit(rest[0])
    ensures HexRun(d + rest) == |d|
    decreases |d|
  {
    if |d| > 0 {
      assert (d + rest)[1..] == d[1..] + rest;
      HexRunOfDigits(d[1..], rest);
    }
  }

  /** A size printed in hexadecimal and followed by anything but another hexadecimal digit is
      read back as that size. */
  lemma HexRoundTrip(n: nat, rest: string)
    requires |rest| == 0 || !IsHexDigit(rest[0])
    ensures ParseHexPrefix(Render(n, 16) + rest) == Some(n)
  {
    var d := Render(n, 16);
    HexRunOfDigits(d, rest);
    assert (d + rest)[..|d|] == d;
    RenderValue(n, 16);
  }
}
