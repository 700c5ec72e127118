/** Text helpers shared by the lexer, the values and the error messages:
    decimal rendering and parsing of integers with Go's `strconv` rules,
    prefixes and indentation. Go strings are byte strings; here a string is
    a `seq<char>`, which agrees with Go for the ASCII text the interpreter
    inspects. */
module Text {

  import opened Outcomes

  /** Bounds of Go's `int` on a 64-bit platform. */
  const MinInt64: int := -0x8000_0000_0000_0000
  const MaxInt64: int := 0x7FFF_FFFF_FFFF_FFFF

  predicate InInt64(i: int) {
    MinInt64 <= i <= MaxInt64
  }

  predicate IsDigit(c: char) {
    '0' <= c <= '9'
  }

  predicate AllDigits(s: string) {
    forall i :: 0 <= i < |s| ==> IsDigit(s[i])
  }

  function DigitValue(c: char): (d: nat)
    requires IsDigit(c)
    ensures d < 10
  {
    (c as int - '0' as int) as nat
  }

  function DigitChar(d: nat): (c: char)
    requires d < 10
    ensures IsDigit(c) && DigitValue(c) == d
  {
    ('0' as int + d) as char
  }

  /** The value of a string of decimal digits, most significant first. */
  function DigitsValue(s: string): nat
    requires AllDigits(s)
  {
    if |s| == 0 then 0
    else 10 * DigitsValue(s[..|s| - 1]) + DigitValue(s[|s| - 1])
  }

  /** `strconv.Itoa` for a non-negative number: shortest decimal form. */
  function NatToString(n: nat): (s: string)
    ensures |s| > 0 && AllDigits(s)
    ensures |s| > 1 ==> s[0] != '0'
  {
    if n < 10 then [DigitChar(n)]
    else NatToString(n / 10) + [DigitChar(n % 10)]
  }

  /** `strconv.Itoa`: a leading '-' for negative numbers, then the digits. */
  function IntToString(i: int): (s: string)
    ensures |s| > 0
    ensures i < 0 <==> s[0] == '-'
  {
    if i < 0 then "-" + NatToString(-i) else NatToString(i)
  }

  /** The digits after an optional leading sign. */
  function Unsigned(s: string): string {
    if |s| > 0 && (s[0] == '+' || s[0] == '-') then s[1..] else s
  }

  /** The syntax `strconv.Atoi` accepts: an optional '+' or '-', then at
      least one decimal digit, and nothing else. */
  predicate IntSyntax(s: string) {
    |Unsigned(s)| > 0 && AllDigits(Unsigned(s))
  }

  /** The value the text denotes, of any size. */
  function SignedValue(s: string): int
    requires IntSyntax(s)
  {
    if s[0] == '-' then -(DigitsValue(Unsigned(s)) as int) else DigitsValue(Unsigned(s)) as int
  }

  /** `strconv.Atoi`: the value must also fit Go's 64-bit `int`. `None` is
      the error result. */
  function Atoi(s: string): (r: Option<int>)
    ensures r.Some? ==> InInt64(r.value)
    ensures r.Some? <==> IntSyntax(s) && InInt64(SignedValue(s))
  {
    if !IntSyntax(s) then None
    else
      var v := SignedValue(s);
      if InInt64(v) then Some(v) else None
  }

  /** The integer `strconv.Atoi` hands back together with its error: zero
      for a syntax error, and the 64-bit bound on the value's side when the
      value is out of range. */
  function AtoiValue(s: string): (v: int)
    ensures InInt64(v)
    ensures Atoi(s).Some? ==> v == Atoi(s).value
    ensures !IntSyntax(s) ==> v == 0
  {
    if !IntSyntax(s) then 0
    else
      var v := SignedValue(s);
      if v < MinInt64 then MinInt64 else if v > MaxInt64 then MaxInt64 else v
  }

  /** The error of `strconv.Atoi`; the quoting of the text is simplified to
      plain double quotes. */
  function AtoiError(s: string): (r: Option<string>)
    ensures r.None? <==> Atoi(s).Some?
  {
    if !IntSyntax(s) then Some("strconv.Atoi: parsing \"" + s + "\": invalid syntax")
    else if !InInt64(SignedValue(s)) then Some("strconv.Atoi: parsing \"" + s + "\": value out of range")
    else None
  }

  /** Go's 64-bit signed addition, which wraps around. */
  function Wrap64(i: int): (r: int)
    ensures InInt64(r)
    ensures InInt64(i) ==> r == i
    ensures (r - i) % 0x1_0000_0000_0000_0000 == 0
  {
    (i - MinInt64) % 0x1_0000_0000_0000_0000 + MinInt64
  }

  lemma {:induction false} DigitsValueOfNatToString(n: nat)
    ensures DigitsValue(NatToString(n)) == n
  {
    if n >= 10 {
      var s := NatToString(n);
      var p := NatToString(n / 10);
      assert s == p + [DigitChar(n % 10)];
      assert s[..|s| - 1] == p;
      DigitsValueOfNatToString(n / 10);
    }
  }

  /** Rendering an integer and parsing it back gives the same integer, for
      every value a Go `int` can hold. */
  lemma AtoiOfIntToString(i: int)
    requires InInt64(i)
    ensures Atoi(IntToString(i)) == Some(i)
  {
    var s := IntToString(i);
    if i < 0 {
      assert s[1..] == NatToString(-i);
      DigitsValueOfNatToString(-i);
    } else {
      DigitsValueOfNatToString(i);
    }
  }

  /** `strings.HasPrefix`. */
  predicate HasPrefix(s: string, p: string) {
    |p| <= |s| && forall i :: 0 <= i < |p| ==> s[i] == p[i]
  }

  /** `strings.Repeat(" ", n)`. */
  function Spaces(n: nat): (s: string)
    ensures |s| == n && forall i :: 0 <= i < n ==> s[i] == ' '
  {
    if n == 0 then "" else Spaces(n - 1) + " "
  }

  /** Joins the parts with the separator between consecutive parts. */
  function Join(sep: string, parts: seq<string>): string {
    if |parts| == 0 then ""
    else if |parts| == 1 then parts[0]
    else parts[0] + sep + Join(sep, parts[1..])
  }
}
