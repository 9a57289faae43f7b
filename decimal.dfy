/** Decimal numbers as the solvers read them: Rust's `u32::from_str`
    restricted to ASCII, and an optional-value type. */
module Decimal {

  datatype Option<T> = None | Some(value: T)

  /** The largest value of a Rust `u32`. */
  const U32_MAX: nat := 0xFFFF_FFFF

  predicate IsDigit(c: char) {
    '0' <= c <= '9'
  }

  predicate AllDigits(s: string) {
    forall i :: 0 <= i < |s| ==> IsDigit(s[i])
  }

  function DigitValue(c: char): (d: nat)
    requires IsDigit(c)
    ensures d < 10
  {
    c as int - '0' as int
  }

  function DigitChar(d: nat): (c: char)
    requires d < 10
    ensures IsDigit(c) && DigitValue(c) == d
  {
    ('0' as int + d) as char
  }

  /** The value of a run of digits, most significant first. */
  function Value(s: string): nat
    requires AllDigits(s)
  {
    if s == [] then 0 else Value(s[..|s| - 1]) * 10 + DigitValue(s[|s| - 1])
  }

  /** `u32::from_str`: an optional '+', then one or more digits, and a value
      that fits in 32 bits; anything else is an error. */
  function ParseU32(s: string): (r: Option<nat>)
    ensures r.Some? ==> r.value <= U32_MAX
    ensures r.Some? && s != [] && s[0] != '+' ==> AllDigits(s) && r.value == Value(s)
    ensures r.Some? ==> s != [] && forall i :: 0 <= i < |s| ==> IsDigit(s[i]) || (i == 0 && s[i] == '+')
  {
    var digits := if s != [] && s[0] == '+' then s[1..] else s;
    if digits != [] && AllDigits(digits) && Value(digits) <= U32_MAX then Some(Value(digits)) else None
  }

  /** `u32::from_str` case by case: a run of digits parses to its value
      exactly when that fits in 32 bits, leading zeros included; a '+' in
      front changes nothing; any other text is an error. */
  lemma ParseU32Cases(s: string)
    ensures s != [] && AllDigits(s) ==>
      ParseU32(s) == if Value(s) <= U32_MAX then Some(Value(s)) else None
    ensures ParseU32("+" + s) ==
      if s != [] && AllDigits(s) && Value(s) <= U32_MAX then Some(Value(s)) else None
    ensures s == [] || (s[0] != '+' && !AllDigits(s)) ==> ParseU32(s) == None
  {
    assert ("+" + s)[1..] == s;
  }

  /** The shortest decimal spelling of n. */
  function Show(n: nat): (s: string)
    ensures s != [] && AllDigits(s)
    decreases n
  {
    if n < 10 then [DigitChar(n)] else Show(n / 10) + [DigitChar(n % 10)]
  }

  lemma {:induction false} ValueOfShow(n: nat)
    ensures Value(Show(n)) == n
    decreases n
  {
    if n >= 10 {
      ValueOfShow(n / 10);
      var s := Show(n);
      assert s[..|s| - 1] == Show(n / 10);
    }
  }

  /** Printing a `u32` and parsing it back gives the same number. */
  lemma ParseShowRoundTrip(n: nat)
    requires n <= U32_MAX
    ensures ParseU32(Show(n)) == Some(n)
  {
    ValueOfShow(n);
  }

  /** Appending a digit multiplies the value by ten and adds the digit. */
  lemma ValueAppend(s: string, c: char)
    requires AllDigits(s) && IsDigit(c)
    ensures AllDigits(s + [c]) && Value(s + [c]) == Value(s) * 10 + DigitValue(c)
  {
    assert (s + [c])[..|s|] == s;
  }

  /** A number that does not fit in 32 bits is rejected, not wrapped. */
  lemma ParseRejectsOverflow(n: nat)
    requires n > U32_MAX
    ensures ParseU32(Show(n)) == None
  {
    ValueOfShow(n);
  }

  /** Examples of what `u32::from_str` accepts and rejects. */
  lemma ParseExamples()
    ensures ParseU32("+12") == Some(12)
    ensures ParseU32("") == None && ParseU32("+") == None && ParseU32("1a") == None
  {
    ValueAppend("1", '2');
    assert "1" + ['2'] == "12";
    assert !AllDigits("1a") by { assert !IsDigit("1a"[1]); }
  }
}
