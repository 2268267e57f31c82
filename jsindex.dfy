/**
 * Array indices as JavaScript property keys. A key is an array index when
 * it is the canonical decimal text of an integer below 2^32 - 1 (digits
 * only, no sign, no leading zero); `Object.keys` of an array yields its
 * indices in this text form, and an assignment with any other key sets a
 * named property instead of an element.
 */
module JsIndex {
  import opened Wrappers

  /** 2^32 - 1: the first integer that is not an array index. */
  const MaxIndexBound: nat := 0xFFFF_FFFF

  predicate IsDigit(c: char)
  {
    '0' <= c <= '9'
  }

  function DigitChar(d: nat): (c: char)
    requires d < 10
    ensures IsDigit(c)
  {
    ['0', '1', '2', '3', '4', '5', '6', '7', '8', '9'][d]
  }

  function DigitValue(c: char): (d: nat)
    requires IsDigit(c)
    ensures d < 10 && DigitChar(d) == c
  {
    if c == '0' then 0 else if c == '1' then 1 else if c == '2' then 2 else if c == '3' then 3
    else if c == '4' then 4 else if c == '5' then 5 else if c == '6' then 6 else if c == '7' then 7
    else if c == '8' then 8 else 9
  }

  predicate AllDigits(s: string)
  {
    forall i :: 0 <= i < |s| ==> IsDigit(s[i])
  }

  /** The number a string of decimal digits denotes, most significant digit first. */
  function DigitsValue(s: string): nat
    requires AllDigits(s)
  {
    if s == [] then 0 else DigitsValue(s[..|s| - 1]) * 10 + DigitValue(s[|s| - 1])
  }

  /** `String(n)`: the decimal text of `n`, with no leading zero. */
  function DecimalString(n: nat): (s: string)
    ensures |s| >= 1 && AllDigits(s)
  {
    if n < 10 then [DigitChar(n)] else DecimalString(n / 10) + [DigitChar(n % 10)]
  }

  /** Canonical decimal text: non-empty digits, and no leading zero unless the text is `0`. */
  predicate Canonical(s: string)
  {
    |s| >= 1 && AllDigits(s) && (|s| == 1 || s[0] != '0')
  }

  /** The element index a property key denotes, if it is an array index. */
  function ArrayIndex(key: string): (r: Option<nat>)
    ensures r.Some? ==> r.value < MaxIndexBound
  {
    if Canonical(key) && DigitsValue(key) < MaxIndexBound then Some(DigitsValue(key)) else None
  }

  /** Reading back the decimal text of a number gives the number. */
  lemma {:induction false} DecimalStringValue(n: nat)
    ensures DigitsValue(DecimalString(n)) == n
    ensures Canonical(DecimalString(n))
  {
    var s := DecimalString(n);
    if n >= 10 {
      DecimalStringValue(n / 10);
      assert s[..|s| - 1] == DecimalString(n / 10);
      assert s[0] == DecimalString(n / 10)[0];
    }
  }

  /** A canonical decimal text is the decimal text of the number it denotes. */
  lemma {:induction false} CanonicalIsDecimalString(s: string)
    requires Canonical(s)
    ensures DecimalString(DigitsValue(s)) == s
    decreases |s|
  {
    var n := |s| - 1;
    if n == 0 {
      assert DigitsValue(s) == DigitValue(s[0]) by {
        assert s[..0] == [];
      }
    } else {
      var init := s[..n];
      assert Canonical(init) by {
        assert init[0] == s[0];
      }
      CanonicalIsDecimalString(init);
      LeadingDigitPositive(init);
      var v := DigitsValue(s);
      assert v / 10 == DigitsValue(init) && v % 10 == DigitValue(s[n]) by {
        assert v == DigitsValue(init) * 10 + DigitValue(s[n]);
      }
      assert s == init + [s[n]];
    }
  }

  /** Canonical text of two or more digits denotes a number of at least ten. */
  lemma {:induction false} LeadingDigitPositive(s: string)
    requires Canonical(s)
    ensures |s| >= 2 ==> DigitsValue(s) >= 10
    ensures DigitsValue(s) >= 1 || s == "0"
    decreases |s|
  {
    var n := |s| - 1;
    if n >= 1 {
      var init := s[..n];
      assert init[0] == s[0];
      LeadingDigitPositive(init);
      if n == 1 {
        assert s[..1] == [s[0]] && [s[0]][..0] == [];
        assert DigitsValue(init) == DigitValue(s[0]);
      }
    } else {
      assert s[..0] == [];
      if DigitValue(s[0]) == 0 {
        assert s == "0";
      }
    }
  }

  /** A key is an array index exactly when it is the decimal text of a number below 2^32 - 1. */
  lemma ArrayIndexIff(key: string, n: nat)
    ensures ArrayIndex(key) == Some(n) <==> n < MaxIndexBound && key == DecimalString(n)
  {
    if ArrayIndex(key) == Some(n) {
      CanonicalIsDecimalString(key);
    }
    if n < MaxIndexBound && key == DecimalString(n) {
      DecimalStringValue(n);
    }
  }
}
