/** Python's `int(s)` and `str(n)` on the only strings the normaliser hands
    them: ASCII digit runs, optionally signed. */
module PyInt {
  import opened PyStr
  import opened Wrappers

  function DigitValue(c: char): nat
    requires IsDigit(c)
  {
    c as nat - '0' as nat
  }

  function DigitChar(d: nat): (c: char)
    requires d < 10
    ensures IsDigit(c) && DigitValue(c) == d
  {
    (d + '0' as nat) as char
  }

  /** The base-10 value of a string of ASCII digits; leading zeros are allowed
      and add nothing ("007" is 7). */
  function DigitsValue(s: string): nat
    requires AllDigits(s)
  {
    if s == [] then 0 else DigitsValue(s[..|s| - 1]) * 10 + DigitValue(s[|s| - 1])
  }

  /** A digit string as `str()` prints a non-negative integer: at least one
      digit and no leading zero except in "0" itself. */
  predicate Canonical(s: string) {
    s != [] && AllDigits(s) && (s[0] == '0' ==> |s| == 1)
  }

  /** `str(n)` for a non-negative integer. */
  function Decimal(n: nat): (s: string)
    ensures Canonical(s)
    ensures s[0] == '0' <==> n == 0
  {
    if n < 10 then [DigitChar(n)] else Decimal(n / 10) + [DigitChar(n % 10)]
  }

  /** Reading back what `str()` printed gives the number. */
  lemma {:induction false} DecimalValue(n: nat)
    ensures DigitsValue(Decimal(n)) == n
  {
    if n >= 10 {
      DecimalValue(n / 10);
      var s := Decimal(n);
      assert s[..|s| - 1] == Decimal(n / 10);
    }
  }

  lemma {:induction false} LeadingDigitBound(s: string)
    requires AllDigits(s) && s != [] && s[0] != '0'
    ensures DigitsValue(s) > 0
    ensures |s| > 1 ==> DigitsValue(s) >= 10
  {
    if |s| > 1 {
      LeadingDigitBound(s[..|s| - 1]);
    }
  }

  /** Printing the value of a canonical digit string gives the string back. */
  lemma {:induction false} ValueDecimal(s: string)
    requires Canonical(s)
    ensures Decimal(DigitsValue(s)) == s
  {
    if |s| > 1 {
      var init := s[..|s| - 1];
      LeadingDigitBound(s);
      ValueDecimal(init);
      assert init + [s[|s| - 1]] == s;
    }
  }

  /** The literals `int()` accepts on this path: an optional sign, then one or
      more ASCII digits. */
  predicate IntLiteral(s: string) {
    || (s != [] && AllDigits(s))
    || (|s| > 1 && (s[0] == '-' || s[0] == '+') && AllDigits(s[1..]))
  }

  /** `int(s)`: the value of a signed digit string, or ValueError. */
  function ParseInt(s: string): (r: Result<int>)
    ensures r.Success? <==> IntLiteral(s)
    ensures r.Failure? ==> r.error == ValueError(s)
    ensures r.Success? && s[0] != '-' ==> r.value >= 0
  {
    if s != [] && AllDigits(s) then Success(DigitsValue(s))
    else if |s| > 1 && s[0] == '-' && AllDigits(s[1..]) then Success(-(DigitsValue(s[1..]) as int))
    else if |s| > 1 && s[0] == '+' && AllDigits(s[1..]) then Success(DigitsValue(s[1..]))
    else Failure(ValueError(s))
  }

  /** `int(str(n)) == n` and `int("-" + str(n)) == -n`. */
  lemma ParseDecimal(n: nat)
    ensures ParseInt(Decimal(n)) == Success(n)
    ensures ParseInt("-" + Decimal(n)) == Success(-(n as int))
  {
    DecimalValue(n);
    assert ("-" + Decimal(n))[1..] == Decimal(n);
  }
}
