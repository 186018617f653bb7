/** The five regular expressions of the normaliser, each as a matcher that
    says how long a match starting at the front of a string is (0: no match).
    Each matcher is proved against a predicate that describes the language of
    its regex: for the four patterns built from greedy quantifiers the match is
    the LONGEST prefix in the language; for the ordinal pattern, whose
    alternation Python tries in order, a match exists exactly when some prefix
    is in the language. None of the patterns matches the empty string, and none
    looks behind its start, so matching at a position depends only on the text
    from that position on. */
module Patterns {
  import opened PyStr

  /** The class `[0-9\,]`. */
  predicate IsGroupChar(c: char) {
    IsDigit(c) || c == ','
  }

  /** The class `[0-9\,\.]`. */
  predicate IsAmountChar(c: char) {
    IsDigit(c) || c == ',' || c == '.'
  }

  /** The group `(₽|\$|€|¥)`. The pound sign is not among them. */
  predicate IsCurrencySymbol(c: char) {
    c == '₽' || c == '$' || c == '€' || c == '¥'
  }

  /** Length of the longest prefix of ASCII digits. */
  function DigitSpan(s: string): (n: nat)
    ensures n <= |s|
    ensures forall k :: 0 <= k < n ==> IsDigit(s[k])
    ensures n < |s| ==> !IsDigit(s[n])
  {
    if s != [] && IsDigit(s[0]) then 1 + DigitSpan(s[1..]) else 0
  }

  /** Length of the longest prefix drawn from `[0-9\,]`. */
  function GroupSpan(s: string): (n: nat)
    ensures n <= |s|
    ensures forall k :: 0 <= k < n ==> IsGroupChar(s[k])
    ensures n < |s| ==> !IsGroupChar(s[n])
  {
    if s != [] && IsGroupChar(s[0]) then 1 + GroupSpan(s[1..]) else 0
  }

  /** Length of the longest prefix drawn from `[0-9\,\.]`. */
  function AmountSpan(s: string): (n: nat)
    ensures n <= |s|
    ensures forall k :: 0 <= k < n ==> IsAmountChar(s[k])
    ensures n < |s| ==> !IsAmountChar(s[n])
  {
    if s != [] && IsAmountChar(s[0]) then 1 + AmountSpan(s[1..]) else 0
  }

  /** The end of `s[..n]` once it is trimmed back to its last digit: the point
      a greedy run must give back to for a trailing `[0-9]` to match. */
  function LastDigitEnd(s: string, n: nat): (e: nat)
    requires n <= |s|
    ensures e <= n
    ensures e > 0 ==> IsDigit(s[e - 1])
    ensures forall k :: e <= k < n ==> !IsDigit(s[k])
  {
    if n == 0 then 0 else if IsDigit(s[n - 1]) then n else LastDigitEnd(s, n - 1)
  }

  /** The runs are pinned down by their contracts: a length with the same
      three properties is the run's length. */
  lemma DigitSpanIs(s: string, n: nat)
    requires n <= |s| && (forall k :: 0 <= k < n ==> IsDigit(s[k]))
    requires n < |s| ==> !IsDigit(s[n])
    ensures DigitSpan(s) == n
  {
  }

  lemma GroupSpanIs(s: string, n: nat)
    requires n <= |s| && (forall k :: 0 <= k < n ==> IsGroupChar(s[k]))
    requires n < |s| ==> !IsGroupChar(s[n])
    ensures GroupSpan(s) == n
  {
  }

  lemma AmountSpanIs(s: string, n: nat)
    requires n <= |s| && (forall k :: 0 <= k < n ==> IsAmountChar(s[k]))
    requires n < |s| ==> !IsAmountChar(s[n])
    ensures AmountSpan(s) == n
  {
  }

  lemma LastDigitEndIs(s: string, n: nat, e: nat)
    requires e <= n <= |s| && (e > 0 ==> IsDigit(s[e - 1]))
    requires forall k :: e <= k < n ==> !IsDigit(s[k])
    ensures LastDigitEnd(s, n) == e
  {
  }

  lemma {:induction false} DigitSpanOfPrefix(s: string, n: nat)
    requires n <= |s|
    ensures DigitSpan(s[..n]) == if DigitSpan(s) < n then DigitSpan(s) else n
  {
    if n > 0 && IsDigit(s[0]) {
      assert s[..n][1..] == s[1..][..n - 1];
      DigitSpanOfPrefix(s[1..], n - 1);
    }
  }

  // ---- _comma_number_re = ([0-9][0-9\,]+[0-9]) ----

  predicate GroupedNumber(t: string) {
    && |t| >= 3
    && IsDigit(t[0])
    && IsDigit(t[|t| - 1])
    && forall k :: 0 <= k < |t| ==> IsGroupChar(t[k])
  }

  function GroupedNumberMatch(s: string): (m: nat)
    ensures m <= |s|
    ensures m > 0 ==> GroupedNumber(s[..m])
  {
    if s != [] && IsDigit(s[0]) then
      var e := LastDigitEnd(s, GroupSpan(s));
      if e >= 3 then e else 0
    else 0
  }

  /** No longer prefix is a grouped number: the match is the greedy one. */
  lemma GroupedNumberLongest(s: string)
    ensures forall n :: GroupedNumberMatch(s) < n <= |s| ==> !GroupedNumber(s[..n])
  {
  }

  // ---- _currency_re = (₽|\$|€|¥)([0-9\,\.]*[0-9]+) ----

  /** Group 2 of the currency pattern. */
  predicate CurrencyAmount(t: string) {
    && t != []
    && IsDigit(t[|t| - 1])
    && forall k :: 0 <= k < |t| ==> IsAmountChar(t[k])
  }

  predicate CurrencyExpression(t: string) {
    t != [] && IsCurrencySymbol(t[0]) && CurrencyAmount(t[1..])
  }

  function CurrencyMatch(s: string): (m: nat)
    ensures m <= |s|
    ensures m > 0 ==> CurrencyExpression(s[..m])
  {
    if s != [] && IsCurrencySymbol(s[0]) then
      var e := LastDigitEnd(s[1..], AmountSpan(s[1..]));
      assert e > 0 ==> s[..1 + e][1..] == s[1..][..e];
      if e > 0 then 1 + e else 0
    else 0
  }

  /** No longer prefix is a currency expression: the match is the greedy one. */
  lemma CurrencyLongest(s: string)
    ensures forall n :: CurrencyMatch(s) < n <= |s| ==> !CurrencyExpression(s[..n])
  {
    assert forall n :: 0 < n <= |s| ==> s[..n][1..] == s[1..][..n - 1];
  }

  // ---- _decimal_number_re = ([0-9]+\,[0-9]+) ----

  /** Digits, one comma, digits. The comma can only sit where the first digit
      run ends. */
  predicate DecimalNumber(t: string) {
    var c := DigitSpan(t);
    0 < c < |t| - 1 && t[c] == ',' && forall k :: c < k < |t| ==> IsDigit(t[k])
  }

  function DecimalMatch(s: string): (m: nat)
    ensures m <= |s|
    ensures m > 0 ==> DecimalNumber(s[..m])
  {
    var d := DigitSpan(s);
    if 0 < d && d + 1 < |s| && s[d] == ',' && IsDigit(s[d + 1]) then
      d + 1 + DigitSpan(s[d + 1..])
    else 0
  }

  /** No longer prefix is a decimal number: the match is the greedy one. */
  lemma DecimalLongest(s: string)
    ensures forall n :: DecimalMatch(s) < n <= |s| ==> !DecimalNumber(s[..n])
  {
  }

  // ---- _ordinal_re = [0-9]+(-?(й|го|я|е|ая|ое|ий|ее|ые|их|ие)) ----

  /** The alternatives of the suffix group, in the order the regex tries them. */
  const OrdinalSuffixes: seq<string> := ["й", "го", "я", "е", "ая", "ое", "ий", "ее", "ые", "их", "ие"]

  /** Every alternative is one or two Cyrillic letters: never empty, never a
      digit, never a hyphen. */
  lemma SuffixesNonEmpty()
    ensures forall w :: w in OrdinalSuffixes ==> 1 <= |w| <= 2 && NoDigits(w) && w[0] != '-'
  {
  }

  /** Index of the first alternative that `t` starts with; |alts| if none. */
  function FirstPrefix(t: string, alts: seq<string>): (i: nat)
    ensures i <= |alts|
    ensures i < |alts| ==> alts[i] <= t
    ensures forall j :: 0 <= j < i ==> !(alts[j] <= t)
  {
    if alts == [] then 0
    else if alts[0] <= t then 0
    else 1 + FirstPrefix(t, alts[1..])
  }

  /** Digits, an optional hyphen, then one whole suffix. */
  predicate OrdinalExpression(t: string) {
    var d := DigitSpan(t);
    && d > 0
    && (|| t[d..] in OrdinalSuffixes
        || (d < |t| && t[d] == '-' && t[d + 1..] in OrdinalSuffixes))
  }

  /** Length of the suffix the alternation picks at the front of `t`, 0 if none. */
  function SuffixLength(t: string): (k: nat)
    ensures k <= |t|
  {
    var i := FirstPrefix(t, OrdinalSuffixes);
    if i < |OrdinalSuffixes| then |OrdinalSuffixes[i]| else 0
  }

  /** The suffix picked at the front is one of the alternatives, and when
      none is picked no alternative fits. */
  lemma SuffixLengthSound(t: string)
    ensures SuffixLength(t) > 0 ==> t[..SuffixLength(t)] in OrdinalSuffixes
    ensures SuffixLength(t) == 0 ==> forall w :: w in OrdinalSuffixes ==> !(w <= t)
  {
    var i := FirstPrefix(t, OrdinalSuffixes);
    if i < |OrdinalSuffixes| {
      assert t[..|OrdinalSuffixes[i]|] == OrdinalSuffixes[i];
    }
  }

  /** The alternatives are tried in the order they are written: the suffix
      taken is the first alternative that `t` starts with, and none is taken
      when no alternative fits. */
  lemma SuffixChoice(t: string)
    ensures SuffixLength(t) > 0 <==> FirstPrefix(t, OrdinalSuffixes) < |OrdinalSuffixes|
    ensures SuffixLength(t) > 0 ==>
      t[..SuffixLength(t)] == OrdinalSuffixes[FirstPrefix(t, OrdinalSuffixes)]
  {
    var i := FirstPrefix(t, OrdinalSuffixes);
    if i < |OrdinalSuffixes| {
      assert |OrdinalSuffixes[i]| >= 1 by {
        SuffixAtLeastOneLetter(i);
      }
    }
  }

  lemma SuffixAtLeastOneLetter(i: nat)
    requires i < |OrdinalSuffixes|
    ensures |OrdinalSuffixes[i]| >= 1
  {
  }

  function OrdinalMatch(s: string): (m: nat)
    ensures m <= |s|
    ensures m > 0 ==> OrdinalExpression(s[..m])
  {
    var d := DigitSpan(s);
    var t := s[d..];
    var m :=
      if d > 0 && t != [] && t[0] == '-' && SuffixLength(t[1..]) > 0 then d + 1 + SuffixLength(t[1..])
      else if d > 0 && SuffixLength(t) > 0 then d + SuffixLength(t)
      else 0;
    OrdinalMatchSound(s, d, t, m);
    m
  }

  /** The hyphen is tried first; either way what is taken is an ordinal
      expression. */
  lemma OrdinalMatchSound(s: string, d: nat, t: string, m: int)
    requires d == DigitSpan(s) && t == s[d..]
    requires m == if d > 0 && t != [] && t[0] == '-' && SuffixLength(t[1..]) > 0 then d + 1 + SuffixLength(t[1..])
                  else if d > 0 && SuffixLength(t) > 0 then d + SuffixLength(t)
                  else 0
    ensures 0 <= m <= |s|
    ensures m > 0 ==> OrdinalExpression(s[..m])
  {
    if d > 0 && t != [] && t[0] == '-' && SuffixLength(t[1..]) > 0 {
      HyphenBranch(s, d, t);
    } else if d > 0 && SuffixLength(t) > 0 {
      PlainBranch(s, d, t);
    }
  }

  /** Digits, a hyphen and a suffix form an ordinal expression. */
  lemma HyphenBranch(s: string, d: nat, t: string)
    requires 0 < d == DigitSpan(s) && t == s[d..]
    requires t != [] && t[0] == '-' && SuffixLength(t[1..]) > 0
    ensures d + 1 + SuffixLength(t[1..]) <= |s|
    ensures OrdinalExpression(s[..d + 1 + SuffixLength(t[1..])])
  {
    var rest := t[1..];
    var k := SuffixLength(rest);
    DropAfter(s, d);
    SuffixLengthSound(rest);
    var u := s[..d + 1 + k];
    HyphenSuffixAt(s, d, rest, k);
    MemberOfEqual(u[d + 1..], rest[..k], OrdinalSuffixes);
  }

  /** Digits directly followed by a suffix form an ordinal expression. */
  lemma PlainBranch(s: string, d: nat, t: string)
    requires 0 < d == DigitSpan(s) && t == s[d..] && SuffixLength(t) > 0
    ensures d + SuffixLength(t) <= |s|
    ensures OrdinalExpression(s[..d + SuffixLength(t)])
  {
    var k := SuffixLength(t);
    SuffixLengthSound(t);
    var u := s[..d + k];
    PlainSuffixAt(s, d, t, k);
    MemberOfEqual(u[d..], t[..k], OrdinalSuffixes);
  }

  /** Cutting the text after digits, a hyphen and `k` more characters keeps
      the digits, the hyphen and those characters. */
  lemma HyphenSuffixAt(s: string, d: nat, rest: string, k: nat)
    requires 0 < d == DigitSpan(s) < |s| && s[d] == '-' && rest == s[d + 1..] && k <= |rest|
    ensures var u := s[..d + 1 + k];
      DigitSpan(u) == d && d < |u| && u[d] == '-' && u[d + 1..] == rest[..k]
  {
    DigitsEndBefore(s, d + 1 + k);
    SliceAfter(s, d + 1, rest, k);
  }

  /** Cutting the text after digits and `k` more characters keeps the digits
      and those characters. */
  lemma PlainSuffixAt(s: string, d: nat, rest: string, k: nat)
    requires 0 < d == DigitSpan(s) && rest == s[d..] && 0 < k <= |rest|
    ensures var u := s[..d + k];
      DigitSpan(u) == d && u[d..] == rest[..k]
  {
    DigitsEndBefore(s, d + k);
    SliceAfter(s, d, rest, k);
  }

  /** Cutting the text after its leading digits keeps them. */
  lemma DigitsEndBefore(s: string, n: nat)
    requires DigitSpan(s) < n <= |s|
    ensures DigitSpan(s[..n]) == DigitSpan(s)
  {
    DigitSpanOfPrefix(s, n);
  }

  lemma DropAfter(s: string, d: nat)
    requires d < |s|
    ensures s[d..][1..] == s[d + 1..]
  {
  }

  /** The `k` characters after position `j`, read off the prefix or off the
      suffix, are the same. */
  lemma SliceAfter(s: string, j: nat, rest: string, k: nat)
    requires j + k <= |s| && rest == s[j..]
    ensures s[..j + k][j..] == rest[..k]
  {
  }

  lemma MemberOfEqual(a: string, b: string, alts: seq<string>)
    requires a == b && b in alts
    ensures a in alts
  {
  }

  /** When the matcher finds nothing, no prefix is an ordinal expression, so
      the pattern matches at the front exactly when the matcher says so. */
  lemma OrdinalMatchComplete(s: string)
    ensures OrdinalMatch(s) == 0 ==> forall n :: 0 < n <= |s| ==> !OrdinalExpression(s[..n])
  {
    if OrdinalMatch(s) == 0 {
      forall n | 0 < n <= |s| {
        NoOrdinalPrefix(s, n);
      }
    }
  }

  /** When the matcher finds nothing, no prefix is an ordinal expression. */
  lemma NoOrdinalPrefix(s: string, n: nat)
    requires 0 < n <= |s|
    requires var d := DigitSpan(s);
      !(d > 0 && d < |s| && s[d] == '-' && SuffixLength(s[d + 1..]) > 0)
      && !(d > 0 && SuffixLength(s[d..]) > 0)
    ensures !OrdinalExpression(s[..n])
  {
    var d := DigitSpan(s);
    DigitSpanOfPrefix(s, n);
    if d == 0 {
      assert DigitSpan(s[..n]) == 0;
    } else if d >= n {
      assert DigitSpan(s[..n]) == n;
      assert s[..n][n..] == [];
      SuffixesNonEmpty();
    } else {
      NoSuffixAfterDigits(s, n, d);
    }
  }

  lemma NoSuffixAfterDigits(s: string, n: nat, d: nat)
    requires 0 < d < n <= |s| && DigitSpan(s[..n]) == d
    requires SuffixLength(s[d..]) == 0
    requires s[d] == '-' ==> SuffixLength(s[d + 1..]) == 0
    ensures !OrdinalExpression(s[..n])
  {
    var t := s[..n];
    assert t[d..] <= s[d..];
    SuffixLengthSound(s[d..]);
    assert t[d..] !in OrdinalSuffixes;
    if t[d] == '-' {
      assert t[d + 1..] <= s[d + 1..];
      SuffixLengthSound(s[d + 1..]);
      assert t[d + 1..] !in OrdinalSuffixes;
    }
  }

  // ---- _number_re = -?[0-9]+ ----

  predicate SignedInteger(t: string) {
    || (t != [] && AllDigits(t))
    || (|t| > 1 && t[0] == '-' && AllDigits(t[1..]))
  }

  function NumberMatch(s: string): (m: nat)
    ensures m <= |s|
    ensures m > 0 ==> SignedInteger(s[..m])
  {
    if |s| > 1 && s[0] == '-' && IsDigit(s[1]) then 1 + DigitSpan(s[1..])
    else DigitSpan(s)
  }

  /** No longer prefix is a signed integer: the match is the greedy one. */
  lemma NumberLongest(s: string)
    ensures forall n :: NumberMatch(s) < n <= |s| ==> !SignedInteger(s[..n])
  {
    var m := NumberMatch(s);
    forall n | m < n <= |s|
      ensures !SignedInteger(s[..n])
    {
      var u := s[..n];
      if |s| > 1 && s[0] == '-' && IsDigit(s[1]) {
        var d := DigitSpan(s[1..]);
        assert m == 1 + d && u[0] == '-';
        assert u[1..][d] == s[1..][d] && !IsDigit(s[1..][d]);
      } else if m == 0 {
        assert !IsDigit(u[0]);
        assert |u| > 1 && u[0] == '-' ==> u[1..][0] == s[1] && !IsDigit(s[1]);
      } else {
        assert u[m] == s[m] && !IsDigit(s[m]) && IsDigit(u[0]);
      }
    }
  }

  // ---- a match never reads past the run it consumes ----

  /** A grouped-number match at the front of `x` is the same in `x + y` when
      the cut does not fall inside a run of `[0-9\,]`. */
  lemma GroupedNumberMatchOfPrefix(x: string, y: string)
    requires x != []
    requires y == [] || !IsGroupChar(y[0]) || !IsGroupChar(x[|x| - 1])
    ensures GroupedNumberMatch(x + y) == GroupedNumberMatch(x)
  {
    var g := GroupSpan(x);
    assert !IsGroupChar(x[|x| - 1]) ==> g < |x|;
    GroupSpanIs(x + y, g);
    LastDigitEndIs(x + y, g, LastDigitEnd(x, g));
  }

  /** A currency match at the front of `x` is the same in `x + y` when the
      cut does not fall inside a symbol and its amount. */
  lemma CurrencyMatchOfPrefix(x: string, y: string)
    requires x != []
    requires || y == [] || !IsAmountChar(y[0])
             || (!IsAmountChar(x[|x| - 1]) && !IsCurrencySymbol(x[|x| - 1]))
    ensures CurrencyMatch(x + y) == CurrencyMatch(x)
  {
    if IsCurrencySymbol(x[0]) {
      var a := x[1..];
      DropAfterAppend(x, y);
      var n := AmountSpan(a);
      assert |x| > 1 && !IsAmountChar(x[|x| - 1]) ==> a[|a| - 1] == x[|x| - 1] && n < |a|;
      AmountSpanIs(a + y, n);
      LastDigitEndIs(a + y, n, LastDigitEnd(a, n));
    }
  }

  /** A currency expression keeps its match when the text after it opens
      with amount characters that hold no digit: the greedy run takes them
      and backtracking gives them all back. */
  lemma CurrencyMatchBeforeRest(symbol: char, amount: string, rest: string)
    requires CurrencyExpression([symbol] + amount)
    requires forall k :: 0 <= k < AmountSpan(rest) ==> !IsDigit(rest[k])
    ensures CurrencyMatch([symbol] + amount + rest) == 1 + |amount|
  {
    var s := [symbol] + amount + rest;
    var a := s[1..];
    assert a == amount + rest;
    assert ([symbol] + amount)[1..] == amount;
    var n := |amount| + AmountSpan(rest);
    assert forall k :: |amount| <= k < n ==> a[k] == rest[k - |amount|];
    AmountSpanIs(a, n);
    LastDigitEndIs(a, n, |amount|);
  }

  lemma DropAfterAppend(x: string, y: string)
    requires x != []
    ensures (x + y)[0] == x[0] && (x + y)[1..] == x[1..] + y
  {
  }

  /** A decimal match at the front of `x` is the same in `x + y` when the cut
      does not fall inside a run of `[0-9\,]`. */
  lemma DecimalMatchOfPrefix(x: string, y: string)
    requires x != []
    requires || y == [] || (!IsDigit(y[0]) && y[0] != ',')
             || (!IsDigit(x[|x| - 1]) && x[|x| - 1] != ',')
    ensures DecimalMatch(x + y) == DecimalMatch(x)
  {
    var d := DigitSpan(x);
    assert DigitSpan(x + y) == d by {
      assert !IsDigit(x[|x| - 1]) ==> d < |x|;
      DigitSpanIs(x + y, d);
    }
    if 0 < d < |x| - 1 && x[d] == ',' && IsDigit(x[d + 1]) {
      DecimalInsidePrefix(x, y, d);
    } else {
      assert !(0 < d && d + 1 < |x + y| && (x + y)[d] == ',' && IsDigit((x + y)[d + 1]));
    }
  }

  /** A decimal match that ends inside `x` ends at the same place in `x + y`. */
  lemma DecimalInsidePrefix(x: string, y: string, d: nat)
    requires 0 < d < |x| - 1 && x[d] == ',' && IsDigit(x[d + 1])
    requires || y == [] || (!IsDigit(y[0]) && y[0] != ',')
             || (!IsDigit(x[|x| - 1]) && x[|x| - 1] != ',')
    requires d == DigitSpan(x) == DigitSpan(x + y)
    ensures DecimalMatch(x + y) == DecimalMatch(x)
  {
    var s := x + y;
    var t := x[d + 1..];
    assert s[d + 1..] == t + y by {
      SliceOfAppendAt(x, y, d + 1);
    }
    assert DigitSpan(t + y) == DigitSpan(t) by {
      var f := DigitSpan(t);
      assert !IsDigit(x[|x| - 1]) ==> t[|t| - 1] == x[|x| - 1] && f < |t|;
      DigitSpanIs(t + y, f);
    }
    assert s[d] == ',' && IsDigit(s[d + 1]);
  }

  lemma SliceOfAppendAt(x: string, y: string, k: nat)
    requires k <= |x|
    ensures (x + y)[k..] == x[k..] + y
  {
  }
}
