/** The five `re.sub` passes of `normalize_numbers`, each a left-to-right
    scanner: at each position it tries its pattern; on a match it emits the
    callback's replacement and resumes after the match, otherwise it copies
    one character. A callback that raises aborts the pass (and the whole
    normalisation) with that exception. */
module Passes {
  import opened Wrappers
  import opened PyStr
  import opened PyInt
  import opened Patterns
  import opened Currency

  /** The two conversions `num2words(n, lang='ru')` and
      `num2words(n, lang='ru', to='ordinal')`, supplied by the caller. */
  datatype Numerals = Numerals(cardinal: int -> string, ordinal: int -> string)

  // ================= Pass 1: re.sub(_comma_number_re, _remove_commas, text)

  /** Drops leading commas. */
  function DropCommas(s: string): (r: string)
    ensures r == [] || r[0] != ','
    ensures |r| <= |s|
  {
    if s != [] && s[0] == ',' then DropCommas(s[1..]) else s
  }

  predicate StartsWithDigit(s: string) {
    s != [] && IsDigit(s[0])
  }

  /** Some digit is followed by one or more commas and then a digit: the
      shape the comma pass exists to remove. */
  predicate DigitsAcrossCommas(s: string)
    decreases |s|
  {
    && |s| >= 3
    && (|| (IsDigit(s[0]) && s[1] == ',' && StartsWithDigit(DropCommas(s[1..])))
        || DigitsAcrossCommas(s[1..]))
  }

  /** `_remove_commas`: the match with its commas deleted. */
  function RemoveCommas(m: string): (r: string)
    ensures ',' !in r
    ensures |r| == |m| - Count(m, ',')
  {
    ReplaceCommas(m, [])
  }

  /** Every character but the comma is kept as often as it occurs. */
  lemma RemoveCommasKeepsOthers(m: string)
    ensures multiset(RemoveCommas(m)) == multiset(m)[',' := 0]
  {
    DeletedCommas(m);
  }

  function StripGroupCommas(s: string): (r: string)
    ensures s != [] ==> r != [] && r[0] == s[0]
    ensures |r| <= |s|
    decreases |s|
  {
    if s == [] then []
    else
      var m := GroupedNumberMatch(s);
      if m > 0 then
        assert s[..m][0] == s[0];
        RemoveCommas(s[..m]) + StripGroupCommas(s[m..])
      else [s[0]] + StripGroupCommas(s[1..])
  }

  /** One step of the scan: the length `k` of what it consumes at the front. */
  lemma StripStep(s: string) returns (k: nat, out: string)
    requires s != []
    ensures 0 < k <= |s|
    ensures k == if GroupedNumberMatch(s) > 0 then GroupedNumberMatch(s) else 1
    ensures out == if GroupedNumberMatch(s) > 0 then RemoveCommas(s[..k]) else s[..k]
    ensures RemoveCommas(out) == RemoveCommas(s[..k])
    ensures StripGroupCommas(s) == out + StripGroupCommas(s[k..])
  {
    var m := GroupedNumberMatch(s);
    k := if m > 0 then m else 1;
    out := if m > 0 then RemoveCommas(s[..k]) else s[..k];
    assert s[..1] == [s[0]];
  }

  lemma KeptStep(s: string) returns (k: nat)
    requires s != []
    ensures 0 < k <= |s|
    ensures RemoveCommas(StripGroupCommas(s))
         == RemoveCommas(s[..k]) + RemoveCommas(StripGroupCommas(s[k..]))
  {
    var out;
    k, out := StripStep(s);
    ReplaceCommasAppend(out, StripGroupCommas(s[k..]), []);
  }

  /** The pass only deletes commas: every other character is kept, in order. */
  lemma {:induction false} StripKeepsNonCommas(s: string)
    ensures RemoveCommas(StripGroupCommas(s)) == RemoveCommas(s)
    decreases |s|
  {
    if s != [] {
      var k := KeptStep(s);
      StripKeepsNonCommas(s[k..]);
      ReplaceCommasAppend(s[..k], s[k..], []);
      SplitAt(s, k);
    }
  }

  /** A suffix showing the shape shows it in the whole text too. */
  lemma {:induction false} DigitsAcrossCommasSuffix(s: string, k: nat)
    requires k <= |s|
    ensures DigitsAcrossCommas(s[k..]) ==> DigitsAcrossCommas(s)
    decreases k
  {
    if k > 0 {
      assert s[1..][k - 1..] == s[k..];
      DigitsAcrossCommasSuffix(s[1..], k - 1);
    }
  }

  /** After leading commas, a digit-comma run that ends in a digit offers a digit. */
  lemma {:induction false} DropCommasReachesDigit(u: string, n: nat)
    requires 0 < n <= |u| && IsDigit(u[n - 1])
    requires forall k :: 0 <= k < n ==> IsGroupChar(u[k])
    ensures StartsWithDigit(DropCommas(u))
    decreases n
  {
    if u[0] == ',' {
      DropCommasReachesDigit(u[1..], n - 1);
    }
  }

  /** Dropping exactly `k` leading commas. */
  lemma {:induction false} DropCommasRun(u: string, k: nat)
    requires k <= |u| && (forall i :: 0 <= i < k ==> u[i] == ',')
    requires k == |u| || u[k] != ','
    ensures DropCommas(u) == u[k..]
    decreases k
  {
    if k > 0 {
      assert u[1..][k - 1..] == u[k..];
      DropCommasRun(u[1..], k - 1);
    }
  }

  /** A grouped run starting at the front is all digits unless it shows the shape. */
  lemma {:induction false} GroupRunDigitsOrShape(t: string, n: nat)
    requires 2 <= n <= |t| && IsDigit(t[0]) && IsDigit(t[n - 1])
    requires forall k :: 0 <= k < n ==> IsGroupChar(t[k])
    ensures AllDigits(t[..n]) || DigitsAcrossCommas(t)
    decreases n
  {
    if t[1] == ',' {
      DropCommasReachesDigit(t[1..], n - 1);
    } else if n > 2 {
      GroupRunDigitsOrShape(t[1..], n - 1);
      assert t[..n] == [t[0]] + t[1..][..n - 1];
    } else {
      assert t[..n] == [t[0], t[1]];
    }
  }

  /** A digit string followed by `q` shows the shape only in `q` or where `q`
      opens with commas leading to a digit. */
  lemma {:induction false} ShapeAfterDigits(p: string, q: string)
    requires p != [] && AllDigits(p)
    requires DigitsAcrossCommas(p + q)
    ensures DigitsAcrossCommas(q) || (q != [] && q[0] == ',' && StartsWithDigit(DropCommas(q)))
    decreases |p|
  {
    if |p| > 1 {
      assert (p + q)[1..] == p[1..] + q;
      ShapeAfterDigits(p[1..], q);
    } else {
      assert (p + q)[1..] == q;
    }
  }

  /** Dropping leading commas commutes with the pass. */
  lemma {:induction false} DropCommasStrip(u: string)
    ensures DropCommas(StripGroupCommas(u)) == StripGroupCommas(DropCommas(u))
    decreases |u|
  {
    if u != [] && u[0] == ',' {
      assert GroupedNumberMatch(u) == 0;
      DropCommasStrip(u[1..]);
    }
  }

  /** The removed commas lie inside the match: its digits stay, none remain. */
  lemma {:induction false} RemoveCommasOfGroup(t: string)
    requires t != [] && IsDigit(t[0])
    requires forall k :: 0 <= k < |t| ==> IsGroupChar(t[k])
    ensures RemoveCommas(t) != [] && AllDigits(RemoveCommas(t))
  {
    AllDigitsWithoutCommas(t);
  }

  lemma {:induction false} AllDigitsWithoutCommas(t: string)
    requires forall k :: 0 <= k < |t| ==> IsGroupChar(t[k])
    ensures AllDigits(RemoveCommas(t))
    ensures t != [] && IsDigit(t[0]) ==> RemoveCommas(t) != [] && RemoveCommas(t)[0] == t[0]
  {
    if t != [] {
      AllDigitsWithoutCommas(t[1..]);
      var head: string := if t[0] == ',' then [] else [t[0]];
      var rest := RemoveCommas(t[1..]);
      assert RemoveCommas(t) == head + rest;
      forall i | 0 <= i < |head + rest|
        ensures IsDigit((head + rest)[i])
      {
        if i >= |head| {
          assert (head + rest)[i] == rest[i - |head|];
        }
      }
    }
  }

  /** After the pass no digit is followed by commas and then a digit. */
  lemma {:induction false} StripClears(s: string)
    ensures !DigitsAcrossCommas(StripGroupCommas(s))
    decreases |s|
  {
    if s != [] {
      var m := GroupedNumberMatch(s);
      if m > 0 {
        StripClears(s[m..]);
        GroupLeavesNoShape(s);
      } else {
        StripClears(s[1..]);
        CharLeavesNoShape(s);
      }
    }
  }

  /** A rewritten group followed by a cleared rest leaves no shape: the rest
      cannot start with a comma run that reaches a digit. */
  lemma GroupLeavesNoShape(s: string)
    requires s != [] && GroupedNumberMatch(s) > 0
    requires !DigitsAcrossCommas(StripGroupCommas(s[GroupedNumberMatch(s)..]))
    ensures !DigitsAcrossCommas(StripGroupCommas(s))
  {
    var m := GroupedNumberMatch(s);
    var g := GroupSpan(s);
    var p := RemoveCommas(s[..m]);
    var rest := s[m..];
    RemoveCommasOfGroup(s[..m]);
    if DigitsAcrossCommas(p + StripGroupCommas(rest)) {
      ShapeAfterDigits(p, StripGroupCommas(rest));
      NoDigitBehindCommas(s);
      assert false;
    }
  }

  /** After a grouped number the group span has ended: the commas that may
      follow it lead to no digit, before or after the pass. */
  lemma NoDigitBehindCommas(s: string)
    requires s != [] && GroupedNumberMatch(s) > 0
    ensures var rest := s[GroupedNumberMatch(s)..];
      !StartsWithDigit(DropCommas(StripGroupCommas(rest)))
  {
    var m := GroupedNumberMatch(s);
    var g := GroupSpan(s);
    var rest := s[m..];
    assert m == LastDigitEnd(s, g);
    DropCommasRun(rest, g - m);
    DropCommasStrip(rest);
  }

  /** A character kept as it is, followed by a cleared rest, leaves no shape:
      a digit kept before a comma is one the group pattern could not extend. */
  lemma CharLeavesNoShape(s: string)
    requires s != [] && GroupedNumberMatch(s) == 0
    requires !DigitsAcrossCommas(StripGroupCommas(s[1..]))
    ensures !DigitsAcrossCommas(StripGroupCommas(s))
  {
    var g := GroupSpan(s);
    var out := StripGroupCommas(s);
    assert out == [s[0]] + StripGroupCommas(s[1..]);
    assert out[1..] == StripGroupCommas(s[1..]);
    if IsDigit(s[0]) && |out| >= 3 && out[1] == ',' {
      assert s[1] == ',';
      var e := LastDigitEnd(s, g);
      assert e == 1;
      DropCommasRun(s[1..], g - 1);
      DropCommasStrip(s[1..]);
      assert s[1..][g - 1..] == s[g..];
      assert !StartsWithDigit(DropCommas(out[1..]));
    }
  }

  /** Text without the shape passes unchanged. */
  lemma {:induction false} StripFixpoint(s: string)
    requires !DigitsAcrossCommas(s)
    ensures StripGroupCommas(s) == s
    decreases |s|
  {
    if s != [] {
      var k, out := StripStep(s);
      if GroupedNumberMatch(s) > 0 {
        GroupUnchanged(s);
      }
      assert out == s[..k];
      DigitsAcrossCommasSuffix(s, k);
      StripFixpoint(s[k..]);
      SplitAt(s, k);
    }
  }

  /** Without the shape, a grouped match holds no comma, so rewriting it
      changes nothing. */
  lemma GroupUnchanged(s: string)
    requires s != [] && GroupedNumberMatch(s) > 0 && !DigitsAcrossCommas(s)
    ensures RemoveCommas(s[..GroupedNumberMatch(s)]) == s[..GroupedNumberMatch(s)]
  {
    var k := GroupedNumberMatch(s);
    GroupRunDigitsOrShape(s, k);
    assert ',' !in s[..k];
  }

  /** The pass leaves its input unchanged exactly when the input has no digit
      followed by commas and a digit; so running it twice is running it once. */
  lemma StripIdentityIff(s: string)
    ensures StripGroupCommas(s) == s <==> !DigitsAcrossCommas(s)
    ensures StripGroupCommas(StripGroupCommas(s)) == StripGroupCommas(s)
  {
    StripClears(s);
    if !DigitsAcrossCommas(s) {
      StripFixpoint(s);
    }
    StripFixpoint(StripGroupCommas(s));
  }

  /** The pass works piece by piece wherever a cut does not fall inside a run
      of `[0-9\,]`: the pattern never reads past such a run. */
  lemma {:induction false} StripAppend(x: string, y: string)
    requires x == [] || y == [] || !IsGroupChar(y[0]) || !IsGroupChar(x[|x| - 1])
    ensures StripGroupCommas(x + y) == StripGroupCommas(x) + StripGroupCommas(y)
    decreases |x|
  {
    if x == [] {
      assert x + y == y;
    } else {
      var piece, rest := StripStepOfAppend(x, y);
      StripAppend(rest, y);
      calc {
        StripGroupCommas(x + y);
        piece + StripGroupCommas(rest + y);
        piece + (StripGroupCommas(rest) + StripGroupCommas(y));
        { ConcatAssociative(piece, StripGroupCommas(rest), StripGroupCommas(y)); }
        (piece + StripGroupCommas(rest)) + StripGroupCommas(y);
        StripGroupCommas(x) + StripGroupCommas(y);
      }
    }
  }

  /** The first step of the scan over `x + y` is the first step over `x`. */
  lemma StripStepOfAppend(x: string, y: string) returns (piece: string, rest: string)
    requires x != []
    requires y == [] || !IsGroupChar(y[0]) || !IsGroupChar(x[|x| - 1])
    ensures |rest| < |x|
    ensures rest == [] || y == [] || !IsGroupChar(y[0]) || !IsGroupChar(rest[|rest| - 1])
    ensures StripGroupCommas(x) == piece + StripGroupCommas(rest)
    ensures StripGroupCommas(x + y) == piece + StripGroupCommas(rest + y)
  {
    var k, out := StripStep(x);
    rest := x[k..];
    piece := out;
    assert rest != [] ==> rest[|rest| - 1] == x[|x| - 1];
    assert StripGroupCommas(x + y) == piece + StripGroupCommas(rest + y) by {
      GroupedNumberMatchOfPrefix(x, y);
      var k', out' := StripStep(x + y);
      SliceOfAppend(x, y, k);
    }
  }

  predicate AllCommas(s: string) {
    forall i :: 0 <= i < |s| ==> s[i] == ','
  }

  /** The pass on one whole run of `[0-9\,]`: the commas before its first
      digit and after its last are kept; the span from the first digit to the
      last loses its commas when it is at least three characters long, and
      is kept otherwise (it then holds no comma). */
  lemma StripRun(lead: string, core: string, trail: string)
    requires AllCommas(lead) && AllCommas(trail)
    requires core == [] || (IsDigit(core[0]) && IsDigit(core[|core| - 1]))
    requires forall k :: 0 <= k < |core| ==> IsGroupChar(core[k])
    ensures StripGroupCommas(lead + core + trail)
         == lead + (if |core| >= 3 then RemoveCommas(core) else core) + trail
  {
    StripLeadingCommas(lead, core + trail);
    assert lead + core + trail == lead + (core + trail);
    if core == [] {
      assert core + trail == trail;
      CommasStay(trail);
    } else {
      StripDigitSpan(core, trail);
    }
  }

  /** Leading commas are copied: a match starts with a digit. */
  lemma {:induction false} StripLeadingCommas(lead: string, z: string)
    requires AllCommas(lead)
    ensures StripGroupCommas(lead + z) == lead + StripGroupCommas(z)
    decreases |lead|
  {
    if lead != [] {
      var init := lead[..|lead| - 1];
      assert lead == init + [','];
      assert lead + z == init + ([','] + z);
      StripLeadingCommas(init, [','] + z);
      StripLeadingComma(z);
    } else {
      assert lead + z == z;
    }
  }

  lemma StripLeadingComma(z: string)
    ensures StripGroupCommas([','] + z) == [','] + StripGroupCommas(z)
  {
    var s := [','] + z;
    assert s[0] == ',' && s[1..] == z;
    assert GroupedNumberMatch(s) == 0;
  }

  lemma CommasStay(trail: string)
    requires AllCommas(trail)
    ensures StripGroupCommas(trail) == trail
  {
    DigitFreeHasNoShape(trail);
    StripFixpoint(trail);
  }

  /** The span from the first digit to the last, then commas. */
  lemma StripDigitSpan(core: string, trail: string)
    requires AllCommas(trail) && core != [] && IsDigit(core[0]) && IsDigit(core[|core| - 1])
    requires forall k :: 0 <= k < |core| ==> IsGroupChar(core[k])
    ensures StripGroupCommas(core + trail)
         == (if |core| >= 3 then RemoveCommas(core) else core) + trail
  {
    var s := core + trail;
    GroupSpanIs(s, |s|);
    LastDigitEndIs(s, |s|, |core|);
    CommasStay(trail);
    if |core| >= 3 {
      assert s[..|core|] == core && s[|core|..] == trail;
    } else {
      assert AllDigits(core);
      if DigitsAcrossCommas(s) {
        ShapeAfterDigits(core, trail);
        DigitFreeHasNoShape(trail);
        DropCommasRun(trail, |trail|);
      }
      StripFixpoint(s);
    }
  }

  /** The pass writes no character that is not in its input. */
  lemma StripAddsNothing(s: string)
    ensures forall c :: c in StripGroupCommas(s) ==> c in s
  {
    var t := StripGroupCommas(s);
    StripKeepsNonCommas(s);
    forall c | c in t
      ensures c in s
    {
      if c != ',' {
        CountWithoutCommas(t, c);
        CountWithoutCommas(s, c);
      }
    }
  }

  /** Digit-free text has no match, so the pass copies it. */
  lemma {:induction false} DigitFreeHasNoShape(s: string)
    requires NoDigits(s)
    ensures !DigitsAcrossCommas(s)
    decreases |s|
  {
    if |s| >= 3 {
      DigitFreeHasNoShape(s[1..]);
    }
  }

  /** Without a comma there is nothing for the pass to remove. */
  lemma {:induction false} CommaFreeHasNoShape(s: string)
    requires ',' !in s
    ensures !DigitsAcrossCommas(s)
    decreases |s|
  {
    if |s| >= 3 {
      CommaFreeHasNoShape(s[1..]);
    }
  }

  // ================= Pass 2: re.sub(_currency_re, _expand_currency, text)

  /** Never fails: every match has a symbol of the table and an amount of
      digits, commas and dots. Text without a currency symbol, or without a
      digit, passes unchanged. */
  function ExpandCurrencies(s: string): (r: Result<string>)
    ensures r.Success?
    ensures NoDigits(s) ==> r.value == s
    ensures (forall i :: 0 <= i < |s| ==> !IsCurrencySymbol(s[i])) ==> r.value == s
    decreases |s|
  {
    if s == [] then Success([])
    else
      var m := CurrencyMatch(s);
      if m > 0 then
        assert s[..m][1..] == s[1..m];
        assert IsDigit(s[m - 1]);
        var words := ExpandCurrency(s[0], s[1..m]).value;
        Success(words + ExpandCurrencies(s[m..]).value)
      else
        assert [s[0]] + s[1..] == s;
        Success([s[0]] + ExpandCurrencies(s[1..]).value)
  }

  /** A currency expression standing alone is replaced by its words. */
  lemma LoneCurrencyExpression(symbol: char, amount: string)
    requires CurrencyExpression([symbol] + amount)
    ensures ExpandCurrencies([symbol] + amount) == ExpandCurrency(symbol, amount)
  {
    var t := [symbol] + amount;
    assert t[..|t|] == t;
    assert CurrencyMatch(t) == |t|;
    assert t[1..|t|] == amount && t[0] == symbol && t[|t|..] == [];
    assert ExpandCurrency(symbol, amount).Success?;
    var words := ExpandCurrency(symbol, amount).value;
    assert ExpandCurrencies(t) == Success(words + ExpandCurrencies([]).value);
    assert words + [] == words;
  }

  /** An expression inside text is replaced by its words and the scan goes
      on after it, wherever the text after it does not extend its amount to
      a further digit. */
  lemma CurrencyBeforeRest(symbol: char, amount: string, rest: string)
    requires CurrencyExpression([symbol] + amount)
    requires forall k :: 0 <= k < AmountSpan(rest) ==> !IsDigit(rest[k])
    ensures ExpandCurrencies([symbol] + amount + rest).value
         == ExpandCurrency(symbol, amount).value + ExpandCurrencies(rest).value
  {
    var s := [symbol] + amount + rest;
    CurrencyMatchBeforeRest(symbol, amount, rest);
    var k, out := CurrencyStep(s);
    assert s[0] == symbol && s[1..k] == amount && s[k..] == rest;
  }

  /** Commas and dots after an amount, as at the end of a sentence, are left
      in place after the expression's words. */
  lemma LoneExpressionWithTail(symbol: char, amount: string, tail: string)
    requires CurrencyExpression([symbol] + amount)
    requires forall k :: 0 <= k < |tail| ==> tail[k] == ',' || tail[k] == '.'
    ensures ExpandCurrencies([symbol] + amount + tail).value
         == ExpandCurrency(symbol, amount).value + tail
  {
    assert NoDigits(tail);
    CurrencyBeforeRest(symbol, amount, tail);
  }

  /** One step of the scan: the length `k` of what it consumes at the front. */
  lemma CurrencyStep(s: string) returns (k: nat, out: string)
    requires s != []
    ensures 0 < k <= |s|
    ensures k == if CurrencyMatch(s) > 0 then CurrencyMatch(s) else 1
    ensures CurrencyMatch(s) > 0 ==> ExpandCurrency(s[0], s[1..k]) == Success(out)
    ensures CurrencyMatch(s) == 0 ==> out == s[..k]
    ensures ExpandCurrencies(s).value == out + ExpandCurrencies(s[k..]).value
  {
    var m := CurrencyMatch(s);
    k := if m > 0 then m else 1;
    out := if m > 0 then ExpandCurrency(s[0], s[1..k]).value else s[..k];
    assert s[..1] == [s[0]];
  }

  /** The pass works piece by piece wherever a cut does not fall inside a
      currency symbol and its amount: each expression is replaced by its
      words, and the text around it is kept. */
  lemma {:induction false} CurrenciesAppend(x: string, y: string)
    requires || x == [] || y == [] || !IsAmountChar(y[0])
             || (!IsAmountChar(x[|x| - 1]) && !IsCurrencySymbol(x[|x| - 1]))
    ensures ExpandCurrencies(x + y).value == ExpandCurrencies(x).value + ExpandCurrencies(y).value
    decreases |x|
  {
    if x == [] {
      assert x + y == y;
    } else {
      var piece, rest := CurrencyStepOfAppend(x, y);
      CurrenciesAppend(rest, y);
      calc {
        ExpandCurrencies(x + y).value;
        piece + ExpandCurrencies(rest + y).value;
        piece + (ExpandCurrencies(rest).value + ExpandCurrencies(y).value);
        { ConcatAssociative(piece, ExpandCurrencies(rest).value, ExpandCurrencies(y).value); }
        (piece + ExpandCurrencies(rest).value) + ExpandCurrencies(y).value;
        ExpandCurrencies(x).value + ExpandCurrencies(y).value;
      }
    }
  }

  /** The first step of the scan over `x + y` is the first step over `x`. */
  lemma CurrencyStepOfAppend(x: string, y: string) returns (piece: string, rest: string)
    requires x != []
    requires || y == [] || !IsAmountChar(y[0])
             || (!IsAmountChar(x[|x| - 1]) && !IsCurrencySymbol(x[|x| - 1]))
    ensures |rest| < |x|
    ensures || rest == [] || y == [] || !IsAmountChar(y[0])
            || (!IsAmountChar(rest[|rest| - 1]) && !IsCurrencySymbol(rest[|rest| - 1]))
    ensures ExpandCurrencies(x).value == piece + ExpandCurrencies(rest).value
    ensures ExpandCurrencies(x + y).value == piece + ExpandCurrencies(rest + y).value
  {
    var k, out := CurrencyStep(x);
    rest := x[k..];
    piece := out;
    CurrencyStepShared(x, y, k, out);
    assert rest != [] ==> rest[|rest| - 1] == x[|x| - 1];
  }

  /** The step taken at the front of `x` is the one taken at the front of `x + y`. */
  lemma CurrencyStepShared(x: string, y: string, k: nat, out: string)
    requires 0 < k <= |x|
    requires || y == [] || !IsAmountChar(y[0])
             || (!IsAmountChar(x[|x| - 1]) && !IsCurrencySymbol(x[|x| - 1]))
    requires k == if CurrencyMatch(x) > 0 then CurrencyMatch(x) else 1
    requires CurrencyMatch(x) > 0 ==> ExpandCurrency(x[0], x[1..k]) == Success(out)
    requires CurrencyMatch(x) == 0 ==> out == x[..k]
    ensures ExpandCurrencies(x + y).value == out + ExpandCurrencies(x[k..] + y).value
  {
    CurrencyMatchOfPrefix(x, y);
    var k', out' := CurrencyStep(x + y);
    SliceOfAppend(x, y, k);
    assert (x + y)[0] == x[0] && (x + y)[1..k] == x[1..k];
  }

  // ================= Pass 3: re.sub(_decimal_number_re, _expand_decimal_point, text)

  /** `_expand_decimal_point`: the match with its comma spoken. No comma is
      left, and each one gives way to the nine characters " запятая ". */
  function SpeakComma(m: string): (r: string)
    ensures ',' !in r
    ensures ',' !in m ==> r == m
    ensures |r| == |m| + 8 * Count(m, ',')
  {
    ReplaceCommasLength(m, " запятая ");
    ReplaceCommas(m, " запятая ")
  }

  /** Text with no digit, commas and digit in a row passes unchanged. */
  function SpellDecimalCommas(s: string): (r: string)
    ensures !DigitsAcrossCommas(s) ==> r == s
    decreases |s|
  {
    if s == [] then []
    else
      var m := DecimalMatch(s);
      if m > 0 then
        DecimalMatchShowsShape(s, m);
        SpeakComma(s[..m]) + SpellDecimalCommas(s[m..])
      else
        DigitsAcrossCommasSuffix(s, 1);
        assert [s[0]] + s[1..] == s;
        [s[0]] + SpellDecimalCommas(s[1..])
  }

  /** One step of the scan: the length `k` of what it consumes at the front. */
  lemma DecimalStep(s: string) returns (k: nat, out: string)
    requires s != []
    ensures 0 < k <= |s|
    ensures k == if DecimalMatch(s) > 0 then DecimalMatch(s) else 1
    ensures out == if DecimalMatch(s) > 0 then SpeakComma(s[..k]) else s[..k]
    ensures SpellDecimalCommas(s) == out + SpellDecimalCommas(s[k..])
  {
    var m := DecimalMatch(s);
    k := if m > 0 then m else 1;
    out := if m > 0 then SpeakComma(s[..k]) else s[..k];
    assert s[..1] == [s[0]];
  }

  /** A decimal match is a digit, a comma and a digit, so it shows the shape. */
  lemma DecimalMatchShowsShape(s: string, m: nat)
    requires 0 < m <= |s| && DecimalNumber(s[..m])
    ensures DigitsAcrossCommas(s)
  {
    var t := s[..m];
    var c := DigitSpan(t);
    assert IsDigit(t[c - 1]) && t[c] == ',' && IsDigit(t[c + 1]);
    var u := s[c - 1..];
    assert u[0] == t[c - 1] && u[1] == t[c] && u[2] == t[c + 1];
    ShapeAtFront(u);
    DigitsAcrossCommasSuffix(s, c - 1);
  }

  /** A digit, one comma and a digit at the front show the shape. */
  lemma ShapeAtFront(u: string)
    requires |u| >= 3 && IsDigit(u[0]) && u[1] == ',' && IsDigit(u[2])
    ensures DigitsAcrossCommas(u)
  {
    var v := u[1..];
    assert v[1..][0] == u[2];
    assert DropCommas(v) == v[1..];
  }

  /** Digits, a comma, digits: the comma is spoken, the digits are left for
      the cardinal pass. */
  lemma SpelledDecimal(whole: string, fraction: string)
    requires whole != [] && AllDigits(whole) && fraction != [] && AllDigits(fraction)
    ensures SpellDecimalCommas(whole + "," + fraction) == whole + " запятая " + fraction
  {
    var s := whole + "," + fraction;
    WholeDecimalMatch(whole, fraction);
    WholeSlices(s);
    SpokenPair(whole, fraction);
  }

  /** A match inside text has its comma spoken and the scan goes on after
      it, wherever the text after it does not open with a digit. */
  lemma DecimalBeforeRest(whole: string, fraction: string, rest: string)
    requires whole != [] && AllDigits(whole) && fraction != [] && AllDigits(fraction)
    requires rest == [] || !IsDigit(rest[0])
    ensures SpellDecimalCommas(whole + "," + fraction + rest)
         == whole + " запятая " + fraction + SpellDecimalCommas(rest)
  {
    var t := whole + "," + fraction;
    var s := t + rest;
    DecimalMatchBeforeRest(whole, fraction, rest);
    var k, out := DecimalStep(s);
    assert s[..k] == t && s[k..] == rest;
    SpokenPair(whole, fraction);
  }

  lemma DecimalMatchBeforeRest(whole: string, fraction: string, rest: string)
    requires whole != [] && AllDigits(whole) && fraction != [] && AllDigits(fraction)
    requires rest == [] || !IsDigit(rest[0])
    ensures DecimalMatch(whole + "," + fraction + rest) == |whole + "," + fraction|
  {
    var s := whole + "," + fraction + rest;
    assert s == whole + ("," + fraction + rest);
    DigitSpanAppendAll(whole, "," + fraction + rest);
    assert s[|whole| + 1..] == fraction + rest;
    DigitSpanAppendAll(fraction, rest);
    assert s[|whole|] == ',' && s[|whole| + 1] == fraction[0];
  }

  /** Text in which the pattern matches at no position passes unchanged,
      whatever runs of digits and commas it holds (`5,,1`). */
  lemma {:induction false} NoDecimalMatchUnchanged(s: string)
    requires forall i :: 0 <= i < |s| ==> DecimalMatch(s[i..]) == 0
    ensures SpellDecimalCommas(s) == s
    decreases |s|
  {
    if s != [] {
      assert DecimalMatch(s[0..]) == 0 && s[0..] == s;
      forall i | 0 <= i < |s[1..]|
        ensures DecimalMatch(s[1..][i..]) == 0
      {
        assert s[1..][i..] == s[i + 1..];
      }
      NoDecimalMatchUnchanged(s[1..]);
      assert [s[0]] + s[1..] == s;
    }
  }

  /** The pass works piece by piece wherever a cut does not fall inside a run
      of `[0-9\,]`: each match has its comma spoken, and the text around it
      is kept. */
  lemma {:induction false} DecimalsAppend(x: string, y: string)
    requires || x == [] || y == [] || (!IsDigit(y[0]) && y[0] != ',')
             || (!IsDigit(x[|x| - 1]) && x[|x| - 1] != ',')
    ensures SpellDecimalCommas(x + y) == SpellDecimalCommas(x) + SpellDecimalCommas(y)
    decreases |x|
  {
    if x == [] {
      assert x + y == y;
    } else {
      var piece, rest := DecimalStepOfAppend(x, y);
      DecimalsAppend(rest, y);
      calc {
        SpellDecimalCommas(x + y);
        piece + SpellDecimalCommas(rest + y);
        piece + (SpellDecimalCommas(rest) + SpellDecimalCommas(y));
        { ConcatAssociative(piece, SpellDecimalCommas(rest), SpellDecimalCommas(y)); }
        (piece + SpellDecimalCommas(rest)) + SpellDecimalCommas(y);
        SpellDecimalCommas(x) + SpellDecimalCommas(y);
      }
    }
  }

  /** The first step of the scan over `x + y` is the first step over `x`. */
  lemma DecimalStepOfAppend(x: string, y: string) returns (piece: string, rest: string)
    requires x != []
    requires || y == [] || (!IsDigit(y[0]) && y[0] != ',')
             || (!IsDigit(x[|x| - 1]) && x[|x| - 1] != ',')
    ensures |rest| < |x|
    ensures || rest == [] || y == [] || (!IsDigit(y[0]) && y[0] != ',')
            || (!IsDigit(rest[|rest| - 1]) && rest[|rest| - 1] != ',')
    ensures SpellDecimalCommas(x) == piece + SpellDecimalCommas(rest)
    ensures SpellDecimalCommas(x + y) == piece + SpellDecimalCommas(rest + y)
  {
    var k, out := DecimalStep(x);
    rest := x[k..];
    piece := out;
    assert rest != [] ==> rest[|rest| - 1] == x[|x| - 1];
    assert SpellDecimalCommas(x + y) == piece + SpellDecimalCommas(rest + y) by {
      DecimalMatchOfPrefix(x, y);
      var k', out' := DecimalStep(x + y);
      SliceOfAppend(x, y, k);
    }
  }

  lemma WholeSlices(s: string)
    ensures s[..|s|] == s && s[|s|..] == []
  {
  }

  /** Speaking the comma of digits, a comma, digits. */
  lemma SpokenPair(whole: string, fraction: string)
    requires AllDigits(whole) && AllDigits(fraction)
    ensures SpeakComma(whole + "," + fraction) == whole + " запятая " + fraction
  {
    var spoken := " запятая ";
    assert ',' !in whole && ',' !in fraction;
    assert ReplaceCommas(",", spoken) == spoken by {
      assert ","[1..] == [];
    }
    calc {
      SpeakComma(whole + "," + fraction);
      { assert whole + "," + fraction == whole + ("," + fraction); }
      ReplaceCommas(whole + ("," + fraction), spoken);
      { ReplaceCommasAppend(whole, "," + fraction, spoken); }
      ReplaceCommas(whole, spoken) + ReplaceCommas("," + fraction, spoken);
      { ReplaceCommasAppend(",", fraction, spoken); }
      whole + (spoken + fraction);
    }
  }

  lemma WholeDecimalMatch(whole: string, fraction: string)
    requires whole != [] && AllDigits(whole) && fraction != [] && AllDigits(fraction)
    ensures DecimalMatch(whole + "," + fraction) == |whole + "," + fraction|
  {
    var s := whole + "," + fraction;
    assert s == whole + ("," + fraction);
    DigitSpanAppendAll(whole, "," + fraction);
    assert s[|whole| + 1..] == fraction;
    DigitSpanAppendAll(fraction, []);
    assert fraction + [] == fraction;
  }

  /** The digit run of a digit string followed by a non-digit is that string. */
  lemma {:induction false} DigitSpanAppendAll(d: string, rest: string)
    requires AllDigits(d)
    requires rest == [] || !IsDigit(rest[0])
    ensures DigitSpan(d + rest) == |d|
    decreases |d|
  {
    if d != [] {
      assert (d + rest)[1..] == d[1..] + rest;
      DigitSpanAppendAll(d[1..], rest);
    } else {
      assert d + rest == rest;
    }
  }

  // ================= Pass 4: re.sub(_ordinal_re, _expand_ordinal, text)

  /** `_expand_ordinal`: `int()` of the WHOLE match, suffix included. */
  function ExpandOrdinal(m: string, numerals: Numerals): (r: Result<string>)
    ensures r.Success? <==> IntLiteral(m)
    ensures r.Failure? ==> r.error == ValueError(m)
  {
    var num :- ParseInt(m);
    Success(numerals.ordinal(num))
  }

  /** The ordinal pattern matches somewhere in the text. */
  predicate HasOrdinal(s: string)
    decreases |s|
  {
    s != [] && (OrdinalMatch(s) > 0 || HasOrdinal(s[1..]))
  }

  /** An ordinal match ends in a letter, so `int()` rejects it. */
  lemma OrdinalRejected(t: string, numerals: Numerals)
    requires OrdinalExpression(t)
    ensures ParseInt(t) == Failure(ValueError(t))
    ensures ExpandOrdinal(t, numerals) == Failure(ValueError(t))
  {
    var d := DigitSpan(t);
    SuffixesNonEmpty();
    assert !IsDigit(t[|t| - 1]) by {
      if t[d..] in OrdinalSuffixes {
        assert t[|t| - 1] == t[d..][|t[d..]| - 1];
      } else {
        assert t[|t| - 1] == t[d + 1..][|t[d + 1..]| - 1];
      }
    }
  }

  /** The pass fails exactly when the pattern matches somewhere, and then with
      the ValueError of a match; otherwise it changes nothing. The callback
      raises on every match (OrdinalRejected), so its failure on the first
      match is the pass's result. */
  function SpellOrdinals(s: string, numerals: Numerals): (r: Result<string>)
    ensures r.Failure? <==> HasOrdinal(s)
    ensures r.Failure? ==> r.error.ValueError?
    ensures r.Success? ==> r.value == s
    decreases |s|
  {
    if s == [] then Success([])
    else
      var m := OrdinalMatch(s);
      if m > 0 then
        OrdinalRejected(s[..m], numerals);
        ExpandOrdinal(s[..m], numerals)
      else
        var rest :- SpellOrdinals(s[1..], numerals);
        assert [s[0]] + s[1..] == s;
        Success([s[0]] + rest)
  }

  /** The first match the pass meets is the one whose text the error carries. */
  lemma OrdinalErrorAtFront(s: string, numerals: Numerals)
    requires OrdinalMatch(s) > 0
    ensures SpellOrdinals(s, numerals) == Failure(ValueError(s[..OrdinalMatch(s)]))
  {
    OrdinalRejected(s[..OrdinalMatch(s)], numerals);
  }

  /** A character that can follow the digits of an ordinal match: the hyphen
      or the first letter of a suffix. */
  predicate OrdinalFollower(c: char) {
    c == '-' || exists w :: w in OrdinalSuffixes && w[0] == c
  }

  /** In an ordinal expression the digits are followed by a hyphen or by a
      suffix's first letter. */
  lemma FollowerAtDigitEnd(s: string, m: nat) returns (d: nat)
    requires 0 < m <= |s| && OrdinalExpression(s[..m])
    ensures 0 < d < |s| && IsDigit(s[d - 1]) && OrdinalFollower(s[d])
  {
    var t := s[..m];
    d := DigitSpan(t);
    SuffixesNonEmpty();
    assert d < |t|;
    assert IsDigit(t[d - 1]) && t[d] == s[d] && t[d - 1] == s[d - 1];
    if t[d..] in OrdinalSuffixes {
      var w := t[d..];
      assert w[0] == s[d];
    }
  }

  /** The pattern only matches where a digit is directly followed by a hyphen
      or by the first letter of a suffix. */
  lemma {:induction false} OrdinalNeedsFollower(s: string)
    requires HasOrdinal(s)
    ensures exists i :: 0 <= i < |s| - 1 && IsDigit(s[i]) && OrdinalFollower(s[i + 1])
    decreases |s|
  {
    var m := OrdinalMatch(s);
    if m > 0 {
      var d := FollowerAtDigitEnd(s, m);
    } else {
      OrdinalNeedsFollower(s[1..]);
      var i :| 0 <= i < |s[1..]| - 1 && IsDigit(s[1..][i]) && OrdinalFollower(s[1..][i + 1]);
      assert IsDigit(s[i + 1]) && OrdinalFollower(s[i + 2]);
    }
  }

  lemma {:induction false} DigitFreeHasNoOrdinal(s: string)
    requires NoDigits(s)
    ensures !HasOrdinal(s)
    decreases |s|
  {
    if s != [] {
      DigitFreeHasNoOrdinal(s[1..]);
    }
  }

  // ================= Pass 5: re.sub(_number_re, _expand_number, text)

  /** `_expand_number`. */
  function ExpandNumber(m: string, numerals: Numerals): (r: Result<string>)
    ensures r.Success? <==> IntLiteral(m)
  {
    var num :- ParseInt(m);
    Success(numerals.cardinal(num))
  }

  lemma NoDigitsAppend(a: string, b: string)
    ensures NoDigits(a) && NoDigits(b) ==> NoDigits(a + b)
  {
    assert forall i :: |a| <= i < |a + b| ==> (a + b)[i] == b[i - |a|];
  }

  /** Never fails, leaves digit-free text alone, and when the converter never
      writes a digit, leaves no digit behind. */
  function SpellCardinals(s: string, numerals: Numerals): (r: Result<string>)
    ensures r.Success?
    ensures NoDigits(s) ==> r.value == s
    ensures (forall n :: NoDigits(numerals.cardinal(n))) ==> NoDigits(r.value)
    decreases |s|
  {
    if s == [] then Success([])
    else
      var m := NumberMatch(s);
      if m > 0 then
        var words := ExpandNumber(s[..m], numerals).value;
        var rest := SpellCardinals(s[m..], numerals).value;
        NoDigitsAppend(words, rest);
        Success(words + rest)
      else
        var rest := SpellCardinals(s[1..], numerals).value;
        assert [s[0]] + s[1..] == s;
        NoDigitsAppend([s[0]], rest);
        Success([s[0]] + rest)
  }

  /** A digit run, optionally after a hyphen, alone: its cardinal words, read
      with the sign. */
  lemma CardinalOfNumber(digits: string, numerals: Numerals)
    requires digits != [] && AllDigits(digits)
    ensures SpellCardinals(digits, numerals).value == numerals.cardinal(DigitsValue(digits))
    ensures SpellCardinals("-" + digits, numerals).value
         == numerals.cardinal(-(DigitsValue(digits) as int))
  {
    CardinalOfDigits(digits, numerals);
    CardinalOfNegative(digits, numerals);
  }

  lemma CardinalOfDigits(digits: string, numerals: Numerals)
    requires digits != [] && AllDigits(digits)
    ensures SpellCardinals(digits, numerals).value == numerals.cardinal(DigitsValue(digits))
  {
    DigitSpanAppendAll(digits, []);
    assert digits + [] == digits;
    var k := CardinalStep(digits, numerals);
    assert digits[..k] == digits && digits[k..] == [];
  }

  lemma CardinalOfNegative(digits: string, numerals: Numerals)
    requires digits != [] && AllDigits(digits)
    ensures SpellCardinals("-" + digits, numerals).value
         == numerals.cardinal(-(DigitsValue(digits) as int))
  {
    NegativeIsOneNumber(digits);
    var neg := "-" + digits;
    var k := CardinalStep(neg, numerals);
    assert neg[..k] == neg && neg[k..] == [];
  }

  lemma NegativeIsOneNumber(digits: string)
    requires digits != [] && AllDigits(digits)
    ensures NumberMatch("-" + digits) == |digits| + 1
  {
    DigitSpanAppendAll(digits, []);
    assert digits + [] == digits;
    assert ("-" + digits)[1..] == digits;
  }

  /** One step of the scan: the length `k` of what it consumes at the front. */
  lemma CardinalStep(s: string, numerals: Numerals) returns (k: nat)
    requires s != []
    ensures 0 < k <= |s|
    ensures k == if NumberMatch(s) > 0 then NumberMatch(s) else 1
    ensures SpellCardinals(s, numerals).value
         == (if NumberMatch(s) > 0 then ExpandNumber(s[..k], numerals).value else s[..k])
            + SpellCardinals(s[k..], numerals).value
  {
    var m := NumberMatch(s);
    k := if m > 0 then m else 1;
    assert s[..1] == [s[0]];
  }

  /** The pass works piece by piece wherever a cut does not split a number
      or separate a hyphen from its digits. */
  lemma {:induction false} CardinalsAppend(x: string, y: string, numerals: Numerals)
    requires || x == [] || y == [] || !IsDigit(y[0])
             || (!IsDigit(x[|x| - 1]) && x[|x| - 1] != '-')
    ensures SpellCardinals(x + y, numerals).value
         == SpellCardinals(x, numerals).value + SpellCardinals(y, numerals).value
    decreases |x|
  {
    if x == [] {
      assert x + y == y;
    } else {
      var piece, rest := CardinalStepOfAppend(x, y, numerals);
      CardinalsAppend(rest, y, numerals);
      calc {
        SpellCardinals(x + y, numerals).value;
        piece + SpellCardinals(rest + y, numerals).value;
        piece + (SpellCardinals(rest, numerals).value + SpellCardinals(y, numerals).value);
        { ConcatAssociative(piece, SpellCardinals(rest, numerals).value, SpellCardinals(y, numerals).value); }
        (piece + SpellCardinals(rest, numerals).value) + SpellCardinals(y, numerals).value;
        SpellCardinals(x, numerals).value + SpellCardinals(y, numerals).value;
      }
    }
  }

  /** The first step of the scan over `x + y` is the first step over `x`. */
  lemma CardinalStepOfAppend(x: string, y: string, numerals: Numerals) returns (piece: string, rest: string)
    requires x != []
    requires || y == [] || !IsDigit(y[0])
             || (!IsDigit(x[|x| - 1]) && x[|x| - 1] != '-')
    ensures |rest| < |x|
    ensures rest == [] || y == [] || !IsDigit(y[0])
            || (!IsDigit(rest[|rest| - 1]) && rest[|rest| - 1] != '-')
    ensures SpellCardinals(x, numerals).value == piece + SpellCardinals(rest, numerals).value
    ensures SpellCardinals(x + y, numerals).value == piece + SpellCardinals(rest + y, numerals).value
  {
    var s := x + y;
    NumberMatchOfPrefix(x, y);
    var k := CardinalStep(x, numerals);
    var k' := CardinalStep(s, numerals);
    rest := x[k..];
    piece := if NumberMatch(x) > 0 then ExpandNumber(x[..k], numerals).value else x[..k];
    SliceOfAppend(x, y, k);
    assert rest != [] ==> rest[|rest| - 1] == x[|x| - 1];
  }

  lemma SplitAt(s: string, k: nat)
    requires k <= |s|
    ensures s[..k] + s[k..] == s
  {
  }

  lemma SliceOfAppend(x: string, y: string, k: nat)
    requires k <= |x|
    ensures (x + y)[..k] == x[..k] && (x + y)[k..] == x[k..] + y
  {
  }

  lemma ConcatAssociative(a: string, b: string, c: string)
    ensures a + (b + c) == (a + b) + c
  {
  }

  lemma NumberMatchOfPrefix(x: string, y: string)
    requires x != []
    requires || y == [] || !IsDigit(y[0])
             || (!IsDigit(x[|x| - 1]) && x[|x| - 1] != '-')
    ensures NumberMatch(x + y) == NumberMatch(x)
  {
    var s := x + y;
    if |x| > 1 && x[0] == '-' && IsDigit(x[1]) {
      assert s[1..] == x[1..] + y;
      DigitSpanAppend(x[1..], y);
    } else if |x| == 1 && x[0] == '-' {
      assert s[1..] == y;
    } else {
      DigitSpanAppend(x, y);
    }
  }

  lemma {:induction false} DigitSpanAppend(x: string, y: string)
    requires DigitSpan(x) < |x| || y == [] || !IsDigit(y[0])
    ensures DigitSpan(x + y) == DigitSpan(x)
    decreases |x|
  {
    if x == [] {
      assert x + y == y;
    } else if IsDigit(x[0]) {
      assert (x + y)[1..] == x[1..] + y;
      DigitSpanAppend(x[1..], y);
    }
  }
}
