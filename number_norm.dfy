/** `normalize_numbers`: the five passes run one after another over the
    whole text, each on the previous one's output. */
module NumberNorm {
  import opened Wrappers
  import opened PyStr
  import opened PyInt
  import opened Patterns
  import opened Currency
  import opened Passes

  /** What the normaliser returns, or the exception it raises. */
  function Normalized(text: string, numerals: Numerals): (r: Result<string>)
    ensures r.Failure? <==> HasOrdinal(BeforeOrdinals(text))
    ensures r.Failure? ==> r.error.ValueError?
  {
    var t := StripGroupCommas(text);
    var t := ExpandCurrencies(t).value;
    var t := SpellDecimalCommas(t);
    var t :- SpellOrdinals(t, numerals);
    SpellCardinals(t, numerals)
  }

  /** `normalize_numbers` as written: `text` is rebound after each pass, and
      an exception raised by a pass ends the call. */
  method NormalizeNumbers(text: string, numerals: Numerals) returns (r: Result<string>)
    ensures r == Normalized(text, numerals)
  {
    var t := text;
    t := StripGroupCommas(t);
    t := ExpandCurrencies(t).value;
    t := SpellDecimalCommas(t);
    t :- SpellOrdinals(t, numerals);
    t := SpellCardinals(t, numerals).value;
    r := Success(t);
  }

  /** The text the ordinal pass receives. */
  function BeforeOrdinals(text: string): string {
    SpellDecimalCommas(ExpandCurrencies(StripGroupCommas(text)).value)
  }

  /** When the normaliser does not raise, the ordinal pass has changed
      nothing and the result is the cardinal pass's output on the text the
      first three passes leave. */
  lemma SucceedsAsCardinals(text: string, numerals: Numerals)
    ensures Normalized(text, numerals).Success? ==>
      Normalized(text, numerals) == SpellCardinals(BeforeOrdinals(text), numerals)
  {
  }

  /** ... so it raises only where, after the first three passes, a digit is
      directly followed by a hyphen or the first letter of an ordinal
      suffix. */
  lemma FailureNeedsOrdinalFollower(text: string, numerals: Numerals)
    requires Normalized(text, numerals).Failure?
    ensures var t := BeforeOrdinals(text);
      exists i :: 0 <= i < |t| - 1 && IsDigit(t[i]) && OrdinalFollower(t[i + 1])
  {
    OrdinalNeedsFollower(BeforeOrdinals(text));
  }

  /** Text without a digit comes back unchanged. */
  lemma DigitFreeUnchanged(text: string, numerals: Numerals)
    requires NoDigits(text)
    ensures Normalized(text, numerals) == Success(text)
  {
    DigitFreeHasNoShape(text);
    StripFixpoint(text);
    DigitFreeHasNoOrdinal(text);
  }

  /** Without commas and currency symbols only the last two passes act: the
      normaliser raises exactly when the ordinal pattern matches in the text
      itself, and otherwise spells its numbers. */
  lemma PlainText(text: string, numerals: Numerals)
    requires ',' !in text
    requires forall i :: 0 <= i < |text| ==> !IsCurrencySymbol(text[i])
    ensures BeforeOrdinals(text) == text
    ensures Normalized(text, numerals).Failure? <==> HasOrdinal(text)
    ensures Normalized(text, numerals).Success? ==>
      Normalized(text, numerals) == SpellCardinals(text, numerals)
  {
    CommaFreeHasNoShape(text);
    StripFixpoint(text);
  }

  /** Without currency symbols the currency pass is idle, and so is the
      decimal pass: the comma pass has already removed every comma that
      stands between digits. */
  lemma NoCurrencyText(text: string, numerals: Numerals)
    requires forall i :: 0 <= i < |text| ==> !IsCurrencySymbol(text[i])
    ensures BeforeOrdinals(text) == StripGroupCommas(text)
    ensures Normalized(text, numerals).Failure? <==> HasOrdinal(StripGroupCommas(text))
  {
    var t := StripGroupCommas(text);
    StripAddsNothing(text);
    forall i | 0 <= i < |t|
      ensures !IsCurrencySymbol(t[i])
    {
      assert t[i] in t;
    }
    StripClears(text);
  }

  /** When the converter never writes a digit, a successful result holds no
      digit. */
  lemma NoDigitsLeft(text: string, numerals: Numerals)
    requires forall n :: NoDigits(numerals.cardinal(n))
    requires Normalized(text, numerals).Success?
    ensures NoDigits(Normalized(text, numerals).value)
  {
  }

  /** An ordinal such as "5-й" is never spelled: `int()` rejects it. */
  lemma OrdinalExample(numerals: Numerals)
    ensures Normalized("5-й", numerals) == Failure(ValueError("5-й"))
  {
    var s := "5-й";
    HyphenOrdinalUntouched(numerals);
    HyphenOrdinalRejected(numerals);
  }

  lemma HyphenOrdinalUntouched(numerals: Numerals)
    ensures BeforeOrdinals("5-й") == "5-й"
  {
    PlainText("5-й", numerals);
  }

  lemma HyphenOrdinalRejected(numerals: Numerals)
    ensures SpellOrdinals("5-й", numerals) == Failure(ValueError("5-й"))
  {
    var s := "5-й";
    assert OrdinalMatch(s) == 3 by {
      HyphenOrdinalMatch();
    }
    calc {
      SpellOrdinals(s, numerals);
      { OrdinalErrorAtFront(s, numerals); }
      Failure(ValueError(s[..OrdinalMatch(s)]));
      { assert s[..3] == s; }
      Failure(ValueError(s));
    }
  }

  /** The decimal pattern only meets a digit, a comma and a digit once the
      currency pass has put digits after a comma: "5,$1" is read as
      "5 запятая 1 доллар". */
  lemma DecimalAfterCurrencyExample(numerals: Numerals)
    ensures Normalized("5,$1", numerals)
         == Success(numerals.cardinal(5) + " запятая " + numerals.cardinal(1) + " доллар")
  {
    var s := "5,$1";
    var t := "5" + " запятая " + "1" + " доллар";
    GroupCommasAbsentExample();
    StripFixpoint(s);
    CurrencyAfterCommaExample();
    DecimalCommaExample();
    assert BeforeOrdinals(s) == t;
    Regroup("5", " запятая ", "1", " доллар");
    NoOrdinalExample();
    SpelledExample(numerals);
  }

  lemma GroupCommasAbsentExample()
    ensures !DigitsAcrossCommas("5,$1")
  {
    var s := "5,$1";
    assert s[1..] == ",$1" && s[2..] == "$1";
    assert DropCommas(",$1") == "$1";
  }

  lemma CurrencyAfterCommaExample()
    ensures ExpandCurrencies("5,$1").value == "5,1 доллар"
  {
    var s := "5,$1";
    var dollars := "1" + " " + "доллар";
    OneDollarExample();
    assert s[1..] == ",$1" && s[1..][1..] == "$1";
    NoCurrencyAtFrontExample();
    assert ExpandCurrencies(s[1..]).value == [','] + dollars;
    assert ExpandCurrencies(s).value == ['5'] + ([','] + dollars);
    CurrencyLiteral();
  }

  lemma NoCurrencyAtFrontExample()
    ensures CurrencyMatch("5,$1") == 0 && CurrencyMatch(",$1") == 0
  {
  }

  /** "$1" is read as "1 доллар". */
  lemma OneDollarExample()
    ensures ExpandCurrencies("$1").value == "1" + " " + "доллар"
  {
    assert CurrencyExpression("$1");
    assert "$1" == ['$'] + "1";
    LoneCurrencyExpression('$', "1");
    AmountWordsOfDigits("1", "", Currencies['$']);
    OneDollarSpoken();
  }

  /** A full stop after the amount is given back and kept: "$1." becomes
      "1 доллар.". */
  lemma DollarAtSentenceEnd()
    ensures ExpandCurrencies("$1.").value == "1" + " " + "доллар" + "."
  {
    assert CurrencyExpression("$1");
    assert "$1." == ['$'] + "1" + ".";
    LoneExpressionWithTail('$', "1", ".");
    assert "$1" == ['$'] + "1";
    LoneCurrencyExpression('$', "1");
    OneDollarExample();
  }

  /** Two commas between digits are no decimal match, so the decimal pass
      keeps "5,,1" (the text that "5,,$1" becomes after the currency pass). */
  lemma DoubleCommaKept()
    ensures SpellDecimalCommas("5,,1") == "5,,1"
  {
    var s := "5,,1";
    forall i | 0 <= i < |s|
      ensures DecimalMatch(s[i..]) == 0
    {
      assert DigitSpan(s[i..]) == if i == 0 || i == 3 then 1 else 0;
    }
    NoDecimalMatchUnchanged(s);
  }

  lemma OneDollarSpoken()
    ensures Spoken(DigitsValue("1"), 0, Currencies['$']) == "1" + " " + "доллар"
  {
    assert DigitsValue("1") == 1;
    assert Decimal(1) == "1";
  }

  lemma CurrencyLiteral()
    ensures ['5'] + ([','] + ("1" + " " + "доллар")) == "5,1 доллар"
  {
  }

  lemma Regroup(a: string, b: string, c: string, d: string)
    ensures a + b + c + d == a + (b + (c + d))
  {
  }

  lemma DecimalCommaExample()
    ensures SpellDecimalCommas("5,1 доллар") == "5" + " запятая " + "1" + " доллар"
  {
    var s := "5,1 доллар";
    DecimalMatchExample();
    var k, out := DecimalStep(s);
    SpokenCommaExample();
    WordFacts();
    CommaFreeHasNoShape(" доллар");
  }

  lemma DecimalMatchExample()
    ensures var s := "5,1 доллар";
      DecimalMatch(s) == 3 && s[..3] == "5,1" && s[3..] == " доллар"
  {
    var s := "5,1 доллар";
    assert DigitSpan(s) == 1;
    assert s[2..] == "1 доллар";
    assert DigitSpan(s[2..]) == 1;
  }

  lemma SpokenCommaExample()
    ensures SpeakComma("5,1") == "5" + " запятая " + "1"
  {
    assert "5,1" == "5" + ("," + "1");
    ReplaceCommasAppend("5", "," + "1", " запятая ");
    ReplaceCommasAppend(",", "1", " запятая ");
  }

  lemma NoOrdinalExample()
    ensures !HasOrdinal("5" + " запятая " + "1" + " доллар")
  {
    var t := "5" + " запятая " + "1" + " доллар";
    assert !OrdinalFollower(' ');
    if HasOrdinal(t) {
      OrdinalNeedsFollower(t);
      var i :| 0 <= i < |t| - 1 && IsDigit(t[i]) && OrdinalFollower(t[i + 1]);
      DigitPositions(t, i);
      assert false;
    }
  }

  lemma DigitPositions(t: string, i: nat)
    requires t == "5" + " запятая " + "1" + " доллар"
    requires i < |t| && IsDigit(t[i])
    ensures (i == 0 || i == 10) && t[i + 1] == ' '
  {
    var a, b := " запятая ", " доллар";
    WordFacts();
  }

  lemma SpelledExample(numerals: Numerals)
    ensures SpellCardinals("5" + (" запятая " + ("1" + " доллар")), numerals).value
         == numerals.cardinal(5) + " запятая " + numerals.cardinal(1) + " доллар"
  {
    var five, comma, one, dollar := "5", " запятая ", "1", " доллар";
    SpelledTailExample(numerals);
    CardinalsAppend(five, comma + (one + dollar), numerals);
    CardinalOfNumber(five, numerals);
    assert DigitsValue(five) == 5;
    Regroup(numerals.cardinal(5), comma, numerals.cardinal(1), dollar);
  }

  lemma SpelledTailExample(numerals: Numerals)
    ensures SpellCardinals(" запятая " + ("1" + " доллар"), numerals).value
         == " запятая " + (numerals.cardinal(1) + " доллар")
  {
    var comma, one, dollar := " запятая ", "1", " доллар";
    WordFacts();
    SpelledDollarExample(numerals);
    CardinalsAppend(comma, one + dollar, numerals);
  }

  lemma SpelledDollarExample(numerals: Numerals)
    ensures SpellCardinals("1" + " доллар", numerals).value == numerals.cardinal(1) + " доллар"
  {
    var one, dollar := "1", " доллар";
    WordFacts();
    CardinalsAppend(one, dollar, numerals);
    CardinalOfNumber(one, numerals);
    assert DigitsValue(one) == 1;
  }

  /** The words the examples put between numbers hold no digit and no comma. */
  lemma WordFacts()
    ensures ',' !in " доллар" && NoDigits(" доллар")
    ensures ',' !in " запятая " && NoDigits(" запятая ")
  {
  }

  lemma HyphenOrdinalMatch()
    ensures OrdinalMatch("5-й") == 3
  {
    var s := "5-й";
    assert DigitSpan(s) == 1;
    assert s[1..][1..] == "й";
    assert SuffixLength("й") == 1;
  }

  /** The alternatives are tried in the order they are written, not longest
      first: in `5ее` the match takes `е` and leaves the second letter. */
  lemma FirstAlternativeWins()
    ensures OrdinalMatch("5ее") == 2
  {
    var s := "5ее";
    assert DigitSpan(s) == 1;
    assert s[1..] == "ее";
    FourthAlternative();
    assert SuffixLength("ее") == 1;
  }

  /** `ее` first fits the fourth alternative, `е`. */
  lemma FourthAlternative()
    ensures FirstPrefix("ее", OrdinalSuffixes) == 3
  {
    var a := OrdinalSuffixes;
    assert a[1..][1..][1..][0] == "е" && "е" <= "ее";
    assert FirstPrefix("ее", a[1..][1..][1..]) == 0;
    assert a[1..][1..][0] == "я" && "я"[0] != "ее"[0];
    assert FirstPrefix("ее", a[1..][1..]) == 1;
    assert a[1..][0] == "го" && "го"[0] != "ее"[0];
    assert FirstPrefix("ее", a[1..]) == 2;
    assert a[0] == "й" && "й"[0] != "ее"[0];
  }
}
