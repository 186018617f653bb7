/** The currency inflection table and the expansion of one currency amount
    into words (`__expand_currency` and `_expand_currency`). */
module Currency {
  import opened Wrappers
  import opened PyStr
  import opened PyInt
  import opened Patterns

  /** One currency's row of the inflection table, by dictionary key:
      0.01 -> minorOne, 0.02 -> minorFew (the minor unit), 1 -> one and
      2 -> few (the main unit). */
  datatype Inflection = Inflection(minorOne: string, minorFew: string, one: string, few: string)

  /** The table built by `_expand_currency`. The pound entry is never looked
      up: its symbol is not in the currency pattern. */
  const Currencies: map<char, Inflection> := map[
    '$' := Inflection("цент", "цента", "доллар", "доллара"),
    '€' := Inflection("евроцент", "евроцента", "евро", "евро"),
    '£' := Inflection("пенни", "пенса", "фунт стерлингов", "фунта стерлингов"),
    '¥' := Inflection("сень", "сена", "йена", "йены"),
    '₽' := Inflection("копейка", "копейки", "рубль", "рубля")
  ]

  /** The table has a row for each symbol the currency pattern matches, and
      one more, the pound's, that the pattern never hands it. */
  lemma CurrencyRows()
    ensures forall c :: c in Currencies <==> IsCurrencySymbol(c) || c == '£'
    ensures !IsCurrencySymbol('£')
  {
  }

  /** A numeric dictionary key, as the exact fraction `num / den`. Python
      looks keys up by numeric value: `1.0`, `100 / 100` and `1` are the same
      key. */
  datatype Key = Key(num: int, den: nat)

  predicate SameKey(a: Key, b: Key) {
    a.num * b.den == b.num * a.den
  }

  /** One row of the table as the dictionary the source writes,
      `{0.01: ..., 0.02: ..., 1: ..., 2: ...}`. */
  function Entries(inflection: Inflection): seq<(Key, string)> {
    [(Key(1, 100), inflection.minorOne), (Key(2, 100), inflection.minorFew),
     (Key(1, 1), inflection.one), (Key(2, 1), inflection.few)]
  }

  /** `dict.get(key, default)`: the value under a numerically equal key. */
  function Get(entries: seq<(Key, string)>, key: Key, default: string): string {
    if entries == [] then default
    else if SameKey(entries[0].0, key) then entries[0].1
    else Get(entries[1..], key, default)
  }

  /** The lookup tries the four keys in the order they are written. */
  lemma GetEntries(inflection: Inflection, key: Key, default: string)
    ensures Get(Entries(inflection), key, default) ==
      if SameKey(Key(1, 100), key) then inflection.minorOne
      else if SameKey(Key(2, 100), key) then inflection.minorFew
      else if SameKey(Key(1, 1), key) then inflection.one
      else if SameKey(Key(2, 1), key) then inflection.few
      else default
  {
    var e := Entries(inflection);
    assert e[1..] == [e[1], e[2], e[3]];
    assert e[1..][1..] == [e[2], e[3]];
    assert e[1..][1..][1..] == [e[3]];
    assert e[1..][1..][1..][1..] == [];
    assert Get(e[1..][1..][1..][1..], key, default) == default;
    assert Get(e[1..][1..][1..], key, default) == if SameKey(e[3].0, key) then e[3].1 else default;
    assert Get(e[1..][1..], key, default) == if SameKey(e[2].0, key) then e[2].1 else Get(e[1..][1..][1..], key, default);
    assert Get(e[1..], key, default) == if SameKey(e[1].0, key) then e[1].1 else Get(e[1..][1..], key, default);
  }

  /** `inflection.get(integer, inflection[2])`: an int equals only the keys 1
      and 2, and key 2 is the default anyway. */
  function UnitWord(integer: int, inflection: Inflection): (r: string)
    ensures r == Get(Entries(inflection), Key(integer, 1), inflection.few)
  {
    GetEntries(inflection, Key(integer, 1), inflection.few);
    if integer == 1 then inflection.one else inflection.few
  }

  /** `inflection.get(fraction / 100, inflection[0.02])`. The key is the
      float `fraction / 100`, which equals the key 0.01 only for 1 and 0.02
      only for 2; it also equals the int keys 1 and 2 (1.0 == 1 in a Python
      dict) for 100 and 200, which then take the MAIN unit's words. */
  function MinorUnitWord(fraction: int, inflection: Inflection): (r: string)
    ensures r == Get(Entries(inflection), Key(fraction, 100), inflection.minorFew)
  {
    GetEntries(inflection, Key(fraction, 100), inflection.minorFew);
    if fraction == 1 then inflection.minorOne
    else if fraction == 100 then inflection.one
    else if fraction == 200 then inflection.few
    else inflection.minorFew
  }

  /** The list `text` of `__expand_currency`: the integer piece when it is
      positive, then the fraction piece when it is positive. */
  function Pieces(integer: int, fraction: int, inflection: Inflection): seq<string> {
    (if integer > 0 then [Decimal(integer) + " " + UnitWord(integer, inflection)] else [])
    + (if fraction > 0 then [Decimal(fraction) + " " + MinorUnitWord(fraction, inflection)] else [])
  }

  /** `int(part) if part else 0`. */
  function PartValue(part: string): Result<int> {
    if part != [] then ParseInt(part) else Success(0)
  }

  /** `__expand_currency(value, inflection)`. */
  function AmountWords(value: string, inflection: Inflection): (r: Result<string>)
    ensures (forall i :: 0 <= i < |value| ==> IsAmountChar(value[i])) ==> r.Success?
    ensures Count(value, '.') > 1 ==> r == Success(value + " " + inflection.few)
  {
    var parts := Split(ReplaceCommas(value, []), '.');
    CountWithoutCommas(value, '.');
    if |parts| > 2 then Success(value + " " + inflection.few)
    else
      AmountPartsAreDigits(value);
      PartsWords(parts, inflection)
  }

  /** The rest of `__expand_currency` once the amount has at most one dot:
      read the parts before and after it, build the list of pieces, join it. */
  function PartsWords(parts: seq<string>, inflection: Inflection): (r: Result<string>)
    requires 0 < |parts| <= 2
    ensures (forall i :: 0 <= i < |parts| ==> AllDigits(parts[i])) ==> r.Success?
  {
    var integer :- PartValue(parts[0]);
    var fraction :- if |parts| > 1 then PartValue(parts[1]) else Success(0);
    var text := Pieces(integer, fraction, inflection);
    Success(if |text| == 0 then "ноль " + inflection.few else Join(" ", text))
  }

  /** Once the commas are gone, every piece between dots is a digit string. */
  lemma AmountPartsAreDigits(value: string)
    ensures (forall i :: 0 <= i < |value| ==> IsAmountChar(value[i])) ==>
      forall i :: 0 <= i < |Split(ReplaceCommas(value, []), '.')| ==>
        AllDigits(Split(ReplaceCommas(value, []), '.')[i])
  {
    if forall i :: 0 <= i < |value| ==> IsAmountChar(value[i]) {
      var plain := ReplaceCommas(value, []);
      NoCommaLeftIsDigitOrDot(value);
      SplitDigits(plain, '.');
    }
  }

  lemma {:induction false} NoCommaLeftIsDigitOrDot(value: string)
    requires forall i :: 0 <= i < |value| ==> IsAmountChar(value[i])
    ensures DigitsOr(ReplaceCommas(value, []), '.')
  {
    if value != [] {
      NoCommaLeftIsDigitOrDot(value[1..]);
      var head: string := if value[0] == ',' then [] else [value[0]];
      var rest := ReplaceCommas(value[1..], []);
      var plain := ReplaceCommas(value, []);
      assert plain == head + rest;
      forall i | 0 <= i < |plain|
        ensures IsDigit(plain[i]) || plain[i] == '.'
      {
        if i < |head| {
          assert plain[i] == value[0];
        } else {
          assert plain[i] == rest[i - |head|];
        }
      }
    }
  }

  /** The words for a well-formed amount, stated on the numbers read from its
      two digit strings: "ноль" and the main unit's `few` form when both are
      zero; otherwise the integer piece (its decimal value and unit) and the
      fraction piece (its decimal value, not scaled, and minor unit), each only
      when positive, joined by one space. */
  function Spoken(integer: nat, fraction: nat, inflection: Inflection): string {
    var major := Decimal(integer) + " " + UnitWord(integer, inflection);
    var minor := Decimal(fraction) + " " + MinorUnitWord(fraction, inflection);
    if integer == 0 && fraction == 0 then "ноль " + inflection.few
    else if fraction == 0 then major
    else if integer == 0 then minor
    else major + " " + minor
  }

  /** An amount without a dot is read as a whole number of main units, and
      one with a single dot as main units then minor units, the digits after
      the dot read as an integer ("5" and "05" both give 5). Empty digit
      strings count as 0. */
  lemma AmountWordsOfDigits(whole: string, cents: string, inflection: Inflection)
    requires AllDigits(whole) && AllDigits(cents)
    ensures AmountWords(whole, inflection)
      == Success(Spoken(DigitsValue(whole), 0, inflection))
    ensures AmountWords(whole + "." + cents, inflection)
      == Success(Spoken(DigitsValue(whole), DigitsValue(cents), inflection))
  {
    assert '.' !in whole && ',' !in whole && '.' !in cents && ',' !in cents;
    var value := whole + "." + cents;
    assert AmountWords(whole, inflection) == PartsWords([whole], inflection) by {
      SplitNone(whole, '.');
      assert Split(ReplaceCommas(whole, []), '.') == [whole];
    }
    assert AmountWords(value, inflection) == PartsWords([whole, cents], inflection) by {
      SplitFirst(whole, '.', cents);
      SplitNone(cents, '.');
      assert ',' !in value;
      assert Split(ReplaceCommas(value, []), '.') == [whole, cents];
    }
    PartsWordsOfDigits(whole, cents, inflection);
  }

  lemma PartsWordsOfDigits(whole: string, cents: string, inflection: Inflection)
    requires AllDigits(whole) && AllDigits(cents)
    ensures PartsWords([whole], inflection)
      == Success(Spoken(DigitsValue(whole), 0, inflection))
    ensures PartsWords([whole, cents], inflection)
      == Success(Spoken(DigitsValue(whole), DigitsValue(cents), inflection))
  {
    assert PartValue(whole) == Success(DigitsValue(whole));
    assert PartValue(cents) == Success(DigitsValue(cents));
    SpokenIsJoinedPieces(DigitsValue(whole), DigitsValue(cents), inflection);
    SpokenIsJoinedPieces(DigitsValue(whole), 0, inflection);
  }

  lemma SpokenIsJoinedPieces(integer: nat, fraction: nat, inflection: Inflection)
    ensures var text := Pieces(integer, fraction, inflection);
      Spoken(integer, fraction, inflection)
        == if |text| == 0 then "ноль " + inflection.few else Join(" ", text)
  {
  }

  /** Commas inside an amount with at most one dot change nothing. */
  lemma CommasIgnored(value: string, inflection: Inflection)
    requires Count(value, '.') <= 1
    ensures AmountWords(value, inflection) == AmountWords(ReplaceCommas(value, []), inflection)
  {
    var plain := ReplaceCommas(value, []);
    CountWithoutCommas(value, '.');
    assert ',' !in plain;
    assert ReplaceCommas(plain, []) == plain;
  }

  /** `_expand_currency`: look the symbol up, then expand the amount. */
  function ExpandCurrency(symbol: char, amount: string): (r: Result<string>)
    ensures IsCurrencySymbol(symbol) && (forall i :: 0 <= i < |amount| ==> IsAmountChar(amount[i]))
      ==> r.Success?
    ensures !IsCurrencySymbol(symbol) && symbol != '£' ==> r == Failure(KeyError(symbol))
  {
    if symbol in Currencies then AmountWords(amount, Currencies[symbol])
    else Failure(KeyError(symbol))
  }

  /** `__expand_currency` as written: the pieces are appended to a list one
      at a time and joined at the end. */
  method ExpandCurrencyAmount(value: string, inflection: Inflection) returns (r: Result<string>)
    ensures r == AmountWords(value, inflection)
  {
    var parts := Split(ReplaceCommas(value, []), '.');
    if |parts| > 2 {
      return Success(value + " " + inflection.few);
    }
    var text: seq<string> := [];
    var integer := 0;
    if parts[0] != [] {
      integer :- ParseInt(parts[0]);
    }
    if integer > 0 {
      var integerUnit := UnitWord(integer, inflection);
      text := text + [Decimal(integer) + " " + integerUnit];
    }
    var fraction := 0;
    if |parts| > 1 && parts[1] != [] {
      fraction :- ParseInt(parts[1]);
    }
    if fraction > 0 {
      var fractionUnit := MinorUnitWord(fraction, inflection);
      text := text + [Decimal(fraction) + " " + fractionUnit];
    }
    if |text| == 0 {
      return Success("ноль " + inflection.few);
    }
    return Success(Join(" ", text));
  }
}
