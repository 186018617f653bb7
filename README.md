# Russian number normalisation, modelled in Dafny

This project models `normalize_numbers` of the Russian text front end of the
TTS repository (`TTS/tts/utils/text/russian/number_norm.py`). The function
rewrites the numbers in a text as words. It runs five regular-expression
substitutions over the whole text, one after another:

1. thousands commas inside a digit group are deleted (`1,000` → `1000`);
2. a currency symbol (`₽ $ € ¥`) and its amount become words with the
   currency's unit (`$1.01` → `1 доллар 1 цент`);
3. a comma between digits is spoken (`5,1` → `5 запятая 1`);
4. ordinals (`5-й`, `2го`) are meant to become ordinal words;
5. every remaining integer, with a hyphen directly before it, becomes
   cardinal words.

The model keeps the order of the passes and Python's `re.sub` semantics:
matches are leftmost, greedy and non-overlapping, and the scan resumes
after each match. Each pattern is a matcher proved against a predicate that
describes its language. `num2words` is a parameter `Numerals(cardinal,
ordinal)` of two arbitrary functions. An exception raised by a callback
(`int()` on a bad literal, a missing dictionary key) is a `Failure` of a
`Result`.

Module layout:

- `Wrappers`: `Result` and the two Python errors that can arise.
- `PyStr`: the ASCII digit class, `str.count`, `str.replace(",", …)`,
  `str.split`, `str.join`.
- `PyInt`: `int()` and `str()` on digit strings.
- `Patterns`: the five regular expressions (lines 5-9).
- `Currency`: the inflection table and `__expand_currency`. The amount is
  read both as a function (`AmountWords`) and as the source's list-building
  procedure (`ExpandCurrencyAmount`), which is proved equal to it.
- `Passes`: the five `re.sub` passes and their callbacks.
- `NumberNorm`: `normalize_numbers` as a function (`Normalized`) and as the
  source's step-by-step rebinding (`NormalizeNumbers`).

Three behaviours of the code are modelled as written:

- The ordinal pass can never succeed. `_expand_ordinal` applies `int()` to
  the whole match, and every match ends in a Cyrillic suffix letter, so
  `int()` raises `ValueError`. The pass raises exactly when its pattern
  matches somewhere (`Passes.SpellOrdinals`). So `normalize_numbers`
  raises on any text where, after the first three passes, a digit run is
  followed by an ordinal suffix. When it does not raise, the ordinal pass
  has changed nothing.
- The minor unit is looked up with the float key `fraction / 100`. A Python
  dictionary treats `1.0` and `1` as the same key. So a fraction of 100 or
  200 finds the main unit's words (`"100 доллар"`, `"200 доллара"`), 1 finds
  the 0.01 entry, and every other fraction falls back to the 0.02 entry.
- An amount with more than one dot is returned as the amount text (group 2
  of the match, commas kept, WITHOUT the currency symbol) followed by the
  main unit's plural. The symbol is not part of group 2, so it is dropped.

The decimal pass rarely fires: the comma pass has already deleted every
comma that stands between digits. It only sees `digit,digit` when the
currency pass created it, as in `5,$1` → `5,1 доллар` → `5 запятая 1
доллар` (`NumberNorm.DecimalAfterCurrencyExample`).

## Model

| member | source | states |
|---|---|---|
| `PyStr.ReplaceCommas` | TTS/tts/utils/text/russian/number_norm.py:13 | `str.replace(",", repl)`: a comma-free string is unchanged; with a comma-free replacement no comma is left; deleting commas shortens the string by their count |
| `PyStr.ReplaceCommasAppend` | TTS/tts/utils/text/russian/number_norm.py:17 | replacing commas works piece by piece over a concatenation |
| `PyStr.DeletedCommas` | TTS/tts/utils/text/russian/number_norm.py:13 | deleting the commas keeps every other character, as often as it occurs |
| `PyStr.ReplaceCommasLength` | TTS/tts/utils/text/russian/number_norm.py:17 | each comma replaced grows the string by the replacement's length less one |
| `PyStr.CountWithoutCommas` | TTS/tts/utils/text/russian/number_norm.py:21 | deleting commas keeps the number of dots, so the parts of the amount are the dots of the original plus one |
| `PyStr.Split` | TTS/tts/utils/text/russian/number_norm.py:21 | `str.split(sep)` gives one more part than there are separators, and no part holds the separator |
| `PyStr.JoinSplit` | TTS/tts/utils/text/russian/number_norm.py:21 | joining the parts of a split with the separator gives the string back |
| `PyStr.SplitDigits` | TTS/tts/utils/text/russian/number_norm.py:21-29 | splitting digits and dots at the dots leaves only digit parts |
| `PyStr.SplitNone` | TTS/tts/utils/text/russian/number_norm.py:21 | a string without the separator splits into itself |
| `PyStr.SplitFirst` | TTS/tts/utils/text/russian/number_norm.py:21 | a separator after a separator-free head splits off exactly that head |
| `PyStr.Join` | TTS/tts/utils/text/russian/number_norm.py:35 | `sep.join(parts)` begins with the first part |
| `PyStr.JoinLength` | TTS/tts/utils/text/russian/number_norm.py:35 | the joined string is as long as the parts together plus one separator between each two |
| `PyInt.Decimal` | TTS/tts/utils/text/russian/number_norm.py:28 | `str(n)` of a non-negative integer is a digit string with no leading zero except "0" |
| `PyInt.DecimalValue` | TTS/tts/utils/text/russian/number_norm.py:28 | reading back what `str()` printed gives the number |
| `PyInt.ValueDecimal` | TTS/tts/utils/text/russian/number_norm.py:25 | printing the value of a canonical digit string gives the string back |
| `PyInt.ParseInt` | TTS/tts/utils/text/russian/number_norm.py:84 | `int(s)` succeeds exactly on an optionally signed ASCII digit string, otherwise raises ValueError naming `s`; unsigned literals are non-negative |
| `PyInt.ParseDecimal` | TTS/tts/utils/text/russian/number_norm.py:84 | `int(str(n)) == n` and `int("-" + str(n)) == -n` |
| `Patterns.GroupedNumberMatch` | TTS/tts/utils/text/russian/number_norm.py:5 | a match of `[0-9][0-9\,]+[0-9]` at the front is a prefix in that language: a digit, digits and commas, a digit |
| `Patterns.GroupedNumberLongest` | TTS/tts/utils/text/russian/number_norm.py:5 | no longer prefix is in that language, so the match is the greedy one, and none is found only when no prefix fits |
| `Patterns.CurrencyMatch` | TTS/tts/utils/text/russian/number_norm.py:7 | a match of the currency pattern at the front is one of `₽ $ € ¥` followed by digits, commas and dots ending in a digit |
| `Patterns.CurrencyLongest` | TTS/tts/utils/text/russian/number_norm.py:7 | no longer prefix is a currency expression, so the match is the greedy one |
| `Patterns.DecimalMatch` | TTS/tts/utils/text/russian/number_norm.py:6 | a match of `[0-9]+\,[0-9]+` at the front is digits, one comma and digits |
| `Patterns.DecimalLongest` | TTS/tts/utils/text/russian/number_norm.py:6 | no longer prefix is digits, a comma and digits, so the match is the greedy one |
| `Patterns.SuffixesNonEmpty` | TTS/tts/utils/text/russian/number_norm.py:8 | every ordinal suffix is one or two letters, none a digit or a hyphen |
| `Patterns.FirstPrefix` | TTS/tts/utils/text/russian/number_norm.py:8 | the alternation picks the first alternative, in order, that the text starts with |
| `Patterns.SuffixLengthSound` | TTS/tts/utils/text/russian/number_norm.py:8 | the suffix picked at the front is one of the alternatives, and when none is picked no alternative fits |
| `Patterns.SuffixChoice` | TTS/tts/utils/text/russian/number_norm.py:8 | a suffix is picked exactly when some alternative fits, and it is the first alternative, in the written order, that fits |
| `Patterns.OrdinalMatch` | TTS/tts/utils/text/russian/number_norm.py:8 | a match of the ordinal pattern at the front is digits, an optional hyphen and one whole suffix |
| `Patterns.OrdinalMatchSound` | TTS/tts/utils/text/russian/number_norm.py:8 | the hyphenated form is tried before the plain one, and whichever is taken is digits, an optional hyphen and one whole suffix inside the text |
| `Patterns.OrdinalMatchComplete` | TTS/tts/utils/text/russian/number_norm.py:8 | when the matcher finds nothing no prefix is digits, an optional hyphen and a suffix, so it matches exactly when the pattern does |
| `Patterns.NumberMatch` | TTS/tts/utils/text/russian/number_norm.py:9 | a match of `-?[0-9]+` at the front is a digit run, with or without one hyphen before it |
| `Patterns.NumberLongest` | TTS/tts/utils/text/russian/number_norm.py:9 | no longer prefix is a signed digit run, so the match is the greedy one |
| `Patterns.GroupedNumberMatchOfPrefix` | TTS/tts/utils/text/russian/number_norm.py:5 | the comma-group match at the front stays the same when text is appended and the character on one side of the cut cannot belong to a match |
| `Patterns.CurrencyMatchOfPrefix` | TTS/tts/utils/text/russian/number_norm.py:7 | the currency match at the front stays the same when text is appended and the character on one side of the cut cannot belong to a match |
| `Patterns.CurrencyMatchBeforeRest` | TTS/tts/utils/text/russian/number_norm.py:7 | an expression followed by text whose leading amount characters hold no digit keeps its match: the greedy amount gives those characters back |
| `Patterns.DecimalMatchOfPrefix` | TTS/tts/utils/text/russian/number_norm.py:6 | the decimal match at the front stays the same when text is appended and the character on one side of the cut cannot belong to a match |
| `Currency.CurrencyRows` | TTS/tts/utils/text/russian/number_norm.py:39-70 | the table has a row for exactly `$ € £ ¥ ₽`, and `£` is not a symbol the currency pattern accepts |
| `Currency.GetEntries` | TTS/tts/utils/text/russian/number_norm.py:27-31 | `dict.get` returns the value under the first of the keys 0.01, 0.02, 1, 2 that is numerically equal to the key asked for, and the default when none is |
| `Currency.UnitWord` | TTS/tts/utils/text/russian/number_norm.py:27 | the main unit is `inflection.get(integer, inflection[2])` under Python's numeric key equality |
| `Currency.MinorUnitWord` | TTS/tts/utils/text/russian/number_norm.py:31 | the minor unit is `inflection.get(fraction / 100, inflection[0.02])`, the key compared as the exact quotient |
| `Currency.AmountWords` | TTS/tts/utils/text/russian/number_norm.py:20-35 | an amount of digits, commas and dots never raises; one with more than one dot gives the amount text and the main unit's plural |
| `Currency.AmountWordsOfDigits` | TTS/tts/utils/text/russian/number_norm.py:24-35 | a whole number, or whole and fraction digits around one dot, is read as its integer with the main unit and its fraction (unscaled) with the minor unit, each only when positive, and "ноль" with the plural when both are zero |
| `Currency.PartsWordsOfDigits` | TTS/tts/utils/text/russian/number_norm.py:24-35 | one or two all-digit parts are read as the spoken integer and fraction |
| `Currency.CommasIgnored` | TTS/tts/utils/text/russian/number_norm.py:21 | commas in an amount with at most one dot change nothing |
| `Currency.ExpandCurrency` | TTS/tts/utils/text/russian/number_norm.py:71-74 | a matched symbol always finds its table row and the amount never raises; a symbol outside the table raises KeyError |
| `Currency.ExpandCurrencyAmount` | TTS/tts/utils/text/russian/number_norm.py:20-35 | the list-building procedure computes exactly `AmountWords` |
| `Passes.RemoveCommas` | TTS/tts/utils/text/russian/number_norm.py:12-13 | `_remove_commas` leaves no comma, and its result is shorter by exactly the number of commas |
| `Passes.RemoveCommasKeepsOthers` | TTS/tts/utils/text/russian/number_norm.py:12-13 | `_remove_commas` keeps every other character of the match, as often as it occurs |
| `Passes.StripGroupCommas` | TTS/tts/utils/text/russian/number_norm.py:89 | the comma pass keeps the first character and never lengthens the text |
| `Passes.StripKeepsNonCommas` | TTS/tts/utils/text/russian/number_norm.py:12-13 | the comma pass only deletes commas: all other characters stay, in order |
| `Passes.StripRun` | TTS/tts/utils/text/russian/number_norm.py:5-13 | a comma-group run between commas: the run is replaced by its digits when it is at least three characters long, and the commas around it are kept |
| `Passes.StripLeadingCommas` | TTS/tts/utils/text/russian/number_norm.py:5 | commas before a match are copied unchanged, as a match starts with a digit |
| `Passes.StripAppend` | TTS/tts/utils/text/russian/number_norm.py:89 | the comma pass works piece by piece wherever the cut does not fall between two digits-or-commas |
| `Passes.StripStepOfAppend` | TTS/tts/utils/text/russian/number_norm.py:89 | the first match or copied character of a text is the same with more text after it when the cut is safe |
| `Passes.StripAddsNothing` | TTS/tts/utils/text/russian/number_norm.py:89 | the comma pass adds no character the text did not have |
| `Passes.StripClears` | TTS/tts/utils/text/russian/number_norm.py:89 | after the comma pass no digit is followed by commas and then a digit |
| `Passes.StripFixpoint` | TTS/tts/utils/text/russian/number_norm.py:89 | text with no digit, commas and digit in a row is unchanged |
| `Passes.StripIdentityIff` | TTS/tts/utils/text/russian/number_norm.py:89 | the comma pass changes a text exactly when it has a digit, commas and a digit in a row; running it twice is running it once |
| `Passes.CommaFreeHasNoShape` | TTS/tts/utils/text/russian/number_norm.py:5 | text without commas has nothing for the comma pass |
| `Passes.ExpandCurrencies` | TTS/tts/utils/text/russian/number_norm.py:90 | the currency pass never raises, and leaves text without digits or without currency symbols unchanged |
| `Passes.LoneCurrencyExpression` | TTS/tts/utils/text/russian/number_norm.py:38-74 | a currency expression on its own is replaced by `_expand_currency`'s words |
| `Passes.CurrenciesAppend` | TTS/tts/utils/text/russian/number_norm.py:90 | the currency pass works piece by piece wherever the cut does not fall inside a currency expression |
| `Passes.CurrencyStepOfAppend` | TTS/tts/utils/text/russian/number_norm.py:90 | the first match or copied character of a text is the same with more text after it when the cut is safe |
| `Passes.CurrencyBeforeRest` | TTS/tts/utils/text/russian/number_norm.py:90 | an expression inside text becomes its words and the rest of the text is scanned on, wherever what follows does not extend the amount to a further digit |
| `Passes.LoneExpressionWithTail` | TTS/tts/utils/text/russian/number_norm.py:90 | commas and dots after an amount stay after its words (`"$1."` gives `"1 доллар."`) |
| `Passes.SpellDecimalCommas` | TTS/tts/utils/text/russian/number_norm.py:91 | the decimal pass changes nothing unless a digit is followed by commas and a digit |
| `Passes.SpeakComma` | TTS/tts/utils/text/russian/number_norm.py:16-17 | `_expand_decimal_point` leaves no comma, leaves comma-free text as it is, and each comma grows the text by eight characters |
| `Passes.DecimalMatchShowsShape` | TTS/tts/utils/text/russian/number_norm.py:6 | every decimal match is a digit, a comma and a digit |
| `Passes.SpelledDecimal` | TTS/tts/utils/text/russian/number_norm.py:16-17 | digits, a comma, digits: the comma is spoken as " запятая " and the digits stay |
| `Passes.DecimalsAppend` | TTS/tts/utils/text/russian/number_norm.py:91 | the decimal pass works piece by piece wherever the cut is not next to a digit or a comma on both sides |
| `Passes.DecimalStepOfAppend` | TTS/tts/utils/text/russian/number_norm.py:91 | the first match or copied character of a text is the same with more text after it when the cut is safe |
| `Passes.DecimalMatchBeforeRest` | TTS/tts/utils/text/russian/number_norm.py:6 | digits, a comma and digits followed by a non-digit are matched whole |
| `Passes.DecimalBeforeRest` | TTS/tts/utils/text/russian/number_norm.py:91 | such a match inside text has its comma spoken, and the rest of the text is scanned on |
| `Passes.NoDecimalMatchUnchanged` | TTS/tts/utils/text/russian/number_norm.py:91 | text where the pattern matches at no position is unchanged, whatever digit and comma runs it holds |
| `Passes.ExpandOrdinal` | TTS/tts/utils/text/russian/number_norm.py:77-80 | `_expand_ordinal` succeeds exactly when the match is an integer literal, and otherwise raises ValueError naming it |
| `Passes.OrdinalRejected` | TTS/tts/utils/text/russian/number_norm.py:78 | every ordinal match is rejected by `int()` |
| `Passes.SpellOrdinals` | TTS/tts/utils/text/russian/number_norm.py:92 | the ordinal pass raises ValueError exactly when its pattern matches somewhere, and otherwise changes nothing |
| `Passes.OrdinalErrorAtFront` | TTS/tts/utils/text/russian/number_norm.py:92 | a match at the front raises with that match's text |
| `Passes.OrdinalNeedsFollower` | TTS/tts/utils/text/russian/number_norm.py:8 | the ordinal pattern matches only where a digit is directly followed by a hyphen or a suffix's first letter |
| `Passes.DigitFreeHasNoOrdinal` | TTS/tts/utils/text/russian/number_norm.py:8 | text without digits has no ordinal match |
| `Passes.ExpandNumber` | TTS/tts/utils/text/russian/number_norm.py:83-85 | `_expand_number` succeeds exactly on an integer literal |
| `Passes.SpellCardinals` | TTS/tts/utils/text/russian/number_norm.py:93 | the cardinal pass never raises, leaves digit-free text unchanged, and leaves no digit when the converter writes none |
| `Passes.CardinalOfNumber` | TTS/tts/utils/text/russian/number_norm.py:83-85 | a digit run alone becomes the cardinal of its value; after a hyphen, of its negation |
| `Passes.CardinalsAppend` | TTS/tts/utils/text/russian/number_norm.py:93 | the cardinal pass works piece by piece wherever the cut neither splits a number nor separates a hyphen from its digits |
| `NumberNorm.Normalized` | TTS/tts/utils/text/russian/number_norm.py:88-94 | `normalize_numbers` raises exactly when the ordinal pattern matches after the first three passes, and then with ValueError |
| `NumberNorm.NormalizeNumbers` | TTS/tts/utils/text/russian/number_norm.py:88-94 | the step-by-step rebinding of `text` computes exactly the composition of the five passes |
| `NumberNorm.SucceedsAsCardinals` | TTS/tts/utils/text/russian/number_norm.py:88-94 | when the normaliser does not raise, it returns the cardinal pass's output on the text the first three passes leave |
| `NumberNorm.FailureNeedsOrdinalFollower` | TTS/tts/utils/text/russian/number_norm.py:92 | it raises only where a digit is followed by a hyphen or a suffix letter after the first three passes |
| `NumberNorm.DigitFreeUnchanged` | TTS/tts/utils/text/russian/number_norm.py:88-94 | text without digits is returned unchanged |
| `NumberNorm.PlainText` | TTS/tts/utils/text/russian/number_norm.py:89-91 | without commas and currency symbols the first three passes change nothing |
| `NumberNorm.NoCurrencyText` | TTS/tts/utils/text/russian/number_norm.py:88-94 | without currency symbols only the comma pass changes the text before the ordinal pass, and the normaliser raises exactly when the ordinal pattern matches in its output |
| `NumberNorm.NoDigitsLeft` | TTS/tts/utils/text/russian/number_norm.py:93 | when the converter writes no digits, a successful result holds no digit |
| `NumberNorm.OrdinalExample` | TTS/tts/utils/text/russian/number_norm.py:77-78 | "5-й" raises ValueError("5-й") |
| `NumberNorm.HyphenOrdinalRejected` | TTS/tts/utils/text/russian/number_norm.py:92 | the ordinal pass on "5-й" raises ValueError("5-й") |
| `NumberNorm.FirstAlternativeWins` | TTS/tts/utils/text/russian/number_norm.py:8 | in "5ее" the alternation takes "е", the first alternative that fits, not the longer "ее" |
| `NumberNorm.OneDollarExample` | TTS/tts/utils/text/russian/number_norm.py:38-74 | "$1" becomes "1 доллар" |
| `NumberNorm.DollarAtSentenceEnd` | TTS/tts/utils/text/russian/number_norm.py:90 | "$1." becomes "1 доллар." |
| `NumberNorm.DoubleCommaKept` | TTS/tts/utils/text/russian/number_norm.py:91 | "5,,1" is not a decimal match and is kept |
| `NumberNorm.DecimalAfterCurrencyExample` | TTS/tts/utils/text/russian/number_norm.py:88-94 | "5,$1" becomes the cardinal of 5, " запятая ", the cardinal of 1 and " доллар" |

## Left out

- `num2words` is not part of this model. Its two conversions are parameters
  of type `int -> string`, so its words, its errors and its limits are not
  modelled.
- `int()` is modelled only on the strings the patterns can hand it (ASCII
  digits with an optional sign). Its handling of whitespace, underscores,
  non-ASCII digits and its limit on the number of digits is left out.
- The fraction lookup key `fraction / 100` is a float; the model uses the
  exact quotient (`Currency.Key(fraction, 100)`), compared with the table's
  keys by cross-multiplication. Float rounding of very long fractions, and
  the OverflowError Python raises for a fraction too large for a float, are
  left out.
- Python's general regular-expression engine is not modelled: each of the
  five patterns has its own matcher, proved against its language.
- The pound row of the currency table is kept as data, but the currency
  pattern cannot match `£`, so it is never used.
- The success branch of `_expand_ordinal` (the call to the ordinal
  converter) is not modelled in the pass: it is dead code, because
  `Passes.OrdinalRejected` proves that `int()` rejects every match.
- Passes.StripKeepsNonCommas: states only that the characters other than
  commas survive in order; which commas go is stated by `Passes.StripRun`,
  `Passes.StripLeadingCommas` and `Passes.StripAppend`.
- Passes.ExpandCurrencies: its own contract states only that it never raises
  and when it leaves the text alone; what it does to each expression,
  including one followed by commas or dots, is stated by
  `Passes.CurrencyBeforeRest` (with `Passes.LoneExpressionWithTail` and
  `Passes.LoneCurrencyExpression`) and `Passes.CurrenciesAppend`.
- Passes.SpellDecimalCommas: its own contract states only when it leaves the
  text alone; what it does to each match, including one followed by a
  comma, is stated by `Passes.DecimalBeforeRest`, `Passes.SpelledDecimal`
  and `Passes.DecimalsAppend`, and text with runs such as `5,,1` that hold
  no match is covered by `Passes.NoDecimalMatchUnchanged`.
