/** The few pieces of Python's `str` that the normaliser relies on: the ASCII
    digit class `[0-9]`, `str.count`, `str.replace(",", ...)`, `str.split(sep)`
    and `sep.join(parts)`. Strings are sequences of Unicode code points. */
module PyStr {

  /** The regex class `[0-9]`: ASCII digits only. */
  predicate IsDigit(c: char) {
    '0' <= c <= '9'
  }

  predicate AllDigits(s: string) {
    forall i :: 0 <= i < |s| ==> IsDigit(s[i])
  }

  predicate NoDigits(s: string) {
    forall i :: 0 <= i < |s| ==> !IsDigit(s[i])
  }

  /** Every character is an ASCII digit or `sep`. */
  predicate DigitsOr(s: string, sep: char) {
    forall i :: 0 <= i < |s| ==> IsDigit(s[i]) || s[i] == sep
  }

  /** `s.count(c)` for a one-character needle. */
  function Count(s: string, c: char): (n: nat)
    ensures n <= |s|
    ensures n == 0 <==> c !in s
  {
    if s == [] then 0 else (if s[0] == c then 1 else 0) + Count(s[1..], c)
  }

  /** `s.replace(",", repl)`: every comma of `s` becomes `repl`. */
  function ReplaceCommas(s: string, repl: string): (r: string)
    ensures ',' !in s ==> r == s
    ensures ',' !in repl ==> ',' !in r
    ensures repl == [] ==> |r| == |s| - Count(s, ',')
  {
    if s == [] then []
    else (if s[0] == ',' then repl else [s[0]]) + ReplaceCommas(s[1..], repl)
  }

  lemma {:induction false} ReplaceCommasAppend(a: string, b: string, repl: string)
    ensures ReplaceCommas(a + b, repl) == ReplaceCommas(a, repl) + ReplaceCommas(b, repl)
  {
    if a != [] {
      assert (a + b)[1..] == a[1..] + b;
      ReplaceCommasAppend(a[1..], b, repl);
    } else {
      assert a + b == b;
    }
  }

  /** Deleting the commas keeps every other character, so it keeps their count. */
  lemma {:induction false} CountWithoutCommas(s: string, c: char)
    requires c != ','
    ensures Count(ReplaceCommas(s, []), c) == Count(s, c)
  {
    if s != [] {
      CountWithoutCommas(s[1..], c);
      CountAppend(if s[0] == ',' then [] else [s[0]], ReplaceCommas(s[1..], []), c);
    }
  }

  /** Deleting the commas leaves every other character as often as it
      occurred. */
  lemma {:induction false} DeletedCommas(s: string)
    ensures multiset(ReplaceCommas(s, [])) == multiset(s)[',' := 0]
  {
    if s != [] {
      DeletedCommas(s[1..]);
      assert s == [s[0]] + s[1..];
      assert multiset(s) == multiset([s[0]]) + multiset(s[1..]);
    }
  }

  /** Every comma is replaced by the whole of `repl`. */
  lemma {:induction false} ReplaceCommasLength(s: string, repl: string)
    ensures |ReplaceCommas(s, repl)| == |s| + (|repl| - 1) * Count(s, ',')
  {
    if s != [] {
      ReplaceCommasLength(s[1..], repl);
      var rest := ReplaceCommas(s[1..], repl);
      var n := Count(s[1..], ',');
      if s[0] == ',' {
        assert ReplaceCommas(s, repl) == repl + rest;
        assert Count(s, ',') == n + 1;
        OneMore(|repl| - 1, n);
      } else {
        assert ReplaceCommas(s, repl) == [s[0]] + rest;
        assert Count(s, ',') == n;
      }
    }
  }

  lemma OneMore(d: int, n: int)
    ensures d * (n + 1) == d * n + d
  {
  }

  lemma {:induction false} CountAppend(a: string, b: string, c: char)
    ensures Count(a + b, c) == Count(a, c) + Count(b, c)
  {
    if a != [] {
      assert (a + b)[1..] == a[1..] + b;
      CountAppend(a[1..], b, c);
    } else {
      assert a + b == b;
    }
  }

  /** `s.split(sep)`: the pieces between separators, empty pieces included;
      there is always one more piece than there are separators. */
  function Split(s: string, sep: char): (parts: seq<string>)
    ensures |parts| == Count(s, sep) + 1
    ensures forall i :: 0 <= i < |parts| ==> sep !in parts[i]
  {
    if s == [] then [[]]
    else
      var rest := Split(s[1..], sep);
      if s[0] == sep then [[]] + rest
      else [[s[0]] + rest[0]] + rest[1..]
  }

  /** The summed length of the parts. */
  function TotalLength(parts: seq<string>): nat {
    if parts == [] then 0 else |parts[0]| + TotalLength(parts[1..])
  }

  /** `sep.join(parts)`: the parts in order with one separator between
      neighbours; it starts with the first part. */
  function Join(sep: string, parts: seq<string>): (r: string)
    ensures |parts| > 0 ==> parts[0] <= r
  {
    if |parts| == 0 then []
    else if |parts| == 1 then parts[0]
    else parts[0] + sep + Join(sep, parts[1..])
  }

  /** The joined text is as long as the parts plus one separator fewer than
      there are parts. */
  lemma {:induction false} JoinLength(sep: string, parts: seq<string>)
    requires |parts| > 0
    ensures |Join(sep, parts)| == TotalLength(parts) + |sep| * (|parts| - 1)
  {
    if |parts| > 1 {
      JoinLength(sep, parts[1..]);
      OneMore(|sep|, |parts| - 2);
    }
  }

  /** Joining the pieces of a split with the separator gives the string back. */
  lemma {:induction false} JoinSplit(s: string, sep: char)
    ensures Join([sep], Split(s, sep)) == s
  {
    if s != [] {
      var rest := Split(s[1..], sep);
      JoinSplit(s[1..], sep);
      if s[0] == sep {
        assert Split(s, sep)[1..] == rest;
      } else {
        var parts := Split(s, sep);
        assert parts[1..] == rest[1..];
        if |rest| > 1 {
          assert Join([sep], rest) == rest[0] + [sep] + Join([sep], rest[1..]);
        }
      }
    }
  }

  /** Splitting text made of digits and separators leaves only digit pieces. */
  lemma {:induction false} SplitDigits(s: string, sep: char)
    requires DigitsOr(s, sep)
    ensures forall i :: 0 <= i < |Split(s, sep)| ==> AllDigits(Split(s, sep)[i])
  {
    if s != [] {
      SplitDigits(s[1..], sep);
      var rest := Split(s[1..], sep);
      if s[0] != sep {
        assert AllDigits(rest[0]);
        assert AllDigits([s[0]] + rest[0]);
      }
    }
  }

  /** A string holding no separator splits into itself alone. */
  lemma {:induction false} SplitNone(s: string, sep: char)
    requires sep !in s
    ensures Split(s, sep) == [s]
  {
    if s != [] {
      SplitNone(s[1..], sep);
      assert [s[0]] + s[1..] == s;
    }
  }

  /** A separator after a separator-free head cuts off exactly that head. */
  lemma {:induction false} SplitFirst(a: string, sep: char, b: string)
    requires sep !in a
    ensures Split(a + [sep] + b, sep) == [a] + Split(b, sep)
  {
    if a == [] {
      assert a + [sep] + b == [sep] + b;
      assert ([sep] + b)[1..] == b;
    } else {
      assert (a + [sep] + b)[1..] == a[1..] + [sep] + b;
      SplitFirst(a[1..], sep, b);
      assert [a[0]] + a[1..] == a;
    }
  }
}
