/**
 * The .NET string operations the two tools rely on, as functions on
 * `seq<char>`: `String.Join`, `Replace` of a one-character string by the
 * empty string, `Trim(char)`, and the invariant-culture decimal rendering
 * of a non-negative integer, with and without the `00` format.
 */
module Text {

  // ---------------------------------------------------------------------
  // String.Join and its inverse

  /** `String.Join(sep, xs)`: the items with `sep` between consecutive ones. */
  function Join(sep: string, xs: seq<string>): (s: string)
    ensures |xs| == 0 ==> s == ""
    ensures |xs| == 1 ==> s == xs[0]
    ensures |xs| >= 1 ==> |s| >= |xs[0]| && s[..|xs[0]|] == xs[0]
  {
    if |xs| == 0 then ""
    else if |xs| == 1 then xs[0]
    else xs[0] + sep + Join(sep, xs[1..])
  }

  /** `s.Split(sep)`: the pieces between occurrences of `sep`; always at least one. */
  function Split(s: string, sep: char): (parts: seq<string>)
    ensures |parts| >= 1
  {
    if |s| == 0 then [""]
    else
      var rest := Split(s[1..], sep);
      if s[0] == sep then [""] + rest
      else [[s[0]] + rest[0]] + rest[1..]
  }

  /** A string without the separator is one piece. */
  lemma {:induction false} SplitNoSeparator(a: string, sep: char)
    requires sep !in a
    ensures Split(a, sep) == [a]
  {
    if |a| > 0 {
      SplitNoSeparator(a[1..], sep);
      assert [a[0]] + a[1..] == a;
    }
  }

  /** Splitting peels off the piece before the first separator. */
  lemma {:induction false} SplitAfterPiece(a: string, sep: char, b: string)
    requires sep !in a
    ensures Split(a + [sep] + b, sep) == [a] + Split(b, sep)
  {
    if |a| == 0 {
      assert a + [sep] + b == [sep] + b;
      assert ([sep] + b)[1..] == b;
    } else {
      assert (a + [sep] + b)[1..] == a[1..] + [sep] + b;
      SplitAfterPiece(a[1..], sep, b);
      assert [a[0]] + a[1..] == a;
    }
  }

  /** Splitting a join on a separator no item contains gives the items back. */
  lemma {:induction false} SplitJoin(xs: seq<string>, sep: char)
    requires |xs| >= 1
    requires forall i | 0 <= i < |xs| :: sep !in xs[i]
    ensures Split(Join([sep], xs), sep) == xs
  {
    if |xs| == 1 {
      SplitNoSeparator(xs[0], sep);
    } else {
      SplitJoin(xs[1..], sep);
      SplitAfterPiece(xs[0], sep, Join([sep], xs[1..]));
      assert [xs[0]] + xs[1..] == xs;
    }
  }

  /**
   * Each item followed by the terminator `t`: what a run of
   * `sb.Append($"{item}{t}")` calls appends.
   */
  function Terminated(xs: seq<string>, t: char): (s: string)
    ensures |xs| > 0 ==> |s| > 0 && s[|s| - 1] == t
  {
    if |xs| == 0 then ""
    else Terminated(xs[..|xs| - 1], t) + xs[|xs| - 1] + [t]
  }

  /** `Terminated` taken from the front. */
  lemma {:induction false} TerminatedCons(x: string, xs: seq<string>, t: char)
    ensures Terminated([x] + xs, t) == x + [t] + Terminated(xs, t)
    decreases |xs|
  {
    if |xs| > 0 {
      var ys := [x] + xs;
      assert ys[..|ys| - 1] == [x] + xs[..|xs| - 1];
      TerminatedCons(x, xs[..|xs| - 1], t);
    }
  }

  /** Splitting terminated items on the terminator gives the items and one empty tail. */
  lemma {:induction false} SplitTerminated(xs: seq<string>, t: char)
    requires forall i | 0 <= i < |xs| :: t !in xs[i]
    ensures Split(Terminated(xs, t), t) == xs + [""]
  {
    if |xs| > 0 {
      TerminatedCons(xs[0], xs[1..], t);
      assert [xs[0]] + xs[1..] == xs;
      SplitTerminated(xs[1..], t);
      SplitAfterPiece(xs[0], t, Terminated(xs[1..], t));
    }
  }

  // ---------------------------------------------------------------------
  // Replace(c, String.Empty)

  /** `s.Replace(c.ToString(), String.Empty)`: every occurrence of `c` dropped. */
  function RemoveChar(s: string, c: char): (r: string)
    ensures c !in r
    ensures |r| <= |s|
    ensures forall d | d != c :: multiset(r)[d] == multiset(s)[d]
  {
    if |s| == 0 then ""
    else
      assert s == s[..|s| - 1] + [s[|s| - 1]];
      var init := RemoveChar(s[..|s| - 1], c);
      if s[|s| - 1] == c then init else init + [s[|s| - 1]]
  }

  /** Removing the character keeps the others in their original order. */
  lemma {:induction false} RemoveCharKeepsOrder(s: string, c: char)
    ensures RemoveChar(s, c) == Filtered(s, c)
  {
    if |s| > 0 {
      RemoveCharKeepsOrder(s[..|s| - 1], c);
      FilteredSnoc(s[..|s| - 1], s[|s| - 1], c);
      assert s[..|s| - 1] + [s[|s| - 1]] == s;
    }
  }

  /** An independent reference: the characters other than `c`, taken from the front. */
  function Filtered(s: string, c: char): string {
    if |s| == 0 then "" else (if s[0] == c then "" else [s[0]]) + Filtered(s[1..], c)
  }

  lemma {:induction false} FilteredSnoc(s: string, x: char, c: char)
    ensures Filtered(s + [x], c) == Filtered(s, c) + (if x == c then "" else [x])
  {
    if |s| > 0 {
      assert (s + [x])[1..] == s[1..] + [x];
      FilteredSnoc(s[1..], x, c);
    }
  }

  /** A string free of `c` is left as it is; so removing twice is removing once. */
  lemma {:induction false} RemoveCharAbsent(s: string, c: char)
    requires c !in s
    ensures RemoveChar(s, c) == s
  {
    if |s| > 0 {
      RemoveCharAbsent(s[..|s| - 1], c);
      assert s[..|s| - 1] + [s[|s| - 1]] == s;
    }
  }

  lemma RemoveCharIdempotent(s: string, c: char)
    ensures RemoveChar(RemoveChar(s, c), c) == RemoveChar(s, c)
  {
    RemoveCharAbsent(RemoveChar(s, c), c);
  }

  // ---------------------------------------------------------------------
  // Trim(c)

  /** How many copies of `c` open `s`. */
  function LeadingCount(s: string, c: char): (n: nat)
    ensures n <= |s|
    ensures forall k | 0 <= k < n :: s[k] == c
    ensures n < |s| ==> s[n] != c
  {
    if |s| == 0 || s[0] != c then 0 else 1 + LeadingCount(s[1..], c)
  }

  /** How many copies of `c` close `s`. */
  function TrailingCount(s: string, c: char): (n: nat)
    ensures n <= |s|
    ensures forall k | |s| - n <= k < |s| :: s[k] == c
    ensures n < |s| ==> s[|s| - n - 1] != c
  {
    if |s| == 0 || s[|s| - 1] != c then 0 else 1 + TrailingCount(s[..|s| - 1], c)
  }

  /** `s.Trim(c)`: `s` without its leading and trailing runs of `c`. */
  function Trim(s: string, c: char): (r: string)
    ensures |r| > 0 ==> r[0] != c && r[|r| - 1] != c
    ensures exists i, j | 0 <= i <= j <= |s| ::
              r == s[i..j] && (forall k | 0 <= k < i :: s[k] == c) && (forall k | j <= k < |s| :: s[k] == c)
  {
    var i := LeadingCount(s, c);
    if i == |s| then
      assert s[i..i] == "";
      ""
    else
      var j := |s| - TrailingCount(s, c);
      assert s[|s| - 1] != c ==> j == |s|;
      assert i < j;
      s[i..j]
  }

  /** Trimming a string that neither starts nor ends with `c` changes nothing. */
  lemma TrimUntouched(s: string, c: char)
    requires |s| > 0 ==> s[0] != c && s[|s| - 1] != c
    ensures Trim(s, c) == s
  {
    if |s| > 0 {
      assert LeadingCount(s, c) == 0;
      assert TrailingCount(s, c) == 0;
    }
  }

  /** Trimming twice is trimming once. */
  lemma TrimIdempotent(s: string, c: char)
    ensures Trim(Trim(s, c), c) == Trim(s, c)
  {
    TrimUntouched(Trim(s, c), c);
  }

  // ---------------------------------------------------------------------
  // Decimal rendering

  predicate IsDigit(ch: char) {
    '0' <= ch <= '9'
  }

  function DigitChar(d: nat): (ch: char)
    requires d < 10
    ensures IsDigit(ch)
  {
    ['0', '1', '2', '3', '4', '5', '6', '7', '8', '9'][d]
  }

  function DigitValue(ch: char): (d: nat)
    requires IsDigit(ch)
    ensures d < 10
  {
    ch as int - '0' as int
  }

  lemma DigitRoundTrip(d: nat)
    requires d < 10
    ensures DigitValue(DigitChar(d)) == d
  {
  }

  /** `n.ToString()`: the shortest decimal numeral of `n`. */
  function DecimalString(n: nat): (s: string)
    ensures |s| >= 1
    ensures forall k | 0 <= k < |s| :: IsDigit(s[k])
    ensures |s| > 1 ==> s[0] != '0'
  {
    if n < 10 then [DigitChar(n)]
    else DecimalString(n / 10) + [DigitChar(n % 10)]
  }

  /** `Int32.Parse` restricted to digit strings: the value of a decimal numeral. */
  function DecimalValue(s: string): nat
    requires forall k | 0 <= k < |s| :: IsDigit(s[k])
  {
    if |s| == 0 then 0
    else DecimalValue(s[..|s| - 1]) * 10 + DigitValue(s[|s| - 1])
  }

  /** Reading back a rendered number gives the number. */
  lemma {:induction false} DecimalRoundTrip(n: nat)
    ensures DecimalValue(DecimalString(n)) == n
  {
    var s := DecimalString(n);
    if n < 10 {
      DigitRoundTrip(n);
    } else {
      DecimalRoundTrip(n / 10);
      assert s[..|s| - 1] == DecimalString(n / 10);
      DigitRoundTrip(n % 10);
    }
  }

  /** Leading zeros do not change a numeral's value. */
  lemma {:induction false} LeadingZero(s: string)
    requires forall k | 0 <= k < |s| :: IsDigit(s[k])
    ensures DecimalValue("0" + s) == DecimalValue(s)
  {
    if |s| > 0 {
      assert ("0" + s)[..|s|] == "0" + s[..|s| - 1];
      LeadingZero(s[..|s| - 1]);
    }
  }

  /** `n.ToString("00")`: at least two digits, zero-padded on the left. */
  function TwoDigitString(n: nat): (s: string)
    ensures |s| >= 2
    ensures forall k | 0 <= k < |s| :: IsDigit(s[k])
    ensures |s| > 2 ==> s[0] != '0'
  {
    if n < 10 then "0" + DecimalString(n) else DecimalString(n)
  }

  /** The padded rendering still reads back as the number, and has exactly two digits below 100. */
  lemma TwoDigitRoundTrip(n: nat)
    ensures DecimalValue(TwoDigitString(n)) == n
    ensures n < 100 <==> |TwoDigitString(n)| == 2
  {
    DecimalRoundTrip(n);
    if n < 10 {
      LeadingZero(DecimalString(n));
    } else {
      DecimalLength(n);
    }
  }

  /** A number of two digits is at least 10 and below 100. */
  lemma {:induction false} DecimalLength(n: nat)
    requires n >= 10
    ensures |DecimalString(n)| == 2 <==> n < 100
  {
    if n / 10 >= 10 {
      DecimalLength(n / 10);
    }
  }
}
