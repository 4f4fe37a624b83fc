/** The text primitives the cleaners use: ASCII digits, the digit runs that
    `re.finditer(r'\d+', s)` yields, `''.join`, `str.split`, decimal values and
    the `\d{2}/\d{2}` search behind `str.contains`. */
module Strings {

  predicate IsDigit(c: char) {
    '0' <= c <= '9'
  }

  predicate AllDigits(s: string) {
    forall i :: 0 <= i < |s| ==> IsDigit(s[i])
  }

  function DigitValue(c: char): (v: nat)
    requires IsDigit(c)
    ensures v <= 9
  {
    (c as int - '0' as int) as nat
  }

  /** The digit characters of s, in their original order: the reference that
      both digit-stripping normalisers are specified against. */
  function DigitsOf(s: string): (d: string)
    ensures AllDigits(d) && |d| <= |s|
  {
    if s == [] then []
    else (if IsDigit(s[0]) then [s[0]] else []) + DigitsOf(s[1..])
  }

  lemma {:induction false} DigitsOfAppend(a: string, b: string)
    ensures DigitsOf(a + b) == DigitsOf(a) + DigitsOf(b)
  {
    if a != [] {
      assert (a + b)[1..] == a[1..] + b;
      DigitsOfAppend(a[1..], b);
    } else {
      assert a + b == b;
    }
  }

  /** The digits of s, computed from those of a prefix and the rest. */
  lemma DigitsOfParts(s: string, n: nat, front: string, back: string)
    requires n <= |s| && DigitsOf(s[..n]) == front && DigitsOf(s[n..]) == back
    ensures DigitsOf(s) == front + back
  {
    assert s == s[..n] + s[n..];
    DigitsOfAppend(s[..n], s[n..]);
  }

  /** An all-digit string is its own digit string. */
  lemma {:induction false} DigitsOfAllDigits(s: string)
    requires AllDigits(s)
    ensures DigitsOf(s) == s
  {
    if s != [] {
      DigitsOfAllDigits(s[1..]);
    }
  }

  /** Stripping to digits twice is stripping once. */
  lemma DigitsOfIdempotent(s: string)
    ensures DigitsOf(DigitsOf(s)) == DigitsOf(s)
  {
    DigitsOfAllDigits(DigitsOf(s));
  }

  /** The length of the run of digits at the start of s: it stops at the first
      non-digit, so the run is maximal. */
  function LeadingDigitCount(s: string): (n: nat)
    ensures n <= |s| && AllDigits(s[..n])
    ensures n < |s| ==> !IsDigit(s[n])
  {
    if s == [] || !IsDigit(s[0]) then 0
    else
      var n := 1 + LeadingDigitCount(s[1..]);
      assert s[..n] == [s[0]] + s[1..][..n - 1];
      n
  }

  /** The matches of `re.finditer(r'\d+', s)`, left to right: every maximal run
      of digits. */
  function DigitRuns(s: string): (runs: seq<string>)
    ensures forall k :: 0 <= k < |runs| ==> |runs[k]| > 0 && AllDigits(runs[k])
    decreases |s|
  {
    if s == [] then []
    else if !IsDigit(s[0]) then DigitRuns(s[1..])
    else
      var n := LeadingDigitCount(s);
      [s[..n]] + DigitRuns(s[n..])
  }

  /** `''.join(parts)`. */
  function Concat(parts: seq<string>): string {
    if parts == [] then "" else parts[0] + Concat(parts[1..])
  }

  /** Joining the digit runs gives exactly the digit characters of s. */
  lemma {:induction false} ConcatDigitRuns(s: string)
    ensures Concat(DigitRuns(s)) == DigitsOf(s)
    decreases |s|
  {
    if s == [] {
    } else if !IsDigit(s[0]) {
      ConcatDigitRuns(s[1..]);
    } else {
      var n := LeadingDigitCount(s);
      ConcatDigitRuns(s[n..]);
      assert s == s[..n] + s[n..];
      DigitsOfAppend(s[..n], s[n..]);
      DigitsOfAllDigits(s[..n]);
      var runs := [s[..n]] + DigitRuns(s[n..]);
      assert runs[1..] == DigitRuns(s[n..]);
    }
  }

  /** The decimal value of a digit string, as `int(s)` reads it. */
  function DecimalValue(s: string): (v: nat)
    requires AllDigits(s)
    decreases |s|
  {
    if s == [] then 0
    else 10 * DecimalValue(s[..|s| - 1]) + DigitValue(s[|s| - 1])
  }

  /** The value of a two-digit string. */
  lemma TwoDigitValue(t: string)
    requires |t| == 2 && AllDigits(t)
    ensures DecimalValue(t) == 10 * DigitValue(t[0]) + DigitValue(t[1])
  {
    assert t[..|t| - 1] == [t[0]];
    assert [t[0]][..0] == [];
    assert DecimalValue([t[0]]) == DigitValue(t[0]);
  }

  /** The value of a four-digit "20" + yy string. */
  lemma TwentyPrefixValue(yy: string)
    requires |yy| == 2 && AllDigits(yy)
    ensures AllDigits("20" + yy)
    ensures DecimalValue("20" + yy) == 2000 + 10 * DigitValue(yy[0]) + DigitValue(yy[1])
  {
    var s := "20" + yy;
    var t := s[..3];
    assert t == "20" + [yy[0]] && s[..|s| - 1] == t && s[|s| - 1] == yy[1];
    assert t[..2] == "20" && t[2] == yy[0];
    assert "20"[..1] == "2";
    assert DecimalValue("2") == 2;
    assert DecimalValue("20") == 20;
    assert DecimalValue(t) == 200 + DigitValue(yy[0]);
  }

  /** `s.split(sep)`: the pieces between occurrences of sep; always at least one. */
  function SplitOn(s: string, sep: char): (parts: seq<string>)
    ensures |parts| >= 1
    ensures forall k :: 0 <= k < |parts| ==> sep !in parts[k]
    decreases |s|
  {
    if s == [] then [""]
    else
      var rest := SplitOn(s[1..], sep);
      if s[0] == sep then [""] + rest
      else [[s[0]] + rest[0]] + rest[1..]
  }

  /** `sep.join(parts)`. */
  function JoinWith(parts: seq<string>, sep: char): string
    requires |parts| >= 1
    decreases |parts|
  {
    if |parts| == 1 then parts[0] else parts[0] + [sep] + JoinWith(parts[1..], sep)
  }

  /** Splitting and joining back with the same separator gives the input. */
  lemma {:induction false} JoinSplit(s: string, sep: char)
    ensures JoinWith(SplitOn(s, sep), sep) == s
    decreases |s|
  {
    if s != [] {
      var rest := SplitOn(s[1..], sep);
      JoinSplit(s[1..], sep);
      if s[0] == sep {
        assert ([""] + rest)[1..] == rest;
      } else {
        var parts := [[s[0]] + rest[0]] + rest[1..];
        if |rest| == 1 {
          assert parts == [[s[0]] + rest[0]];
        } else {
          assert parts[1..] == rest[1..];
          assert JoinWith(rest, sep) == rest[0] + [sep] + JoinWith(rest[1..], sep);
        }
      }
    }
  }

  /** A string without the separator splits into itself. */
  lemma {:induction false} SplitWithoutSep(s: string, sep: char)
    requires sep !in s
    ensures SplitOn(s, sep) == [s]
    decreases |s|
  {
    if s != [] {
      assert sep !in s[1..];
      SplitWithoutSep(s[1..], sep);
      assert [s[0]] + s[1..] == s;
    }
  }

  /** A string with exactly one separator splits into the text before and after it. */
  lemma {:induction false} SplitAtOnlySep(a: string, b: string, sep: char)
    requires sep !in a && sep !in b
    ensures SplitOn(a + [sep] + b, sep) == [a, b]
    decreases |a|
  {
    if a == [] {
      assert [sep] + b == a + [sep] + b;
      assert (a + [sep] + b)[1..] == b;
      SplitWithoutSep(b, sep);
    } else {
      assert (a + [sep] + b)[1..] == a[1..] + [sep] + b;
      assert sep !in a[1..];
      SplitAtOnlySep(a[1..], b, sep);
      assert [a[0]] + a[1..] == a;
    }
  }

  /** The pattern `\d{2}/\d{2}` matches s at position i. */
  predicate ExpiryPatternAt(s: string, i: nat) {
    i + 5 <= |s| && IsDigit(s[i]) && IsDigit(s[i + 1]) && s[i + 2] == '/' &&
    IsDigit(s[i + 3]) && IsDigit(s[i + 4])
  }

  /** `re.search(r"\d{2}/\d{2}", s[from..])`, scanning left to right. */
  function SearchExpiryPattern(s: string, from: nat): (found: bool)
    ensures found <==> exists i: nat :: from <= i && ExpiryPatternAt(s, i)
    decreases |s| - from
  {
    if from + 5 > |s| then false
    else ExpiryPatternAt(s, from) || SearchExpiryPattern(s, from + 1)
  }

  /** `str.contains(r"\d{2}/\d{2}")`: the pattern occurs somewhere in s. */
  predicate ContainsExpiryPattern(s: string) {
    SearchExpiryPattern(s, 0)
  }
}
