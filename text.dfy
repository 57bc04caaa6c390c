/**
 * Characters, decimal digit strings and the ordering of strings, as the
 * upload pipeline uses them: `\d` (taken as the ASCII digits), Python's
 * `int(...)`/`str(...)` on digit strings, and Python's `<` on `str`.
 */
module Text {
  import opened Outcomes

  predicate IsDigit(c: char) { '0' <= c <= '9' }

  predicate AllDigits(s: string) { forall i :: 0 <= i < |s| ==> IsDigit(s[i]) }

  predicate HasDigit(s: string) { exists i :: 0 <= i < |s| && IsDigit(s[i]) }

  /** A digit string as Python's `str(int(...))` prints it: no leading zero, except "0" itself. */
  predicate Canonical(s: string) { |s| > 0 && AllDigits(s) && (s[0] == '0' ==> |s| == 1) }

  function DigitValue(c: char): (d: nat)
    requires IsDigit(c)
    ensures d < 10
  {
    (c as int) - ('0' as int)
  }

  function DigitChar(d: nat): (c: char)
    requires d < 10
    ensures IsDigit(c) && DigitValue(c) == d
  {
    (('0' as int) + d) as char
  }

  /** The number a digit string denotes, most significant digit first (Python's `int`). */
  function DigitsValue(s: string): nat
    requires AllDigits(s)
    decreases |s|
  {
    if s == [] then 0 else 10 * DigitsValue(s[..|s| - 1]) + DigitValue(s[|s| - 1])
  }

  /** Decimal text of a natural number (Python's `str` on an int). */
  function Decimal(n: nat): (s: string)
    ensures |s| > 0 && AllDigits(s)
    ensures s[0] == '0' <==> n == 0
  {
    if n < 10 then [DigitChar(n)] else Decimal(n / 10) + [DigitChar(n % 10)]
  }

  /** The digit string without its leading '0's (empty when it is all zeros). */
  function StripLeadingZeros(s: string): (t: string)
    ensures |t| <= |s|
  {
    if s != [] && s[0] == '0' then StripLeadingZeros(s[1..]) else s
  }

  lemma {:induction false} DecimalValue(n: nat)
    ensures Canonical(Decimal(n))
    ensures DigitsValue(Decimal(n)) == n
  {
    if n >= 10 {
      DecimalValue(n / 10);
      var s := Decimal(n);
      assert s[..|s| - 1] == Decimal(n / 10);
    }
  }

  lemma {:induction false} LeadingNonZeroPositive(s: string)
    requires |s| > 0 && AllDigits(s) && s[0] != '0'
    ensures DigitsValue(s) > 0
  {
    if |s| > 1 {
      var t := s[..|s| - 1];
      assert t[0] == s[0];
      LeadingNonZeroPositive(t);
    }
  }

  /** Printing the value of a canonical digit string gives the string back. */
  lemma {:induction false} CanonicalRoundTrip(s: string)
    requires Canonical(s)
    ensures Decimal(DigitsValue(s)) == s
  {
    if |s| > 1 {
      var t := s[..|s| - 1];
      var c := s[|s| - 1];
      assert t[0] == s[0];
      LeadingNonZeroPositive(t);
      CanonicalRoundTrip(t);
      var n := DigitsValue(s);
      assert n == 10 * DigitsValue(t) + DigitValue(c);
      assert n / 10 == DigitsValue(t) && n % 10 == DigitValue(c);
      assert s == t + [c];
    }
  }

  lemma {:induction false} LeadingZeroValue(s: string)
    requires AllDigits(s)
    ensures AllDigits(['0'] + s) && DigitsValue(['0'] + s) == DigitsValue(s)
    decreases |s|
  {
    if s != [] {
      var t := s[..|s| - 1];
      LeadingZeroValue(t);
      assert (['0'] + s)[..|s|] == ['0'] + t;
    }
  }

  lemma {:induction false} StripLeadingZerosValue(s: string)
    requires AllDigits(s)
    ensures AllDigits(StripLeadingZeros(s))
    ensures DigitsValue(StripLeadingZeros(s)) == DigitsValue(s)
    ensures StripLeadingZeros(s) == [] || StripLeadingZeros(s)[0] != '0'
  {
    if s != [] && s[0] == '0' {
      StripLeadingZerosValue(s[1..]);
      LeadingZeroValue(s[1..]);
      assert s == ['0'] + s[1..];
    }
  }

  /**
   * Python's `str(int(run))` on a digit run is the run with its leading zeros
   * removed, or "0" when the run is nothing but zeros.
   */
  lemma NormalizedDigits(run: string)
    requires |run| > 0 && AllDigits(run)
    ensures var t := StripLeadingZeros(run);
            Decimal(DigitsValue(run)) == if t == [] then "0" else t
  {
    var t := StripLeadingZeros(run);
    StripLeadingZerosValue(run);
    if t != [] {
      CanonicalRoundTrip(t);
    }
  }

  /** Number of digits at the start of s. */
  function DigitRunLength(s: string): (n: nat)
    ensures n <= |s| && AllDigits(s[..n])
    ensures n < |s| ==> !IsDigit(s[n])
  {
    if s == [] || !IsDigit(s[0]) then 0
    else
      var m := DigitRunLength(s[1..]);
      assert s[..m + 1] == [s[0]] + s[1..][..m];
      m + 1
  }

  lemma {:induction false} DigitRunLengthOf(digits: string, rest: string)
    requires AllDigits(digits)
    requires rest == [] || !IsDigit(rest[0])
    ensures DigitRunLength(digits + rest) == |digits|
  {
    if digits != [] {
      assert (digits + rest)[1..] == digits[1..] + rest;
      DigitRunLengthOf(digits[1..], rest);
    }
  }

  /** Index of the first digit of s, or |s| when s has none. */
  function FirstDigitIndex(s: string): (i: nat)
    ensures i <= |s|
    ensures forall k :: 0 <= k < i ==> !IsDigit(s[k])
    ensures i < |s| ==> IsDigit(s[i])
  {
    if s == [] || IsDigit(s[0]) then 0 else 1 + FirstDigitIndex(s[1..])
  }

  /**
   * `run`, starting at index i of s, is the leftmost maximal run of digits in s:
   * what a search for the regular expression `(\d+)` captures.
   */
  predicate IsFirstDigitRun(s: string, i: nat, run: string)
  {
    && |run| > 0 && AllDigits(run)
    && i + |run| <= |s| && s[i..i + |run|] == run
    && (forall k :: 0 <= k < i ==> !IsDigit(s[k]))
    && (i + |run| == |s| || !IsDigit(s[i + |run|]))
  }

  /** The first match of `(\d+)` in s, if any. */
  function FirstDigitRun(s: string): (r: Option<string>)
    ensures r.None? <==> !HasDigit(s)
    ensures r.Some? ==> IsFirstDigitRun(s, FirstDigitIndex(s), r.value)
  {
    var i := FirstDigitIndex(s);
    if i == |s| then None
    else
      var n := DigitRunLength(s[i..]);
      assert s[i..][..n] == s[i..i + n];
      Some(s[i..i + n])
  }

  /** The leftmost maximal digit run is unique. */
  lemma FirstDigitRunUnique(s: string, i: nat, run: string, j: nat, run': string)
    requires IsFirstDigitRun(s, i, run) && IsFirstDigitRun(s, j, run')
    ensures i == j && run == run'
  {
    // Both runs start at a digit, and neither allows a digit before its start.
    assert s[i..i + |run|][0] == s[i] && IsDigit(run[0]);
    assert s[j..j + |run'|][0] == s[j] && IsDigit(run'[0]);
    assert i == j;
    // Every position of either run holds a digit, so neither run can end before the other.
    forall p | i <= p < i + |run| ensures IsDigit(s[p]) {
      assert s[i..i + |run|][p - i] == s[p];
    }
    forall p | i <= p < i + |run'| ensures IsDigit(s[p]) {
      assert s[j..j + |run'|][p - i] == s[p];
    }
    assert |run| == |run'|;
  }

  /** Python's `<` on str: lexicographic by code point, a proper prefix first. */
  predicate LexLess(a: string, b: string)
    decreases |a|
  {
    |b| > 0 && (|a| == 0 || a[0] < b[0] || (a[0] == b[0] && LexLess(a[1..], b[1..])))
  }

  lemma {:induction false} LexIrreflexive(a: string)
    ensures !LexLess(a, a)
    decreases |a|
  {
    if |a| > 0 {
      LexIrreflexive(a[1..]);
    }
  }

  lemma {:induction false} LexTransitive(a: string, b: string, c: string)
    requires LexLess(a, b) && LexLess(b, c)
    ensures LexLess(a, c)
    decreases |a|
  {
    if |a| > 0 && a[0] == b[0] && b[0] == c[0] {
      LexTransitive(a[1..], b[1..], c[1..]);
    }
  }

  lemma {:induction false} LexTotal(a: string, b: string)
    requires a != b
    ensures LexLess(a, b) || LexLess(b, a)
    decreases |a|
  {
    if |a| > 0 && |b| > 0 && a[0] == b[0] {
      assert a == [a[0]] + a[1..] && b == [b[0]] + b[1..];
      LexTotal(a[1..], b[1..]);
    }
  }
}
