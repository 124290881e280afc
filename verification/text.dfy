/** String helpers: substring containment and the decimal form JavaScript
    gives an integer in a template literal, together with a parser that reads
    it back. */
module Text {
  import opened Wrappers

  /** `sub` occurs somewhere inside `s`. */
  predicate Contains(s: string, sub: string) {
    exists i :: 0 <= i <= |s| - |sub| && OccursAt(s, sub, i)
  }

  /** `sub` occurs in `s` starting at index `i`. */
  predicate OccursAt(s: string, sub: string, i: int) {
    0 <= i <= |s| - |sub| && s[i..i + |sub|] == sub
  }

  /** A string ending in `sub` contains it. */
  lemma ContainsEnd(pre: string, sub: string)
    ensures Contains(pre + sub, sub)
  {
    assert OccursAt(pre + sub, sub, |pre|);
  }

  /** Text appended after an occurrence of `sub` keeps it. */
  lemma ContainsExtended(s: string, t: string, sub: string)
    requires Contains(s, sub)
    ensures Contains(s + t, sub)
  {
    var i :| 0 <= i <= |s| - |sub| && OccursAt(s, sub, i);
    assert (s + t)[i..i + |sub|] == s[i..i + |sub|];
    assert OccursAt(s + t, sub, i);
  }

  /** Concatenation regroups freely. */
  lemma AppendAssoc(a: string, b: string, c: string)
    ensures a + b + c == a + (b + c)
  {
  }

  predicate IsDigit(c: char) {
    '0' <= c <= '9'
  }

  predicate AllDigits(s: string) {
    forall i :: 0 <= i < |s| ==> IsDigit(s[i])
  }

  function DigitChar(d: nat): (c: char)
    requires d < 10
    ensures IsDigit(c)
  {
    ('0' as int + d) as char
  }

  function DigitValue(c: char): (d: nat)
    requires IsDigit(c)
    ensures d < 10
  {
    (c as int - '0' as int) as nat
  }

  /** Decimal digits of `n` without leading zeros ("0" for zero). */
  function Digits(n: nat): (s: string)
    ensures |s| > 0 && AllDigits(s)
    decreases n
  {
    if n < 10 then [DigitChar(n)] else Digits(n / 10) + [DigitChar(n % 10)]
  }

  /** The value of a string of decimal digits. */
  function DigitsValue(s: string): (n: nat)
    requires AllDigits(s)
    decreases |s|
  {
    if s == [] then 0 else 10 * DigitsValue(s[..|s| - 1]) + DigitValue(s[|s| - 1])
  }

  /** `${n}` for an integer `n` below 10^21 in magnitude: a minus sign for
      negatives, then the digits. */
  function Decimal(n: int): string {
    if n < 0 then "-" + Digits(-n) else Digits(n)
  }

  /** An optional minus sign followed by decimal digits. */
  predicate IsSignedDigits(s: string) {
    AllDigits(s) || (|s| > 0 && s[0] == '-' && AllDigits(s[1..]))
  }

  /** Reads back an optionally signed decimal integer; the partner of `Decimal`. */
  function ParseDecimal(s: string): int
    requires IsSignedDigits(s)
  {
    if |s| > 0 && s[0] == '-' then -(DigitsValue(s[1..]) as int) else DigitsValue(s)
  }

  lemma {:induction false} DigitsRoundTrip(n: nat)
    ensures DigitsValue(Digits(n)) == n
    decreases n
  {
    if n >= 10 {
      var s := Digits(n);
      assert s[..|s| - 1] == Digits(n / 10);
      DigitsRoundTrip(n / 10);
    }
  }

  /** Reading back the decimal form of any integer gives that integer. */
  lemma DecimalRoundTrip(n: int)
    ensures IsSignedDigits(Decimal(n)) && ParseDecimal(Decimal(n)) == n
  {
    var s := Decimal(n);
    if n < 0 {
      var d := Digits(-n);
      assert s == "-" + d && s[0] == '-' && s[1..] == d;
      DigitsRoundTrip(-n);
    } else {
      assert s == Digits(n) && IsDigit(s[0]);
      DigitsRoundTrip(n);
    }
  }

  /** The length of the leading run of digits of `s`. */
  function DigitRun(s: string): (k: nat)
    ensures k <= |s| && AllDigits(s[..k])
    ensures k < |s| ==> !IsDigit(s[k])
  {
    if s == [] || !IsDigit(s[0]) then 0
    else
      var k := 1 + DigitRun(s[1..]);
      assert s[..k] == [s[0]] + s[1..][..k - 1];
      k
  }

  /** Splits `s` into a leading optionally signed decimal number and the rest:
      the partner of `Decimal` when the number is followed by other text. */
  function SplitDecimal(s: string): (p: (string, string))
    ensures p.0 + p.1 == s
    ensures IsSignedDigits(p.0)
  {
    var sign := if |s| > 0 && s[0] == '-' then 1 else 0;
    var k := sign + DigitRun(s[sign..]);
    assert s[..k] == s[..sign] + s[sign..][..k - sign];
    assert sign == 1 ==> s[..k][1..] == s[sign..][..k - sign];
    (s[..k], s[k..])
  }

  lemma {:induction false} DigitRunOfDigits(d: string, t: string)
    requires AllDigits(d)
    requires t == [] || !IsDigit(t[0])
    ensures DigitRun(d + t) == |d|
    decreases |d|
  {
    if d != [] {
      assert (d + t)[1..] == d[1..] + t;
      DigitRunOfDigits(d[1..], t);
    } else {
      assert d + t == t;
    }
  }

  /** A run of digits followed by text that does not start with a digit is
      split back into exactly that run and that text. */
  lemma SplitDigitsOf(d: string, t: string)
    requires d != [] && AllDigits(d)
    requires t == [] || !IsDigit(t[0])
    ensures SplitDecimal(d + t) == (d, t)
  {
    var s := d + t;
    assert s[0] == d[0] && s[0..] == s;
    DigitRunOfDigits(d, t);
    assert s[..|d|] == d && s[|d|..] == t;
  }

  /** The same for a minus sign followed by a run of digits. */
  lemma SplitNegativeOf(d: string, t: string)
    requires d != [] && AllDigits(d)
    requires t == [] || !IsDigit(t[0])
    ensures SplitDecimal("-" + d + t) == ("-" + d, t)
  {
    var s := "-" + d + t;
    assert s[0] == '-' && s[1..] == d + t;
    DigitRunOfDigits(d, t);
    assert s[..1 + |d|] == "-" + d && s[1 + |d|..] == t;
  }

  /** The decimal form of `n` followed by text that does not start with a
      digit is split back into exactly that decimal form and that text. */
  lemma SplitDecimalOf(n: int, t: string)
    requires t == [] || !IsDigit(t[0])
    ensures SplitDecimal(Decimal(n) + t) == (Decimal(n), t)
  {
    if n < 0 {
      SplitNegativeOf(Digits(-n), t);
    } else {
      SplitDigitsOf(Digits(n), t);
    }
  }

  /** The text strictly between `prefix` and `suffix` when `s` starts with the
      one and ends with the other, without the two overlapping. */
  function Between(s: string, prefix: string, suffix: string): (m: Option<string>)
    ensures m.Some? ==> s == prefix + m.value + suffix
  {
    if |prefix| + |suffix| <= |s| && s[..|prefix|] == prefix && s[|s| - |suffix|..] == suffix
    then
      var mid := s[|prefix|..|s| - |suffix|];
      assert s == s[..|prefix|] + mid + s[|s| - |suffix|..];
      Some(mid)
    else None
  }

  /** `Between` recovers the middle of any `prefix + mid + suffix`. */
  lemma BetweenOf(prefix: string, mid: string, suffix: string)
    ensures Between(prefix + mid + suffix, prefix, suffix) == Some(mid)
  {
    var s := prefix + mid + suffix;
    assert s[..|prefix|] == prefix;
    assert s[|s| - |suffix|..] == suffix;
    assert s[|prefix|..|s| - |suffix|] == mid;
  }
}
