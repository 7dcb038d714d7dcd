/** Character classes and string operations the migration script relies on:
    the ASCII reading of Python's `\w` and `str.lower()`, `str.replace`,
    `str.endswith`, and the decimal rendering of a counter in an f-string. */
module Strings {

  /** Python's `\w`, restricted to ASCII: a letter, a digit or `_`. */
  predicate IsWordChar(c: char) {
    ('a' <= c <= 'z') || ('A' <= c <= 'Z') || ('0' <= c <= '9') || c == '_'
  }

  predicate IsUpper(c: char) {
    'A' <= c <= 'Z'
  }

  function LowerChar(c: char): char {
    if IsUpper(c) then (c as int + 32) as char else c
  }

  /** `s.lower()` on ASCII text. */
  function Lower(s: string): (r: string)
    ensures |r| == |s|
    ensures forall i :: 0 <= i < |s| ==> r[i] == LowerChar(s[i])
  {
    seq(|s|, i requires 0 <= i < |s| => LowerChar(s[i]))
  }

  /** Lower-casing leaves no upper-case letter, keeps every character in its
      place and keeps whether it is a word character, changes nothing but
      upper-case letters, and a second time changes nothing. */
  lemma LowerMeaning(s: string)
    ensures forall i :: 0 <= i < |s| ==> !IsUpper(Lower(s)[i])
    ensures forall i :: 0 <= i < |s| ==> (IsWordChar(Lower(s)[i]) <==> IsWordChar(s[i]))
    ensures forall i :: 0 <= i < |s| && !IsUpper(s[i]) ==> Lower(s)[i] == s[i]
    ensures Lower(Lower(s)) == Lower(s)
  {
  }

  predicate StartsWith(s: string, prefix: string) {
    |prefix| <= |s| && s[..|prefix|] == prefix
  }

  /** `s.endswith(suffix)`. */
  predicate EndsWith(s: string, suffix: string) {
    |suffix| <= |s| && s[|s| - |suffix|..] == suffix
  }

  /** `pat` occurs somewhere in `s`. */
  predicate Occurs(pat: string, s: string) {
    exists i :: 0 <= i <= |s| && StartsWith(s[i..], pat)
  }

  /** `r` is `s` with some characters deleted, the rest kept in order. */
  predicate IsSubseq(r: string, s: string)
    decreases |s|
  {
    if r == [] then true
    else if s == [] then false
    else (r[0] == s[0] && IsSubseq(r[1..], s[1..])) || IsSubseq(r, s[1..])
  }

  /** Deleting a prefix of `s` first is one more way of deleting characters. */
  lemma {:induction false} SubseqOfSuffix(r: string, s: string, k: nat)
    requires k <= |s| && IsSubseq(r, s[k..])
    ensures IsSubseq(r, s)
    decreases k
  {
    if k > 0 && r != [] {
      assert s[1..][k - 1..] == s[k..];
      SubseqOfSuffix(r, s[1..], k - 1);
    }
  }

  /** `s.replace(pat, rep)`: every leftmost, non-overlapping occurrence of
      `pat` is replaced, scanning from the left. An empty `pat` occurs before
      every character and at the end, as in Python. */
  function ReplaceAll(s: string, pat: string, rep: string): string
    decreases |s|
  {
    if pat == [] then (if s == [] then rep else rep + [s[0]] + ReplaceAll(s[1..], pat, rep))
    else if |s| < |pat| then s
    else if s[..|pat|] == pat then rep + ReplaceAll(s[|pat|..], pat, rep)
    else [s[0]] + ReplaceAll(s[1..], pat, rep)
  }

  /** Replacing a pattern that does not occur leaves the text as it was. */
  lemma {:induction false} ReplaceAllAbsent(s: string, pat: string, rep: string)
    requires pat != [] && !Occurs(pat, s)
    ensures ReplaceAll(s, pat, rep) == s
    decreases |s|
  {
    if |s| >= |pat| {
      assert s[0..] == s;
      assert !StartsWith(s[0..], pat);
      forall i | 0 <= i <= |s[1..]|
        ensures !StartsWith(s[1..][i..], pat)
      {
        assert s[1..][i..] == s[i + 1..];
      }
      ReplaceAllAbsent(s[1..], pat, rep);
    }
  }

  /** With a one-character pattern, replacement works character by character. */
  lemma ReplaceCharCons(x: char, rest: string, c: char, rep: string)
    ensures ReplaceAll([x] + rest, [c], rep)
            == (if x == c then rep else [x]) + ReplaceAll(rest, [c], rep)
  {
    var s := [x] + rest;
    assert s[..1] == [x];
    assert s[1..] == rest;
  }

  /** With a one-character pattern, replacement distributes over concatenation. */
  lemma {:induction false} ReplaceCharConcat(a: string, b: string, c: char, rep: string)
    ensures ReplaceAll(a + b, [c], rep) == ReplaceAll(a, [c], rep) + ReplaceAll(b, [c], rep)
    decreases |a|
  {
    if a == [] {
      assert a + b == b;
    } else {
      assert a + b == [a[0]] + (a[1..] + b);
      assert a == [a[0]] + a[1..];
      ReplaceCharCons(a[0], a[1..] + b, c, rep);
      ReplaceCharCons(a[0], a[1..], c, rep);
      ReplaceCharConcat(a[1..], b, c, rep);
    }
  }

  /** The number of occurrences of `c` in `s`. */
  function Count(s: string, c: char): nat {
    if s == [] then 0 else (if s[0] == c then 1 else 0) + Count(s[1..], c)
  }

  function Digit(d: nat): (c: char)
    requires d < 10
    ensures '0' <= c <= '9'
  {
    ('0' as int + d) as char
  }

  /** `f"{n}"` for a natural number: its decimal digits, most significant first. */
  function Decimal(n: nat): (r: string)
    ensures r != []
    ensures forall i :: 0 <= i < |r| ==> '0' <= r[i] <= '9'
  {
    if n < 10 then [Digit(n)] else Decimal(n / 10) + [Digit(n % 10)]
  }

  function DigitValue(c: char): nat {
    if '0' <= c <= '9' then c as int - '0' as int else 0
  }

  /** Reads a string of decimal digits back as a number. */
  function ParseDecimal(s: string): nat
    decreases |s|
  {
    if s == [] then 0 else ParseDecimal(s[..|s| - 1]) * 10 + DigitValue(s[|s| - 1])
  }

  lemma {:induction false} ParseDecimalOfDecimal(n: nat)
    ensures ParseDecimal(Decimal(n)) == n
  {
    if n >= 10 {
      var s := Decimal(n);
      assert s[..|s| - 1] == Decimal(n / 10);
      ParseDecimalOfDecimal(n / 10);
    }
  }

  /** Distinct counters render as distinct strings. */
  lemma DecimalInjective(a: nat, b: nat)
    requires Decimal(a) == Decimal(b)
    ensures a == b
  {
    ParseDecimalOfDecimal(a);
    ParseDecimalOfDecimal(b);
  }
}
