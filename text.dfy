/**
 * String helpers with the meaning the Python code gives them: `str.startswith`,
 * `str.endswith`, `str.lower`, `str(n)`, `int(s)` and `s.split("_")[1]`.
 */
module Text {
  import opened Wrappers

  predicate StartsWith(s: string, prefix: string) {
    |prefix| <= |s| && s[..|prefix|] == prefix
  }

  predicate EndsWith(s: string, suffix: string) {
    |suffix| <= |s| && s[|s| - |suffix|..] == suffix
  }

  /** ASCII case mapping of `str.lower`. */
  function LowerChar(c: char): char {
    if 'A' <= c <= 'Z' then (c as int + 32) as char else c
  }

  function Lower(s: string): string {
    seq(|s|, i requires 0 <= i < |s| => LowerChar(s[i]))
  }

  lemma LowerAppend(a: string, b: string)
    ensures Lower(a + b) == Lower(a) + Lower(b)
  {
    assert forall i | 0 <= i < |a + b| :: Lower(a + b)[i] == (Lower(a) + Lower(b))[i];
  }

  lemma {:induction false} EndsWithAppend(a: string, b: string, suffix: string)
    requires EndsWith(b, suffix)
    ensures EndsWith(a + b, suffix)
  {
    assert (a + b)[|a + b| - |suffix|..] == b[|b| - |suffix|..];
  }

  /** A string ending with `suffix` ends with the last two characters of `suffix`. */
  lemma EndsWithLastTwo(s: string, suffix: string)
    requires |suffix| >= 2 && EndsWith(s, suffix)
    ensures s[|s| - 1] == suffix[|suffix| - 1] && s[|s| - 2] == suffix[|suffix| - 2]
  {
    assert s[|s| - |suffix|..][|suffix| - 1] == s[|s| - 1];
    assert s[|s| - |suffix|..][|suffix| - 2] == s[|s| - 2];
  }

  // ---------------------------------------------------------------------------
  // Decimal digits, `str(n)` and `int(s)`

  predicate IsDigit(c: char) {
    '0' <= c <= '9'
  }

  predicate AllDigits(s: string) {
    forall i :: 0 <= i < |s| ==> IsDigit(s[i])
  }

  /** `str.isdigit()` on ASCII text: non-empty and made of digits only. */
  predicate IsDigitString(s: string) {
    |s| > 0 && AllDigits(s)
  }

  function DigitChar(d: nat): char
    requires d < 10
  {
    ('0' as int + d) as char
  }

  /** The value of a string of decimal digits, most significant digit first. */
  function DecimalValue(s: string): nat
    requires AllDigits(s)
  {
    if s == [] then 0
    else DecimalValue(s[..|s| - 1]) * 10 + (s[|s| - 1] as int - '0' as int)
  }

  /** `str(n)` for a non-negative integer: no sign, no leading zeros. */
  function NatToString(n: nat): string
  {
    if n < 10 then [DigitChar(n)] else NatToString(n / 10) + [DigitChar(n % 10)]
  }

  lemma {:induction false} NatToStringDecimal(n: nat)
    ensures IsDigitString(NatToString(n))
    ensures DecimalValue(NatToString(n)) == n
  {
    if n >= 10 {
      NatToStringDecimal(n / 10);
      var s := NatToString(n);
      assert s[..|s| - 1] == NatToString(n / 10);
    }
  }

  /** Whitespace that `int()` strips (the ASCII part of Python's `str.isspace`). */
  predicate IsSpace(c: char) {
    9 <= c as int <= 13 || 28 <= c as int <= 32
  }

  function TrimStart(s: string): string {
    if s != [] && IsSpace(s[0]) then TrimStart(s[1..]) else s
  }

  function TrimEnd(s: string): string {
    if s != [] && IsSpace(s[|s| - 1]) then TrimEnd(s[..|s| - 1]) else s
  }

  /**
   * Python's `int(s)` on text without underscores: surrounding whitespace,
   * an optional sign, then at least one decimal digit; anything else is the
   * `ValueError` case, `None` here.
   */
  function ParseInt(s: string): Option<int> {
    var t := TrimEnd(TrimStart(s));
    if t != [] && (t[0] == '+' || t[0] == '-') then
      if IsDigitString(t[1..]) then
        var magnitude: int := DecimalValue(t[1..]);
        Some(if t[0] == '-' then -magnitude else magnitude)
      else None
    else if IsDigitString(t) then Some(DecimalValue(t))
    else None
  }

  /** `int(str(n)) == n`. */
  lemma ParseIntOfNatToString(n: nat)
    ensures ParseInt(NatToString(n)) == Some(n)
  {
    NatToStringDecimal(n);
    var s := NatToString(n);
    assert !IsSpace(s[0]) && !IsSpace(s[|s| - 1]);
    assert TrimStart(s) == s;
    assert TrimEnd(s) == s;
  }

  // ---------------------------------------------------------------------------
  // `s.split(sep)[1]`

  /** The text before the first `sep`, or all of `s` when there is none. */
  function Before(s: string, sep: char): string {
    if s == [] || s[0] == sep then [] else [s[0]] + Before(s[1..], sep)
  }

  /** The text after the first `sep`. */
  function After(s: string, sep: char): string
    requires sep in s
  {
    if s[0] == sep then s[1..] else After(s[1..], sep)
  }

  /** `s.split(sep)[1]`, defined when `s` contains `sep`. */
  function SecondField(s: string, sep: char): string
    requires sep in s
  {
    Before(After(s, sep), sep)
  }

  lemma {:induction false} BeforeUpToSeparator(p: string, tail: string, sep: char)
    requires sep !in p
    requires tail == [] || tail[0] == sep
    ensures Before(p + tail, sep) == p
  {
    if p == [] {
      assert p + tail == tail;
    } else {
      assert (p + tail)[1..] == p[1..] + tail;
      BeforeUpToSeparator(p[1..], tail, sep);
    }
  }

  lemma {:induction false} AfterFirstSeparator(p: string, rest: string, sep: char)
    requires sep !in p
    ensures sep in p + [sep] + rest
    ensures After(p + [sep] + rest, sep) == rest
  {
    var s := p + [sep] + rest;
    assert s[|p|] == sep;
    if p != [] {
      assert s[1..] == p[1..] + [sep] + rest;
      AfterFirstSeparator(p[1..], rest, sep);
    }
  }

  /**
   * The second `sep`-separated field of `head + [sep] + field + tail` is
   * `field`, when neither `head` nor `field` contains `sep` and `tail` is
   * empty or starts with `sep`.
   */
  lemma SecondFieldOf(head: string, field: string, tail: string, sep: char)
    requires sep !in head && sep !in field
    requires tail == [] || tail[0] == sep
    ensures sep in head + [sep] + field + tail
    ensures SecondField(head + [sep] + field + tail, sep) == field
  {
    assert head + [sep] + field + tail == head + [sep] + (field + tail);
    AfterFirstSeparator(head, field + tail, sep);
    BeforeUpToSeparator(field, tail, sep);
  }

  lemma {:induction false} NatToStringHasNoNonDigit(n: nat, c: char)
    requires !IsDigit(c)
    ensures c !in NatToString(n)
  {
    NatToStringDecimal(n);
  }

  /** `needle in haystack` for strings: `needle` occurs as a contiguous slice. */
  predicate IsSubstring(needle: string, haystack: string) {
    exists i, j :: 0 <= i <= j <= |haystack| && haystack[i..j] == needle
  }
}
