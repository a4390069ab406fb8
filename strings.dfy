/**
 * The few Python string operations the patch transform relies on:
 * `str.split()` with no argument, `' '.join`, `str.startswith`, the
 * substring test `p in s`, `int()` on a decimal literal and `'%d' % n`.
 */
module Strings {
  import opened Wrappers

  /** The six whitespace characters the model splits on: a subset of the separators of Python's `str.split()`. */
  predicate IsSpace(c: char) {
    c == ' ' || c == '\t' || c == '\n' || c == '\r' || c == '\U{0B}' || c == '\U{0C}'
  }

  /** `s.startswith(p)`. */
  predicate StartsWith(s: string, p: string) {
    |p| <= |s| && s[..|p|] == p
  }

  /** `p in s`: `p` occurs somewhere in `s` as a substring. */
  predicate Contains(s: string, p: string)
    decreases |s|
  {
    StartsWith(s, p) || (s != [] && Contains(s[1..], p))
  }

  lemma {:induction false} ContainsInSuffix(a: string, b: string, p: string)
    requires Contains(b, p)
    ensures Contains(a + b, p)
    decreases |a|
  {
    if a == [] {
      assert a + b == b;
    } else {
      assert (a + b)[1..] == a[1..] + b;
      ContainsInSuffix(a[1..], b, p);
    }
  }

  /** A token of `str.split()`: non-empty and free of whitespace. */
  predicate IsWord(t: string) {
    t != [] && forall i :: 0 <= i < |t| ==> !IsSpace(t[i])
  }

  /** Length of the run of whitespace at the start of `s`. */
  function SkipSpaces(s: string): (k: nat)
    ensures k <= |s|
    ensures forall i :: 0 <= i < k ==> IsSpace(s[i])
    ensures k < |s| ==> !IsSpace(s[k])
    decreases |s|
  {
    if s != [] && IsSpace(s[0]) then 1 + SkipSpaces(s[1..]) else 0
  }

  /** Length of the run of non-whitespace at the start of `s`. */
  function TokenEnd(s: string): (k: nat)
    ensures k <= |s|
    ensures forall i :: 0 <= i < k ==> !IsSpace(s[i])
    ensures k < |s| ==> IsSpace(s[k])
    decreases |s|
  {
    if s != [] && !IsSpace(s[0]) then 1 + TokenEnd(s[1..]) else 0
  }

  /** `s.split()`: the maximal runs of non-whitespace, in order. */
  function Split(s: string): (tokens: seq<string>)
    ensures forall i :: 0 <= i < |tokens| ==> IsWord(tokens[i])
    decreases |s|
  {
    var rest := s[SkipSpaces(s)..];
    if rest == [] then []
    else
      var k := TokenEnd(rest);
      [rest[..k]] + Split(rest[k..])
  }

  /** `' '.join(tokens)`. */
  function Join(tokens: seq<string>): string
    decreases |tokens|
  {
    if |tokens| == 0 then ""
    else if |tokens| == 1 then tokens[0]
    else tokens[0] + " " + Join(tokens[1..])
  }

  lemma {:induction false} TokenEndOfWord(t: string, r: string)
    requires IsWord(t)
    requires r == [] || IsSpace(r[0])
    ensures TokenEnd(t + r) == |t|
    decreases |t|
  {
    if |t| > 1 {
      assert (t + r)[1..] == t[1..] + r;
      TokenEndOfWord(t[1..], r);
    } else {
      assert (t + r)[1..] == r;
    }
  }

  lemma SplitAfterSpace(c: char, s: string)
    requires IsSpace(c)
    ensures Split([c] + s) == Split(s)
  {
    assert ([c] + s)[1..] == s;
    assert ([c] + s)[SkipSpaces([c] + s)..] == s[SkipSpaces(s)..];
  }

  /** Splitting a space-joined list of tokens gives the tokens back. */
  lemma {:induction false} SplitJoin(tokens: seq<string>)
    requires forall i :: 0 <= i < |tokens| ==> IsWord(tokens[i])
    ensures Split(Join(tokens)) == tokens
    decreases |tokens|
  {
    if |tokens| == 1 {
      var t := tokens[0];
      assert SkipSpaces(t) == 0;
      assert t[0..] == t;
      TokenEndOfWord(t, []);
      assert t + [] == t;
      assert t[|t|..] == [];
    } else if |tokens| > 1 {
      var t, j := tokens[0], Join(tokens[1..]);
      var s := t + " " + j;
      assert SkipSpaces(s) == 0;
      assert s[0..] == s;
      assert s == t + ([' '] + j);
      TokenEndOfWord(t, [' '] + j);
      assert s[..|t|] == t;
      assert s[|t|..] == [' '] + j;
      SplitAfterSpace(' ', j);
      SplitJoin(tokens[1..]);
    }
  }

  /** The first token of `s.split()`, with what comes before and after it. */
  lemma SplitFirst(s: string) returns (lead: string, token: string, tail: string)
    requires Split(s) != []
    ensures s == lead + (token + tail)
    ensures Split(s) == [token] + Split(tail)
    ensures |tail| < |s|
  {
    var j := SkipSpaces(s);
    var rest := s[j..];
    var k := TokenEnd(rest);
    lead, token, tail := s[..j], rest[..k], rest[k..];
    assert rest == token + tail;
  }

  lemma PrefixContained(a: string, b: string, p: string)
    requires StartsWith(a, p)
    ensures Contains(a + b, p)
  {
  }

  /** A token of `s.split()` that starts with `p` makes `p in s` true. */
  lemma {:induction false} TokenPrefixInSource(s: string, t: string, p: string)
    requires t in Split(s) && StartsWith(t, p)
    ensures Contains(s, p)
    decreases |s|
  {
    var lead, token, tail := SplitFirst(s);
    var rest := Split(tail);
    if t == token {
      PrefixContained(token, tail, p);
    } else {
      assert t in rest;
      TokenPrefixInSource(tail, t, p);
      ContainsInSuffix(token, tail, p);
    }
    ContainsInSuffix(lead, token + tail, p);
  }

  predicate IsDigit(c: char) {
    '0' <= c <= '9'
  }

  predicate AllDigits(s: string) {
    forall i :: 0 <= i < |s| ==> IsDigit(s[i])
  }

  /** The number a string of decimal digits denotes. */
  function DigitsValue(s: string): nat
    requires AllDigits(s)
    decreases |s|
  {
    if s == [] then 0
    else DigitsValue(s[..|s| - 1]) * 10 + (s[|s| - 1] as int - '0' as int)
  }

  /** `int(s)` for a literal of plain decimal digits; `None` where Python raises `ValueError`. */
  function ParseDecimal(s: string): Option<nat> {
    if s != [] && AllDigits(s) then Some(DigitsValue(s)) else None
  }

  function DigitChar(d: nat): (c: char)
    requires d < 10
    ensures IsDigit(c)
  {
    ('0' as int + d) as char
  }

  /** `'%d' % n`: the decimal digits of `n`, without leading zeros. */
  function FormatDecimal(n: nat): (s: string)
    ensures s != [] && AllDigits(s)
    ensures s[0] == '0' ==> n == 0
    ensures n == 0 ==> s == "0"
    decreases n
  {
    if n < 10 then [DigitChar(n)] else FormatDecimal(n / 10) + [DigitChar(n % 10)]
  }

  /** Formatting a number and parsing it back gives the number. */
  lemma {:induction false} ParseFormatDecimal(n: nat)
    ensures ParseDecimal(FormatDecimal(n)) == Some(n)
    decreases n
  {
    var s := FormatDecimal(n);
    if n < 10 {
      assert s[..|s| - 1] == [];
      assert s[|s| - 1] as int - '0' as int == n;
      assert DigitsValue(s) == DigitsValue(s[..|s| - 1]) * 10 + n;
    } else {
      assert s[..|s| - 1] == FormatDecimal(n / 10);
      assert s[|s| - 1] as int - '0' as int == n % 10;
      ParseFormatDecimal(n / 10);
      assert DigitsValue(s) == DigitsValue(FormatDecimal(n / 10)) * 10 + n % 10;
    }
  }
}
