/**
  Python string and integer primitives that the tools rely on, restated over
  `string` (a sequence of Unicode scalar values, like Python's `str`).
*/
module Text {
  import opened Wrappers
  import opened Seqs

  /** `sub` starts at index `i` of `s`. */
  predicate OccursAt(s: string, sub: string, i: int) {
    0 <= i <= |s| - |sub| && s[i..i + |sub|] == sub
  }

  /** `sub in s`: `sub` occurs as a contiguous slice of `s`. */
  predicate Contains(s: string, sub: string) {
    exists i | 0 <= i <= |s| - |sub| :: OccursAt(s, sub, i)
  }

  lemma ContainsSelf(s: string)
    ensures Contains(s, s)
  {
    assert OccursAt(s, s, 0);
  }

  predicate StartsWith(s: string, prefix: string) {
    |prefix| <= |s| && s[..|prefix|] == prefix
  }

  predicate EndsWith(s: string, suffix: string) {
    |suffix| <= |s| && s[|s| - |suffix|..] == suffix
  }

  /** `str.lower()` restricted to ASCII letters. */
  function LowerChar(c: char): char {
    if 'A' <= c <= 'Z' then (c as int - 'A' as int + 'a' as int) as char else c
  }

  function Lower(s: string): string {
    seq(|s|, i requires 0 <= i < |s| => LowerChar(s[i]))
  }

  /** The characters for which Python's `str.isspace()` holds. */
  predicate IsSpace(c: char) {
    c == ' ' || ('\t' <= c <= '\r') || ('\U{1C}' <= c <= '\U{1F}') || c == '\U{85}' || c == '\U{A0}'
    || c == '\U{1680}' || ('\U{2000}' <= c <= '\U{200A}') || c == '\U{2028}' || c == '\U{2029}'
    || c == '\U{202F}' || c == '\U{205F}' || c == '\U{3000}'
  }

  /** Drops the leading characters that satisfy `drop`. */
  function TrimStart(s: string, drop: char -> bool): (r: string)
    ensures |r| <= |s| && r == s[|s| - |r|..]
    ensures r == [] || !drop(r[0])
    decreases |s|
  {
    if s != [] && drop(s[0]) then TrimStart(s[1..], drop) else s
  }

  /** Drops the trailing characters that satisfy `drop`. */
  function TrimEnd(s: string, drop: char -> bool): (r: string)
    ensures |r| <= |s| && r == s[..|r|]
    ensures r == [] || !drop(r[|r| - 1])
    decreases |s|
  {
    if s != [] && drop(s[|s| - 1]) then TrimEnd(s[..|s| - 1], drop) else s
  }

  /** `s.strip(chars)`, with the set of stripped characters given as a predicate. */
  function Trim(s: string, drop: char -> bool): string {
    TrimEnd(TrimStart(s, drop), drop)
  }

  /** `s.strip()`. */
  function Strip(s: string): string {
    Trim(s, IsSpace)
  }

  /** `sep.join(parts)`. */
  function JoinWith(parts: seq<string>, sep: string): string
    decreases |parts|
  {
    if parts == [] then ""
    else if |parts| == 1 then parts[0]
    else parts[0] + sep + JoinWith(parts[1..], sep)
  }

  /** `s.split('\n')[0]`: everything before the first newline. */
  function FirstLine(s: string): (r: string)
    ensures StartsWith(s, r)
    ensures forall i | 0 <= i < |r| :: r[i] != '\n'
    ensures |r| < |s| ==> s[|r|] == '\n'
    decreases |s|
  {
    if s == [] || s[0] == '\n' then "" else [s[0]] + FirstLine(s[1..])
  }

  /**
    `str(Path(dir) / name)` for a normalised directory and a single
    component: the empty path contributes nothing and a root `/` gets no
    second separator.
  */
  function PathJoin(dir: string, name: string): string {
    if dir == [] then name
    else if dir[|dir| - 1] == '/' then dir + name
    else dir + "/" + name
  }

  // ---------------------------------------------------------------------
  // `s.replace(pattern, replacement)`: left to right, non-overlapping

  function ReplaceAll(s: string, pattern: string, replacement: string): string
    requires |pattern| > 0
    decreases |s|
  {
    if |s| < |pattern| then s
    else if s[..|pattern|] == pattern then replacement + ReplaceAll(s[|pattern|..], pattern, replacement)
    else [s[0]] + ReplaceAll(s[1..], pattern, replacement)
  }

  /**
    The first character of `pattern` occurs nowhere else in `pattern` or in
    `replacement`, which starts with it and has the same length: no
    occurrence of `pattern` can straddle a replaced one.
  */
  predicate SelfDelimiting(pattern: string, replacement: string) {
    && |pattern| > 0 && |replacement| == |pattern| && replacement != pattern
    && replacement[0] == pattern[0]
    && (forall j | 1 <= j < |pattern| :: pattern[j] != pattern[0])
    && (forall j | 1 <= j < |replacement| :: replacement[j] != pattern[0])
  }

  /** Until the first character of a replacement, the output copies the input. */
  lemma {:induction false} ReplaceAllCopiesPrefix(s: string, pattern: string, replacement: string, k: nat)
    requires SelfDelimiting(pattern, replacement)
    requires k <= |ReplaceAll(s, pattern, replacement)|
    requires forall j | 0 <= j < k :: ReplaceAll(s, pattern, replacement)[j] != pattern[0]
    ensures k <= |s| && ReplaceAll(s, pattern, replacement)[..k] == s[..k]
    decreases |s|
  {
    var r := ReplaceAll(s, pattern, replacement);
    if |s| < |pattern| {
    } else if s[..|pattern|] == pattern {
      assert r[0] == replacement[0];
    } else if k > 0 {
      var rest := ReplaceAll(s[1..], pattern, replacement);
      assert r == [s[0]] + rest;
      forall j | 0 <= j < k - 1 ensures rest[j] != pattern[0] {
        assert rest[j] == r[j + 1];
      }
      ReplaceAllCopiesPrefix(s[1..], pattern, replacement, k - 1);
      assert r[..k] == [s[0]] + rest[..k - 1];
      assert s[..k] == [s[0]] + s[1..][..k - 1];
    }
  }

  /** A replacement followed by text free of `pattern` is free of it too. */
  lemma ReplacedHeadRemoves(rest: string, pattern: string, replacement: string)
    requires SelfDelimiting(pattern, replacement) && !Contains(rest, pattern)
    ensures !Contains(replacement + rest, pattern)
  {
    var r := replacement + rest;
    var n := |pattern|;
    forall i | 0 <= i <= |r| - n ensures !OccursAt(r, pattern, i) {
      if i >= n {
        assert r[i..i + n] == rest[i - n..i - n + n];
        assert !OccursAt(rest, pattern, i - n);
      } else {
        assert r[..n] == replacement;
      }
    }
  }

  /** A character kept from `s`, followed by the replaced rest, adds no occurrence of `pattern`. */
  lemma CopiedHeadRemoves(s: string, pattern: string, replacement: string)
    requires SelfDelimiting(pattern, replacement) && |s| >= |pattern| && s[..|pattern|] != pattern
    requires !Contains(ReplaceAll(s[1..], pattern, replacement), pattern)
    ensures !Contains([s[0]] + ReplaceAll(s[1..], pattern, replacement), pattern)
  {
    var rest := ReplaceAll(s[1..], pattern, replacement);
    var r := [s[0]] + rest;
    var n := |pattern|;
    forall i | 0 <= i <= |r| - n ensures !OccursAt(r, pattern, i) {
      if i >= 1 {
        assert r[i..i + n] == rest[i - 1..i - 1 + n];
        assert !OccursAt(rest, pattern, i - 1);
      } else {
        CopiedHeadNoMatch(s, pattern, replacement);
      }
    }
  }

  /** The kept character does not start an occurrence: `s` itself has none at 0. */
  lemma CopiedHeadNoMatch(s: string, pattern: string, replacement: string)
    requires SelfDelimiting(pattern, replacement) && |s| >= |pattern| && s[..|pattern|] != pattern
    ensures !OccursAt([s[0]] + ReplaceAll(s[1..], pattern, replacement), pattern, 0)
  {
    var rest := ReplaceAll(s[1..], pattern, replacement);
    var r := [s[0]] + rest;
    var n := |pattern|;
    if OccursAt(r, pattern, 0) {
      forall j | 0 <= j < n - 1 ensures rest[j] != pattern[0] {
        assert rest[j] == r[j + 1] == pattern[j + 1];
      }
      ReplaceAllCopiesPrefix(s[1..], pattern, replacement, n - 1);
      assert false;
    }
  }

  /** After replacing every occurrence, none is left. */
  lemma {:induction false} ReplaceAllRemoves(s: string, pattern: string, replacement: string)
    requires SelfDelimiting(pattern, replacement)
    ensures !Contains(ReplaceAll(s, pattern, replacement), pattern)
    decreases |s|
  {
    var n := |pattern|;
    if |s| < n {
    } else if s[..n] == pattern {
      ReplaceAllRemoves(s[n..], pattern, replacement);
      ReplacedHeadRemoves(ReplaceAll(s[n..], pattern, replacement), pattern, replacement);
    } else {
      ReplaceAllRemoves(s[1..], pattern, replacement);
      CopiedHeadRemoves(s, pattern, replacement);
    }
  }

  // ---------------------------------------------------------------------
  // Lexicographic order on strings (Python compares code point by code point)

  predicate StrLe(a: string, b: string)
    decreases |a|
  {
    if a == [] then true
    else if b == [] then false
    else if a[0] != b[0] then a[0] < b[0]
    else StrLe(a[1..], b[1..])
  }

  lemma {:induction false} StrLeTotal(a: string, b: string)
    ensures StrLe(a, b) || StrLe(b, a)
    decreases |a|
  {
    if a != [] && b != [] && a[0] == b[0] {
      StrLeTotal(a[1..], b[1..]);
    }
  }

  lemma {:induction false} StrLeTransitive(a: string, b: string, c: string)
    requires StrLe(a, b) && StrLe(b, c)
    ensures StrLe(a, c)
    decreases |a|
  {
    if a != [] && b != [] && c != [] && a[0] == b[0] && b[0] == c[0] {
      StrLeTransitive(a[1..], b[1..], c[1..]);
    }
  }

  lemma {:induction false} StrLeAntisymmetric(a: string, b: string)
    requires StrLe(a, b) && StrLe(b, a)
    ensures a == b
    decreases |a|
  {
    if a != [] && b != [] {
      StrLeAntisymmetric(a[1..], b[1..]);
      assert a == [a[0]] + a[1..] && b == [b[0]] + b[1..];
    }
  }

  /** The string order is a total preorder, so sorting by a string key is well defined. */
  lemma StrLeIsPreorder()
    ensures TotalPreorder(StrLe)
  {
    forall a, b ensures StrLe(a, b) || StrLe(b, a) {
      StrLeTotal(a, b);
    }
    forall a, b, c | StrLe(a, b) && StrLe(b, c) ensures StrLe(a, c) {
      StrLeTransitive(a, b, c);
    }
  }

  // ---------------------------------------------------------------------
  // Decimal integers: `str(n)` and `int(text)`

  predicate IsDigit(c: char) {
    '0' <= c <= '9'
  }

  predicate AllDigits(s: string) {
    forall i | 0 <= i < |s| :: IsDigit(s[i])
  }

  function DigitChar(d: nat): (c: char)
    requires d < 10
    ensures IsDigit(c)
  {
    "0123456789"[d]
  }

  function DigitValue(c: char): (d: nat)
    requires IsDigit(c)
    ensures d < 10
  {
    c as int - '0' as int
  }

  /** `str(n)` for a non-negative `n`. */
  function NatToString(n: nat): (r: string)
    ensures |r| > 0 && AllDigits(r)
    decreases n
  {
    if n < 10 then [DigitChar(n)] else NatToString(n / 10) + [DigitChar(n % 10)]
  }

  /** `str(n)`. */
  function IntToString(n: int): string {
    if n < 0 then "-" + NatToString(-n) else NatToString(n)
  }

  /** The value of a string of decimal digits (leading zeros allowed). */
  function DigitsValue(ds: string): nat
    requires AllDigits(ds)
    decreases |ds|
  {
    if ds == [] then 0 else DigitsValue(ds[..|ds| - 1]) * 10 + DigitValue(ds[|ds| - 1])
  }

  /** Digits in groups separated by single underscores, as `int()` accepts them. */
  predicate WellGrouped(b: string) {
    && |b| > 0 && IsDigit(b[0]) && IsDigit(b[|b| - 1])
    && (forall i | 0 <= i < |b| :: IsDigit(b[i]) || b[i] == '_')
    && (forall i | 0 <= i < |b| - 1 :: b[i] == '_' ==> b[i + 1] != '_')
  }

  function RemoveUnderscores(b: string): (r: string)
    requires forall i | 0 <= i < |b| :: IsDigit(b[i]) || b[i] == '_'
    ensures AllDigits(r)
    decreases |b|
  {
    if b == [] then "" else (if b[0] == '_' then "" else [b[0]]) + RemoveUnderscores(b[1..])
  }

  function GroupedValue(b: string): nat
    requires WellGrouped(b)
  {
    DigitsValue(RemoveUnderscores(b))
  }

  /**
    `int(text.strip())`: the whitespace `str.strip()` removes is taken off
    both ends, then an optional sign is followed by underscore-grouped ASCII
    digits; anything else is the `ValueError` path. `int()` on its own
    skips only ASCII whitespace, but after `strip()` none is left to skip.
  */
  function ParseInt(text: string): Option<int> {
    var t := Strip(text);
    if |t| > 0 && (t[0] == '+' || t[0] == '-') then
      if WellGrouped(t[1..]) then
        var v: int := GroupedValue(t[1..]);
        Some(if t[0] == '-' then -v else v)
      else None
    else if WellGrouped(t) then Some(GroupedValue(t))
    else None
  }

  lemma {:induction false} RemoveUnderscoresOfDigits(ds: string)
    requires AllDigits(ds)
    ensures RemoveUnderscores(ds) == ds
    decreases |ds|
  {
    if ds != [] {
      RemoveUnderscoresOfDigits(ds[1..]);
      assert ds == [ds[0]] + ds[1..];
    }
  }

  lemma {:induction false} DigitsValueOfNatToString(n: nat)
    ensures DigitsValue(NatToString(n)) == n
    decreases n
  {
    if n >= 10 {
      var s := NatToString(n);
      assert s[..|s| - 1] == NatToString(n / 10);
      DigitsValueOfNatToString(n / 10);
    }
  }

  lemma StripOfIntToString(n: int)
    ensures Strip(IntToString(n)) == IntToString(n)
  {
    var s := IntToString(n);
    assert s[0] == '-' || IsDigit(s[0]);
    assert IsDigit(s[|s| - 1]);
  }

  /** The digits `str` writes for a non-negative number are read back as that number. */
  lemma GroupedValueOfNatToString(m: nat)
    ensures WellGrouped(NatToString(m)) && GroupedValue(NatToString(m)) == m
  {
    var digits := NatToString(m);
    RemoveUnderscoresOfDigits(digits);
    DigitsValueOfNatToString(m);
  }

  /** `int(str(n)) == n`: what a PID marker holds is read back unchanged. */
  lemma ParseIntOfIntToString(n: int)
    ensures ParseInt(IntToString(n)) == Some(n)
  {
    StripOfIntToString(n);
    if n < 0 {
      GroupedValueOfNatToString(-n);
      assert IntToString(n)[1..] == NatToString(-n);
    } else {
      GroupedValueOfNatToString(n);
    }
  }
}
