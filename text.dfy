/**
 * Integers as text: Python's `int(...)` on a `str` in base 10, `str(...)` as
 * its inverse, and `str.lower()` on ASCII letters.  Configuration keys
 * (levels as `str(level)`) and component ids are built from these.
 */
module Text {
  import opened Common

  predicate IsDigit(c: char) { '0' <= c <= '9' }

  predicate AllDigits(s: string) { forall i :: 0 <= i < |s| ==> IsDigit(s[i]) }

  function DigitValue(c: char): (d: nat)
    requires IsDigit(c)
    ensures d < 10
  {
    (c as int) - ('0' as int)
  }

  function DigitChar(d: nat): (c: char)
    requires d < 10
    ensures IsDigit(c) && DigitValue(c) == d
  {
    (('0' as int) + d) as char
  }

  /** The decimal value of a string of digits, most significant first. */
  function DigitsValue(s: string): nat
    requires AllDigits(s)
  {
    if |s| == 0 then 0 else 10 * DigitsValue(s[..|s| - 1]) + DigitValue(s[|s| - 1])
  }

  /**
   * The characters `int()` ignores around its argument: ASCII whitespace
   * (tab, line feed, vertical tab, form feed, carriage return and space) and
   * the non-ASCII characters `str.isspace()` accepts.  The separators
   * U+001C to U+001F pass `str.isspace()` but are not stripped by `int()`.
   */
  predicate IsSpace(c: char) {
    ('\t' <= c <= '\r') || c == ' ' || c == '\U{85}' || c == '\U{A0}' || c == '\U{1680}'
    || ('\U{2000}' <= c <= '\U{200A}') || c == '\U{2028}' || c == '\U{2029}' || c == '\U{202F}'
    || c == '\U{205F}' || c == '\U{3000}'
  }

  /** Drops the leading characters `int()` ignores. */
  function StripLeft(s: string): (t: string)
    ensures |t| <= |s| && t == s[|s| - |t|..]
    ensures |t| > 0 ==> !IsSpace(t[0])
    ensures forall i :: 0 <= i < |s| - |t| ==> IsSpace(s[i])
  {
    if |s| > 0 && IsSpace(s[0]) then StripLeft(s[1..]) else s
  }

  /** Drops the trailing characters `int()` ignores. */
  function StripRight(s: string): (t: string)
    ensures |t| <= |s| && t == s[..|t|]
    ensures |t| > 0 ==> !IsSpace(t[|t| - 1])
    ensures forall i :: |t| <= i < |s| ==> IsSpace(s[i])
  {
    if |s| > 0 && IsSpace(s[|s| - 1]) then StripRight(s[..|s| - 1]) else s
  }

  /** Digits with single underscores between them, as `int()` takes them: `1_000`, but not `_1`, `1_` or `1__0`. */
  predicate DigitGroups(s: string) {
    && |s| > 0 && IsDigit(s[0]) && IsDigit(s[|s| - 1])
    && (forall i :: 0 <= i < |s| ==> IsDigit(s[i]) || s[i] == '_')
    && (forall i, j :: 0 <= i < |s| && 0 <= j < |s| && j == i + 1 ==> s[i] == '_' ==> s[j] != '_')
  }

  /** The digits of `s`, underscores dropped. */
  function DropUnderscores(s: string): (d: string)
    requires forall i :: 0 <= i < |s| ==> IsDigit(s[i]) || s[i] == '_'
    ensures AllDigits(d) && |d| <= |s|
    ensures AllDigits(s) ==> d == s
  {
    if |s| == 0 then []
    else if s[0] == '_' then DropUnderscores(s[1..])
    else [s[0]] + DropUnderscores(s[1..])
  }

  /**
   * `int(s)` in base 10: surrounding whitespace is ignored, then an optional
   * `+`/`-` sign, then ASCII digits with single underscores between them;
   * `None` is the `ValueError`.
   */
  function ParseInt(s: string): (r: Option<int>)
    ensures r.Some? ==> |s| > 0
    ensures |s| > 0 && AllDigits(s) ==> r == Some(DigitsValue(s))
  {
    PlainDigits(s);
    ParseStripped(Stripped(s))
  }

  /** `s.strip()`. */
  function Stripped(s: string): (t: string)
    ensures |t| <= |s|
  {
    StripRight(StripLeft(s))
  }

  /** What `int()` reads once the whitespace is gone: a sign, then grouped digits. */
  function ParseStripped(t: string): Option<int> {
    if |t| > 0 && t[0] == '-' then
      match ParseUnsigned(t[1..])
      case Some(n) => Some(-(n as int))
      case None => None
    else if |t| > 0 && t[0] == '+' then ParseUnsigned(t[1..])
    else ParseUnsigned(t)
  }

  /** Grouped digits without a sign. */
  function ParseUnsigned(body: string): Option<nat> {
    if DigitGroups(body) then Some(DigitsValue(DropUnderscores(body))) else None
  }

  lemma DigitNotSpace(c: char)
    requires IsDigit(c)
    ensures !IsSpace(c)
  {
  }

  /** Text with no whitespace at either end is left alone by the stripping. */
  lemma StripNothing(s: string)
    requires |s| > 0 && !IsSpace(s[0]) && !IsSpace(s[|s| - 1])
    ensures Stripped(s) == s
  {
  }

  /** Plain digits are already stripped, unsigned and validly grouped. */
  lemma PlainDigits(s: string)
    ensures |s| > 0 && AllDigits(s) ==>
      Stripped(s) == s && s[0] != '-' && s[0] != '+' && DigitGroups(s)
  {
    if |s| > 0 && AllDigits(s) {
      DigitNotSpace(s[0]);
      DigitNotSpace(s[|s| - 1]);
      StripNothing(s);
    }
  }

  /** Whitespace before or after the text does not change what `int()` reads. */
  lemma SpaceAroundIgnored(a: string, s: string, b: string)
    requires forall i :: 0 <= i < |a| ==> IsSpace(a[i])
    requires forall i :: 0 <= i < |b| ==> IsSpace(b[i])
    ensures ParseInt(a + s + b) == ParseInt(s)
  {
    assert a + s + b == a + (s + b);
    StripLeftSpaces(a, s + b);
    StripLeftAppend(s, b);
    StripRightSpaces(StripLeft(s), b);
    assert Stripped(a + s + b) == Stripped(s);
  }

  lemma {:induction false} StripLeftSpaces(a: string, x: string)
    requires forall i :: 0 <= i < |a| ==> IsSpace(a[i])
    ensures StripLeft(a + x) == StripLeft(x)
  {
    if |a| > 0 {
      assert (a + x)[0] == a[0];
      assert (a + x)[1..] == a[1..] + x;
      StripLeftSpaces(a[1..], x);
    } else {
      assert a + x == x;
    }
  }

  /** Trailing text survives `lstrip`; and whitespace-only text plus whitespace strips to nothing. */
  lemma {:induction false} StripLeftAppend(s: string, b: string)
    requires forall i :: 0 <= i < |b| ==> IsSpace(b[i])
    ensures |StripLeft(s)| > 0 ==> StripLeft(s + b) == StripLeft(s) + b
    ensures |StripLeft(s)| == 0 ==> StripLeft(s + b) == []
  {
    if |s| > 0 && IsSpace(s[0]) {
      assert (s + b)[1..] == s[1..] + b;
      StripLeftAppend(s[1..], b);
    } else if |s| == 0 {
      StripLeftSpaces(b, []);
      assert b + [] == b;
    }
  }

  lemma {:induction false} StripRightSpaces(x: string, b: string)
    requires forall i :: 0 <= i < |b| ==> IsSpace(b[i])
    ensures StripRight(x + b) == StripRight(x)
  {
    if |b| > 0 {
      assert (x + b)[|x + b| - 1] == b[|b| - 1];
      assert (x + b)[..|x + b| - 1] == x + b[..|b| - 1];
      StripRightSpaces(x, b[..|b| - 1]);
    } else {
      assert x + b == x;
    }
  }

  /** Unsigned text with no whitespace at its ends is read by its digit groups alone. */
  lemma ReadsUnsigned(s: string)
    requires |s| > 0 && !IsSpace(s[0]) && !IsSpace(s[|s| - 1]) && s[0] != '-' && s[0] != '+'
    ensures ParseInt(s) == ParseUnsigned(s)
  {
    StripNothing(s);
    ParseIntStrips(s);
  }

  /** An underscore between digits is ignored: `int("1_0") == 10`. */
  lemma UnderscoreBetweenDigits()
    ensures ParseInt("1_0") == Some(10)
  {
    var s := "1_0";
    ReadsUnsigned(s);
    assert DigitGroups(s);
    assert DropUnderscores(s) == "10" by {
      assert s[1..] == "_0" && s[1..][1..] == "0";
    }
    assert DigitsValue("10") == 10 by { assert "10"[..1] == "1"; }
  }

  /** A doubled underscore is a `ValueError`. */
  lemma UnderscoreDoubled()
    ensures ParseInt("1__0") == None
  {
    var s := "1__0";
    ReadsUnsigned(s);
    assert s[1] == '_' && s[2] == '_';
    assert !DigitGroups(s);
  }

  /** A leading underscore is a `ValueError`. */
  lemma UnderscoreLeading()
    ensures ParseInt("_1") == None
  {
    var s := "_1";
    ReadsUnsigned(s);
    assert !IsDigit(s[0]);
  }

  /** A trailing underscore is a `ValueError`. */
  lemma UnderscoreTrailing()
    ensures ParseInt("1_") == None
  {
    var s := "1_";
    ReadsUnsigned(s);
    assert !IsDigit(s[|s| - 1]);
  }

  /** `str(n)` for a natural number: no leading zeros. */
  function ShowNat(n: nat): (s: string)
    ensures |s| > 0 && AllDigits(s)
  {
    if n < 10 then [DigitChar(n)] else ShowNat(n / 10) + [DigitChar(n % 10)]
  }

  /** `str(v)` for an integer. */
  function ShowInt(v: int): string {
    if v < 0 then "-" + ShowNat(-v) else ShowNat(v)
  }

  lemma {:induction false} ShowNatValue(n: nat)
    ensures DigitsValue(ShowNat(n)) == n
  {
    if n >= 10 {
      var s := ShowNat(n);
      assert s[..|s| - 1] == ShowNat(n / 10);
      ShowNatValue(n / 10);
    }
  }

  /** Reading back what `str` wrote gives the same integer. */
  lemma ParseShowInt(v: int)
    ensures ParseInt(ShowInt(v)) == Some(v)
  {
    if v < 0 {
      var n: nat := -v;
      ParseShowNegative(n);
      assert ShowInt(v) == "-" + ShowNat(n);
    } else {
      ParseShowNat(v);
      assert ShowInt(v) == ShowNat(v);
    }
  }

  lemma ParseShowNegative(n: nat)
    ensures ParseInt("-" + ShowNat(n)) == Some(-(n as int))
  {
    ShowNatValue(n);
    ParseNegative(ShowNat(n), n);
  }

  lemma ParseShowNat(n: nat)
    ensures ParseInt(ShowNat(n)) == Some(n)
  {
    ShowNatValue(n);
  }

  /** A minus sign before plain digits reads as their negated value. */
  lemma ParseNegative(body: string, v: nat)
    requires |body| > 0 && AllDigits(body) && DigitsValue(body) == v
    ensures ParseInt("-" + body) == Some(-(v as int))
  {
    NegativeStripped(body);
    NegativeBody(body);
    ParseIntStrips("-" + body);
  }

  lemma ParseIntStrips(s: string)
    ensures ParseInt(s) == ParseStripped(Stripped(s))
  {
  }

  lemma NegativeStripped(body: string)
    requires |body| > 0 && AllDigits(body)
    ensures Stripped("-" + body) == "-" + body
  {
    var s := "-" + body;
    assert s[0] == '-' && s[|s| - 1] == body[|body| - 1];
    DigitNotSpace(body[|body| - 1]);
    StripNothing(s);
  }

  lemma NegativeBody(body: string)
    requires |body| > 0 && AllDigits(body)
    ensures ParseStripped("-" + body) == Some(-(DigitsValue(body) as int))
  {
    DigitsGrouped(body);
    SignDropped('-', body);
  }

  lemma SignDropped(c: char, body: string)
    ensures ([c] + body)[0] == c && ([c] + body)[1..] == body
  {
  }

  lemma DigitsGrouped(s: string)
    requires |s| > 0 && AllDigits(s)
    ensures ParseUnsigned(s) == Some(DigitsValue(s))
  {
  }

  /** `str` is injective on integers, so `str(level)` keys and ids built from numbers never collide. */
  lemma ShowIntInjective(a: int, b: int)
    requires ShowInt(a) == ShowInt(b)
    ensures a == b
  {
    ParseShowInt(a);
    ParseShowInt(b);
  }

  /** The position of the first `sep` in `s`, if any. */
  function IndexOf(s: string, sep: char): (r: Option<nat>)
    ensures r.Some? ==> r.value < |s| && s[r.value] == sep && sep !in s[..r.value]
    ensures r.None? ==> sep !in s
  {
    if |s| == 0 then None
    else if s[0] == sep then Some(0)
    else match IndexOf(s[1..], sep)
      case None => None
      case Some(k) =>
        assert s[..k + 1] == [s[0]] + s[1..][..k];
        Some(k + 1)
  }

  /** `str(v)` never contains an underscore, so it can sit between `_` separators. */
  lemma ShowIntHasNoUnderscore(v: int)
    ensures '_' !in ShowInt(v)
  {
  }

  /** `str.lower()` on one character, for the ASCII letters. */
  function AsciiLower(c: char): (l: char)
    ensures 'A' <= c <= 'Z' ==> l as int == c as int + 32
    ensures !('A' <= c <= 'Z') ==> l == c
  {
    if 'A' <= c <= 'Z' then (c as int + 32) as char else c
  }
}
