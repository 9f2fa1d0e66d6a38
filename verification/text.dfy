/**
 * Character classes and string helpers that the stock checker relies on:
 * Python's whitespace class (shared by `str.strip()` and the regex class `\s`),
 * ASCII decimal digits, `str.strip()`, `int()` on a digit string and `str()`
 * on a non-negative integer.
 */
module Text {

  /** Python's `str.isspace()` set, which is also what `\s` matches in a `str` regex
      and what `str.strip()` removes. */
  predicate IsSpace(c: char) {
    || ('\t' <= c <= '\r')
    || ('\U{1c}' <= c <= '\U{1f}')
    || c == ' '
    || c == '\U{85}'
    || c == '\U{a0}'
    || c == '\U{1680}'
    || ('\U{2000}' <= c <= '\U{200a}')
    || c == '\U{2028}'
    || c == '\U{2029}'
    || c == '\U{202f}'
    || c == '\U{205f}'
    || c == '\U{3000}'
  }

  /** An ASCII decimal digit. */
  predicate IsDigit(c: char) {
    '0' <= c <= '9'
  }

  predicate AllSpaces(s: string) {
    forall i :: 0 <= i < |s| ==> IsSpace(s[i])
  }

  predicate AllDigits(s: string) {
    forall i :: 0 <= i < |s| ==> IsDigit(s[i])
  }

  /** A string that `str.strip()` leaves unchanged: no whitespace at either end. */
  predicate Stripped(s: string) {
    s == [] || (!IsSpace(s[0]) && !IsSpace(s[|s| - 1]))
  }

  /** `s.lstrip()`: the suffix of `s` left after removing all leading whitespace. */
  function TrimStart(s: string): (r: string)
    ensures |r| <= |s| && r == s[|s| - |r|..]
    ensures AllSpaces(s[..|s| - |r|])
    ensures r == [] || !IsSpace(r[0])
  {
    if s != [] && IsSpace(s[0]) then
      var r := TrimStart(s[1..]);
      assert s[..|s| - |r|] == [s[0]] + s[1..][..|s| - 1 - |r|];
      r
    else
      s
  }

  /** `s.rstrip()`: the prefix of `s` left after removing all trailing whitespace. */
  function TrimEnd(s: string): (r: string)
    ensures |r| <= |s| && r == s[..|r|]
    ensures AllSpaces(s[|r|..])
    ensures r == [] || !IsSpace(r[|r| - 1])
  {
    if s != [] && IsSpace(s[|s| - 1]) then
      var p := s[..|s| - 1];
      var r := TrimEnd(p);
      assert s[|r|..] == p[|r|..] + [s[|s| - 1]];
      r
    else
      s
  }

  /** `s.strip()`: `s` without its leading and trailing whitespace. */
  function Trim(s: string): (r: string)
    ensures Stripped(r)
    ensures |r| <= |s|
  {
    TrimEnd(TrimStart(s))
  }

  /** What `strip()` keeps is a slice of its argument with only whitespace around it. */
  lemma TrimSlice(s: string)
    ensures exists a, b :: 0 <= a <= b <= |s| && Trim(s) == s[a..b] && AllSpaces(s[..a]) && AllSpaces(s[b..])
  {
    var t := TrimStart(s);
    var r := TrimEnd(t);
    var a := |s| - |t|;
    var b := a + |r|;
    assert r == s[a..b] by {
      assert t == s[a..];
      assert r == t[..|r|];
    }
    assert AllSpaces(s[b..]) by {
      assert s[b..] == t[|r|..];
    }
    assert Trim(s) == r;
  }

  /** The value of a digit. */
  function DigitValue(c: char): (d: nat)
    requires IsDigit(c)
    ensures d < 10
  {
    (c as int) - ('0' as int)
  }

  /** The digit character of a value below ten. */
  function DigitChar(d: nat): (c: char)
    requires d < 10
    ensures IsDigit(c) && DigitValue(c) == d
  {
    (('0' as int) + d) as char
  }

  /** `int(t)` for a string of ASCII digits (leading zeros allowed, as in Python). */
  function DecimalValue(t: string): nat
    requires AllDigits(t)
  {
    if t == [] then 0 else DecimalValue(t[..|t| - 1]) * 10 + DigitValue(t[|t| - 1])
  }

  /** `str(n)` for a non-negative integer: its decimal digits, without leading zeros. */
  function NatToString(n: nat): (s: string)
    ensures |s| > 0 && AllDigits(s)
    ensures s[0] == '0' ==> n == 0
  {
    if n < 10 then [DigitChar(n)] else NatToString(n / 10) + [DigitChar(n % 10)]
  }

  /** Reading back the decimal text of a number gives the number. */
  lemma {:induction false} DecimalValueOfNatToString(n: nat)
    ensures DecimalValue(NatToString(n)) == n
  {
    var s := NatToString(n);
    if n < 10 {
      assert s[..0] == [];
    } else {
      assert s[..|s| - 1] == NatToString(n / 10);
      DecimalValueOfNatToString(n / 10);
    }
  }

  /** `str.strip()` removes nothing from a string without surrounding whitespace. */
  lemma TrimStripped(s: string)
    requires Stripped(s)
    ensures Trim(s) == s
  {
  }

  /** Leading whitespace in front of a string that starts with a non-space is exactly
      what `lstrip()` removes. */
  lemma {:induction false} TrimStartOfSpaces(w: string, u: string)
    requires AllSpaces(w)
    requires u == [] || !IsSpace(u[0])
    ensures TrimStart(w + u) == u
  {
    if w != [] {
      assert (w + u)[1..] == w[1..] + u;
      TrimStartOfSpaces(w[1..], u);
    }
  }

  /** Trailing whitespace after a string that ends in a non-space is exactly what
      `rstrip()` removes. */
  lemma {:induction false} TrimEndOfSpaces(u: string, w: string)
    requires AllSpaces(w)
    requires u == [] || !IsSpace(u[|u| - 1])
    ensures TrimEnd(u + w) == u
  {
    if w != [] {
      assert (u + w)[..|u + w| - 1] == u + w[..|w| - 1];
      TrimEndOfSpaces(u, w[..|w| - 1]);
    }
  }

  /** `str.strip()` is characterised by its result: any split of `s` into leading
      whitespace, a stripped core and trailing whitespace yields that core. */
  lemma TrimUnique(w1: string, t: string, w2: string)
    requires AllSpaces(w1) && AllSpaces(w2) && Stripped(t)
    ensures Trim(w1 + t + w2) == t
  {
    if t == [] {
      assert AllSpaces(w1 + w2);
      assert w1 + t + w2 == w1 + w2 + [];
      TrimStartOfSpaces(w1 + w2, []);
    } else {
      assert w1 + t + w2 == w1 + (t + w2);
      TrimStartOfSpaces(w1, t + w2);
      TrimEndOfSpaces(t, w2);
    }
  }

  /** Stripping a stripped string followed by a line break removes just the break. */
  lemma TrimFinalNewline(u: string)
    requires Stripped(u)
    ensures Trim(u + "\n") == u
  {
    assert [] + u + "\n" == u + "\n";
    TrimUnique([], u, "\n");
  }

  /** Stripping `h + t`, where `h` starts with a non-space and `t` ends in `"!\n"`,
      removes just the final line break. */
  lemma TrimDropsFinalNewline(h: string, t: string)
    requires h != [] && !IsSpace(h[0])
    requires |t| >= 2 && t[|t| - 1] == '\n' && t[|t| - 2] == '!'
    ensures Trim(h + t) + "\n" == h + t
  {
    var s := h + t;
    var u := s[..|s| - 1];
    assert s == u + "\n";
    assert u[0] == h[0];
    assert u[|u| - 1] == t[|t| - 2];
    TrimFinalNewline(u);
  }

  /** The two halves of a concatenation are recovered by slicing it. */
  lemma SplitConcat(a: string, b: string)
    ensures (a + b)[..|a|] == a && (a + b)[|a|..] == b
  {
  }

  /** The last `n` characters of `a + b` are the last `n` of `b` when `b` is long enough. */
  lemma SuffixOfConcat(a: string, b: string, n: nat)
    requires n <= |b|
    ensures (a + b)[|a + b| - n..] == b[|b| - n..]
  {
  }

  /** If `b` plus a line break is `h + t`, and `t` ends with `k` plus a line break,
      then `b` starts with `h` and ends with `k`. */
  lemma FramedByNewline(b: string, h: string, t: string, k: string)
    requires b + "\n" == h + t
    requires |t| > |k| && t[|t| - |k| - 1..] == k + "\n"
    ensures |b| >= |h| + |k|
    ensures b[..|h|] == h
    ensures b[|b| - |k|..] == k
  {
    SplitConcat(h, t);
    assert b[..|h|] == (b + "\n")[..|h|];
    SuffixOfConcat(h, t, |k| + 1);
    assert (b + "\n")[|b| - |k|..] == k + "\n";
    assert b[|b| - |k|..] == (b + "\n")[|b| - |k|..|b|];
  }

  /** If `b` plus a line break is `h + t` with `t` non-empty, then `b` is `h`
      followed by `t` without its final character. */
  lemma SplitBeforeNewline(b: string, h: string, t: string)
    requires t != [] && b + "\n" == h + t
    ensures |h| <= |b|
    ensures b[..|h|] == h
    ensures b[|h|..] + "\n" == t
  {
    SplitConcat(h, t);
    assert b[..|h|] == (b + "\n")[..|h|];
    assert b[|h|..] + "\n" == (b + "\n")[|h|..];
  }

  /** Concatenation is associative. */
  lemma AppendAssoc(a: string, b: string, c: string)
    ensures (a + b) + c == a + (b + c)
  {
  }
}
