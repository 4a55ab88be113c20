/**
 * The handful of Python `str` operations the session code relies on:
 * `startswith`, substring search, `replace`, `strip`, `lstrip(ch)` and
 * `str(n)` for a natural number.
 */
module Text {

  function Min(a: int, b: int): int {
    if a <= b then a else b
  }

  /** `s.startswith(p)` */
  predicate IsPrefix(p: string, s: string) {
    |p| <= |s| && s[..|p|] == p
  }

  /** `t` occurs in `s` starting at index `i`. */
  predicate OccursAt(s: string, t: string, i: int) {
    0 <= i && i + |t| <= |s| && s[i..i + |t|] == t
  }

  /** `t in s` for strings */
  predicate Contains(s: string, t: string) {
    exists i :: 0 <= i <= |s| - |t| && OccursAt(s, t, i)
  }

  lemma ContainsShift(s: string, t: string)
    requires |s| > 0
    requires Contains(s[1..], t)
    ensures Contains(s, t)
  {
    var i :| 0 <= i <= |s[1..]| - |t| && OccursAt(s[1..], t, i);
    assert s[1..][i..i + |t|] == s[i + 1..i + 1 + |t|];
    assert OccursAt(s, t, i + 1);
  }

  /**
   * `s.replace(pat, by)`: scans left to right and replaces every
   * non-overlapping occurrence of `pat`.
   */
  function Replace(s: string, pat: string, repl: string): string
    requires |pat| > 0
    decreases |s|
  {
    if |s| < |pat| then s
    else if s[..|pat|] == pat then repl + Replace(s[|pat|..], pat, repl)
    else [s[0]] + Replace(s[1..], pat, repl)
  }

  /** Replacing a pattern that does not occur changes nothing. */
  lemma {:induction false} ReplaceAbsent(s: string, pat: string, repl: string)
    requires |pat| > 0
    ensures !Contains(s, pat) ==> Replace(s, pat, repl) == s
    decreases |s|
  {
    if |s| < |pat| {
    } else if s[..|pat|] == pat {
      assert OccursAt(s, pat, 0);
    } else {
      if Contains(s[1..], pat) {
        ContainsShift(s, pat);
      }
      ReplaceAbsent(s[1..], pat, repl);
      assert s == [s[0]] + s[1..];
    }
  }

  /** When no character of `a` can start the pattern, the first occurrence is the one right after `a`. */
  lemma {:induction false} ReplaceAfterPlain(a: string, pat: string, repl: string, b: string)
    requires |pat| > 0
    requires forall i :: 0 <= i < |a| ==> a[i] != pat[0]
    ensures Replace(a + pat + b, pat, repl) == a + repl + Replace(b, pat, repl)
    decreases |a|
  {
    var s := a + pat + b;
    if |a| == 0 {
      assert s == pat + b;
      assert s[..|pat|] == pat;
      assert s[|pat|..] == b;
    } else {
      assert s[0] == a[0];
      assert s[..|pat|] != pat by {
        assert s[..|pat|][0] == s[0];
      }
      assert Replace(s, pat, repl) == [s[0]] + Replace(s[1..], pat, repl);
      assert s[1..] == a[1..] + pat + b;
      ReplaceAfterPlain(a[1..], pat, repl, b);
      assert a == [a[0]] + a[1..];
    }
  }

  /** When no occurrence of the pattern starts inside `a`, `replace` copies `a` and carries on after it. */
  lemma {:induction false} ReplaceSkipsPrefix(a: string, rest: string, pat: string, repl: string)
    requires |pat| > 0
    requires forall i :: 0 <= i < |a| ==> !OccursAt(a + rest, pat, i)
    ensures Replace(a + rest, pat, repl) == a + Replace(rest, pat, repl)
    decreases |a|
  {
    var s := a + rest;
    if |a| > 0 {
      if |s| >= |pat| {
        assert !OccursAt(s, pat, 0);
      }
      assert s[1..] == a[1..] + rest;
      forall i | 0 <= i < |a| - 1
        ensures !OccursAt(a[1..] + rest, pat, i)
      {
        assert !OccursAt(s, pat, i + 1);
        if i + |pat| <= |s| - 1 {
          assert s[1..][i..i + |pat|] == s[i + 1..i + 1 + |pat|];
        }
      }
      ReplaceSkipsPrefix(a[1..], rest, pat, repl);
      if |s| >= |pat| {
        assert s[..|pat|] != pat by {
          assert s[0..|pat|] == s[..|pat|];
        }
        assert Replace(s, pat, repl) == [s[0]] + Replace(s[1..], pat, repl);
      } else {
        assert Replace(rest, pat, repl) == rest;
      }
      assert a == [a[0]] + a[1..];
    } else {
      assert s == rest;
    }
  }

  /** Whatever contains a string contains each of its prefixes. */
  lemma ContainsPrefix(s: string, t: string, k: nat)
    requires k <= |t|
    requires Contains(s, t)
    ensures Contains(s, t[..k])
  {
    var i :| 0 <= i <= |s| - |t| && OccursAt(s, t, i);
    assert s[i..i + k] == s[i..i + |t|][..k];
    assert OccursAt(s, t[..k], i);
  }

  /** Deleting occurrences (`replace(pat, "")`) never makes a string longer. */
  lemma {:induction false} ReplaceByEmptyShrinks(s: string, pat: string)
    requires |pat| > 0
    ensures |Replace(s, pat, "")| <= |s|
    decreases |s|
  {
    if |s| < |pat| {
    } else if s[..|pat|] == pat {
      ReplaceByEmptyShrinks(s[|pat|..], pat);
    } else {
      ReplaceByEmptyShrinks(s[1..], pat);
    }
  }

  /**
   * Python 2.7's `unicode.isspace()` for one character, the test `strip()`
   * uses: its Unicode 5.2 table still counts U+180E MONGOLIAN VOWEL SEPARATOR.
   */
  predicate IsSpace(c: char) {
    var n := c as int;
    || n == 0x20
    || 0x09 <= n <= 0x0D
    || 0x1C <= n <= 0x1F
    || n == 0x85 || n == 0xA0 || n == 0x1680 || n == 0x180E
    || 0x2000 <= n <= 0x200A
    || n == 0x2028 || n == 0x2029 || n == 0x202F || n == 0x205F || n == 0x3000
  }

  /** Number of whitespace characters at the start of `s`. */
  function LeadingSpaces(s: string): (n: nat)
    ensures n <= |s|
    ensures forall i :: 0 <= i < n ==> IsSpace(s[i])
    ensures n < |s| ==> !IsSpace(s[n])
    decreases |s|
  {
    if |s| > 0 && IsSpace(s[0]) then 1 + LeadingSpaces(s[1..]) else 0
  }

  /** Number of whitespace characters at the end of `s`. */
  function TrailingSpaces(s: string): (n: nat)
    ensures n <= |s|
    ensures forall i :: |s| - n <= i < |s| ==> IsSpace(s[i])
    ensures n < |s| ==> !IsSpace(s[|s| - n - 1])
    decreases |s|
  {
    if |s| > 0 && IsSpace(s[|s| - 1]) then 1 + TrailingSpaces(s[..|s| - 1]) else 0
  }

  /**
   * `s.strip()`: the result is the infix of `s` left once every leading and
   * trailing whitespace character is removed.
   */
  function Strip(s: string): (r: string)
    ensures LeadingSpaces(s) + |r| <= |s|
    ensures r == s[LeadingSpaces(s)..LeadingSpaces(s) + |r|]
    ensures forall i :: LeadingSpaces(s) + |r| <= i < |s| ==> IsSpace(s[i])
    ensures |r| > 0 ==> !IsSpace(r[0]) && !IsSpace(r[|r| - 1])
  {
    var rest := s[LeadingSpaces(s)..];
    rest[..|rest| - TrailingSpaces(rest)]
  }

  /** Stripping twice is the same as stripping once. */
  lemma StripIdempotent(s: string)
    ensures Strip(Strip(s)) == Strip(s)
  {
    var r := Strip(s);
    assert LeadingSpaces(r) == 0;
    assert TrailingSpaces(r) == 0;
  }

  /** `s.lstrip(ch)` for a single character `ch`. */
  function LStripChar(s: string, ch: char): (r: string)
    ensures |r| <= |s| && r == s[|s| - |r|..]
    ensures forall i :: 0 <= i < |s| - |r| ==> s[i] == ch
    ensures |r| > 0 ==> r[0] != ch
    decreases |s|
  {
    if |s| > 0 && s[0] == ch then LStripChar(s[1..], ch) else s
  }

  predicate IsDigit(c: char) {
    '0' <= c <= '9'
  }

  function DigitChar(d: nat): (c: char)
    requires d < 10
    ensures IsDigit(c) && c as int - '0' as int == d
  {
    ('0' as int + d) as char
  }

  /** `str(n)` for a natural number: its decimal digits, most significant first. */
  function NatToString(n: nat): (r: string)
    ensures |r| > 0
    ensures forall i :: 0 <= i < |r| ==> IsDigit(r[i])
    decreases n
  {
    if n < 10 then [DigitChar(n)] else NatToString(n / 10) + [DigitChar(n % 10)]
  }

  function DigitValue(c: char): nat
    requires IsDigit(c)
  {
    c as int - '0' as int
  }

  /** The value of a string of decimal digits, as Python's `int(s)` reads it. */
  function DecimalValue(s: string): nat
    requires forall i :: 0 <= i < |s| ==> IsDigit(s[i])
  {
    if |s| == 0 then 0 else 10 * DecimalValue(s[..|s| - 1]) + DigitValue(s[|s| - 1])
  }

  /** `int(str(n)) == n` */
  lemma {:induction false} NatToStringRoundTrip(n: nat)
    ensures DecimalValue(NatToString(n)) == n
    decreases n
  {
    if n >= 10 {
      NatToStringRoundTrip(n / 10);
      var s := NatToString(n);
      assert s[..|s| - 1] == NatToString(n / 10);
    }
  }

  /** Distinct numbers print differently. */
  lemma NatToStringInjective(m: nat, n: nat)
    requires NatToString(m) == NatToString(n)
    ensures m == n
  {
    NatToStringRoundTrip(m);
    NatToStringRoundTrip(n);
  }
}
