/**
 * String helpers shared by the forms, the decimal parser and the store queries:
 * Python's `str.strip()`, ASCII case folding for `icontains`, substring search,
 * Python's ordering of strings and decimal digit strings.
 */
module Text {

  /** Python's `str.isspace()`: the ASCII and Unicode white-space characters. */
  predicate IsSpace(c: char) {
    || c == ' '
    || ('\t' <= c <= '\r')
    || ('\U{1c}' <= c <= '\U{1f}')
    || c == '\U{85}' || c == '\U{a0}' || c == '\U{1680}'
    || ('\U{2000}' <= c <= '\U{200a}')
    || c == '\U{2028}' || c == '\U{2029}' || c == '\U{202f}' || c == '\U{205f}' || c == '\U{3000}'
  }

  predicate AllSpace(s: string) {
    forall i :: 0 <= i < |s| ==> IsSpace(s[i])
  }

  /**
   * `s.strip()`: white space is dropped from the front and from the end until
   * the text starts and ends with something else (or is empty).
   */
  function Strip(s: string): (r: string)
    ensures |r| <= |s|
    ensures r == [] || (!IsSpace(r[0]) && !IsSpace(r[|r| - 1]))
    decreases |s|
  {
    if |s| > 0 && IsSpace(s[0]) then Strip(s[1..])
    else if |s| > 0 && IsSpace(s[|s| - 1]) then Strip(s[..|s| - 1])
    else s
  }

  /** `r` sits in `s` from index `i` on, with only white space before and after it. */
  predicate Middle(s: string, i: nat, r: string) {
    i + |r| <= |s| && r == s[i..i + |r|] && AllSpace(s[..i]) && AllSpace(s[i + |r|..])
  }

  /** The stripped text is the middle of `s`, from index `i` on, with only white space around it. */
  lemma {:induction false} StripIsMiddle(s: string) returns (i: nat)
    ensures Middle(s, i, Strip(s))
    decreases |s|
  {
    if |s| > 0 && IsSpace(s[0]) {
      assert Strip(s) == Strip(s[1..]);
      var j := StripIsMiddle(s[1..]);
      MiddleAfterSpace(s, j, Strip(s[1..]));
      i := j + 1;
    } else if |s| > 0 && IsSpace(s[|s| - 1]) {
      assert Strip(s) == Strip(s[..|s| - 1]);
      i := StripIsMiddle(s[..|s| - 1]);
      MiddleBeforeSpace(s, i, Strip(s[..|s| - 1]));
    } else {
      assert Strip(s) == s;
      i := 0;
      assert s[..0] == [] && s[|s|..] == [];
    }
  }

  lemma MiddleAfterSpace(s: string, j: nat, r: string)
    requires |s| > 0 && IsSpace(s[0]) && Middle(s[1..], j, r)
    ensures Middle(s, j + 1, r)
  {
    assert s[..j + 1] == [s[0]] + s[1..][..j];
    assert s[j + 1 + |r|..] == s[1..][j + |r|..];
  }

  lemma MiddleBeforeSpace(s: string, i: nat, r: string)
    requires |s| > 0 && IsSpace(s[|s| - 1]) && Middle(s[..|s| - 1], i, r)
    ensures Middle(s, i, r)
  {
    assert s[..i] == s[..|s| - 1][..i];
    assert s[i + |r|..] == s[..|s| - 1][i + |r|..] + [s[|s| - 1]];
  }

  /** Stripping twice is stripping once. */
  lemma StripIdempotent(s: string)
    ensures Strip(Strip(s)) == Strip(s)
  {
  }

  /** A string strips to "" exactly when it is all white space. */
  lemma {:induction false} StripBlank(s: string)
    ensures Strip(s) == [] <==> AllSpace(s)
    decreases |s|
  {
    if AllSpace(s) && |s| > 0 {
      StripBlank(s[1..]);
    } else if Strip(s) == [] {
      var i := StripIsMiddle(s);
      assert s == s[..i] + s[i..];
    }
  }

  /** White space around a stripped, non-empty text is what `strip` removes. */
  lemma {:induction false} StripSurrounded(pre: string, s: string, post: string)
    requires AllSpace(pre) && AllSpace(post)
    requires s != [] && !IsSpace(s[0]) && !IsSpace(s[|s| - 1])
    ensures Strip(pre + s + post) == s
    decreases |pre| + |post|
  {
    var x := pre + s + post;
    if pre != [] {
      assert x[0] == pre[0] && IsSpace(pre[0]);
      assert x[1..] == pre[1..] + s + post;
      assert Strip(x) == Strip(x[1..]);
      assert AllSpace(pre[1..]);
      StripSurrounded(pre[1..], s, post);
    } else if post != [] {
      assert x == s + post;
      assert x[0] == s[0] && x[|x| - 1] == post[|post| - 1] && IsSpace(post[|post| - 1]);
      assert x[..|x| - 1] == pre + s + post[..|post| - 1];
      assert Strip(x) == Strip(x[..|x| - 1]);
      assert AllSpace(post[..|post| - 1]);
      StripSurrounded(pre, s, post[..|post| - 1]);
    } else {
      assert x == s;
    }
  }

  /** ASCII case folding, as SQLite's LIKE applies it. */
  function LowerChar(c: char): char {
    if 'A' <= c <= 'Z' then (c as int - 'A' as int + 'a' as int) as char else c
  }

  function Lower(s: string): string {
    seq(|s|, i requires 0 <= i < |s| => LowerChar(s[i]))
  }

  /** Lower-casing twice is lower-casing once. */
  lemma LowerIdempotent(s: string)
    ensures Lower(Lower(s)) == Lower(s)
  {
    assert forall i :: 0 <= i < |s| ==> LowerChar(LowerChar(s[i])) == LowerChar(s[i]);
  }

  /** `needle in haystack` for Python strings. */
  predicate Contains(haystack: string, needle: string)
    decreases |haystack|
  {
    needle <= haystack || (|haystack| > 0 && Contains(haystack[1..], needle))
  }

  /** Django's `__icontains` lookup, with ASCII case folding. */
  predicate IContains(haystack: string, needle: string) {
    Contains(Lower(haystack), Lower(needle))
  }

  /** `Contains` finds exactly the windows of the haystack that equal the needle. */
  lemma {:induction false} ContainsWindow(haystack: string, needle: string)
    ensures Contains(haystack, needle) <==>
            exists i :: 0 <= i <= |haystack| - |needle| && haystack[i..][..|needle|] == needle
    decreases |haystack|
  {
    if needle <= haystack {
      assert haystack[0..][..|needle|] == needle;
    } else if |haystack| > 0 {
      ContainsWindow(haystack[1..], needle);
      if Contains(haystack[1..], needle) {
        var i :| 0 <= i <= |haystack| - 1 - |needle| && haystack[1..][i..][..|needle|] == needle;
        assert haystack[i + 1..] == haystack[1..][i..];
      }
      if exists i :: 0 <= i <= |haystack| - |needle| && haystack[i..][..|needle|] == needle {
        var i :| 0 <= i <= |haystack| - |needle| && haystack[i..][..|needle|] == needle;
        assert i != 0;
        assert haystack[1..][i - 1..] == haystack[i..];
      }
    }
  }

  /**
   * `__icontains` holds exactly when some window of the haystack, folded, equals
   * the folded needle.
   */
  lemma IContainsWindow(haystack: string, needle: string)
    ensures IContains(haystack, needle) <==>
            exists i :: 0 <= i <= |haystack| - |needle| && Lower(haystack[i..][..|needle|]) == Lower(needle)
  {
    var h, n := Lower(haystack), Lower(needle);
    ContainsWindow(h, n);
    if IContains(haystack, needle) {
      var i :| 0 <= i <= |h| - |n| && h[i..][..|n|] == n;
      assert Lower(haystack[i..][..|needle|]) == h[i..][..|n|];
    }
    if exists i :: 0 <= i <= |haystack| - |needle| && Lower(haystack[i..][..|needle|]) == Lower(needle) {
      var i :| 0 <= i <= |haystack| - |needle| && Lower(haystack[i..][..|needle|]) == Lower(needle);
      assert Lower(haystack[i..][..|needle|]) == h[i..][..|n|];
    }
  }

  /** Python's `<` on strings: lexicographic by code point. */
  predicate Less(a: string, b: string)
    decreases |a|
  {
    if a == [] then b != []
    else if b == [] then false
    else if a[0] != b[0] then a[0] < b[0]
    else Less(a[1..], b[1..])
  }

  lemma {:induction false} LessIrreflexive(a: string)
    ensures !Less(a, a)
    decreases |a|
  {
    if a != [] {
      LessIrreflexive(a[1..]);
    }
  }

  lemma {:induction false} LessTransitive(a: string, b: string, c: string)
    requires Less(a, b) && Less(b, c)
    ensures Less(a, c)
    decreases |a|
  {
    if a != [] && a[0] == b[0] && b[0] == c[0] {
      LessTransitive(a[1..], b[1..], c[1..]);
    }
  }

  /** Two different strings are ordered one way or the other, never both. */
  lemma {:induction false} LessTrichotomy(a: string, b: string)
    ensures a == b || Less(a, b) || Less(b, a)
    ensures !(Less(a, b) && Less(b, a))
    decreases |a|
  {
    if a != [] && b != [] && a[0] == b[0] {
      LessTrichotomy(a[1..], b[1..]);
      if a[1..] == b[1..] {
        assert a == [a[0]] + a[1..] && b == [b[0]] + b[1..];
      }
    }
  }

  /* Decimal digits. */

  predicate IsDigit(c: char) {
    '0' <= c <= '9'
  }

  predicate AllDigits(s: string) {
    forall i :: 0 <= i < |s| ==> IsDigit(s[i])
  }

  function Pow10(k: nat): (r: nat)
    ensures r >= 1
  {
    if k == 0 then 1 else 10 * Pow10(k - 1)
  }

  /** The number a string of decimal digits denotes, most significant digit first. */
  function DigitsValue(s: string): nat
    requires AllDigits(s)
    decreases |s|
  {
    if s == [] then 0 else DigitsValue(s[..|s| - 1]) * 10 + (s[|s| - 1] as int - '0' as int)
  }

  function DigitChar(d: nat): (c: char)
    requires d < 10
    ensures IsDigit(c) && c as int - '0' as int == d
  {
    ('0' as int + d) as char
  }

  /** Python's `str(n)` for a natural number. */
  function NatToDigits(n: nat): (s: string)
    ensures AllDigits(s) && s != []
    ensures |s| > 1 ==> s[0] != '0'
  {
    if n < 10 then [DigitChar(n)] else NatToDigits(n / 10) + [DigitChar(n % 10)]
  }

  /** Reading back the digits of `n` gives `n`. */
  lemma {:induction false} NatToDigitsRoundTrip(n: nat)
    ensures DigitsValue(NatToDigits(n)) == n
  {
    if n >= 10 {
      NatToDigitsRoundTrip(n / 10);
      var s := NatToDigits(n);
      assert s[..|s| - 1] == NatToDigits(n / 10);
    }
  }

  /** The value of a concatenation: the left part is shifted by the length of the right part. */
  lemma {:induction false} DigitsValueAppend(a: string, b: string)
    requires AllDigits(a) && AllDigits(b)
    ensures AllDigits(a + b)
    ensures DigitsValue(a + b) == DigitsValue(a) * Pow10(|b|) + DigitsValue(b)
    decreases |b|
  {
    assert AllDigits(a + b);
    if b != [] {
      var b' := b[..|b| - 1];
      var d := b[|b| - 1] as int - '0' as int;
      assert (a + b)[..|a + b| - 1] == a + b';
      assert (a + b)[|a + b| - 1] == b[|b| - 1];
      DigitsValueAppend(a, b');
      assert DigitsValue(a + b) == DigitsValue(a + b') * 10 + d;
      assert DigitsValue(b) == DigitsValue(b') * 10 + d;
      ShiftByTen(DigitsValue(a), Pow10(|b'|), DigitsValue(b'), d);
    } else {
      assert a + b == a;
    }
  }

  /** `x * (10 * p) + (y * 10 + d) == (x * p + y) * 10 + d`. */
  lemma ShiftByTen(x: int, p: int, y: int, d: int)
    ensures x * (10 * p) + (y * 10 + d) == (x * p + y) * 10 + d
  {
    calc {
      x * (10 * p) + (y * 10 + d);
    ==
      (x * p) * 10 + y * 10 + d;
    ==
      (x * p + y) * 10 + d;
    }
  }

  function Zeros(k: nat): (s: string)
    ensures |s| == k && AllDigits(s)
    ensures forall i :: 0 <= i < k ==> s[i] == '0'
  {
    seq(k, i => '0')
  }

  /** Leading zeros do not change the value of a digit string. */
  lemma {:induction false} ZerosValue(k: nat, s: string)
    requires AllDigits(s)
    ensures AllDigits(Zeros(k) + s) && DigitsValue(Zeros(k) + s) == DigitsValue(s)
  {
    ZerosAreZero(k);
    DigitsValueAppend(Zeros(k), s);
  }

  lemma {:induction false} ZerosAreZero(k: nat)
    ensures DigitsValue(Zeros(k)) == 0
  {
    if k > 0 {
      assert Zeros(k)[..k - 1] == Zeros(k - 1);
      ZerosAreZero(k - 1);
    }
  }
}
