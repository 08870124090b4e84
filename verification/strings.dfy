/** String helpers with the meaning the Java standard library gives them:
    `startsWith`, `endsWith`, literal replace-all, `Integer.toString`. */
module Strings {

  predicate StartsWith(s: string, prefix: string) {
    |prefix| <= |s| && s[..|prefix|] == prefix
  }

  predicate EndsWith(s: string, suffix: string) {
    |suffix| <= |s| && s[|s| - |suffix|..] == suffix
  }

  /** `pat` occurs in `s` starting at index `i`. */
  predicate OccursAt(s: string, pat: string, i: nat) {
    i + |pat| <= |s| && s[i..i + |pat|] == pat
  }

  predicate Contains(s: string, pat: string) {
    exists i: nat | i <= |s| :: OccursAt(s, pat, i)
  }

  lemma OccursInTail(s: string, pat: string, i: nat)
    requires |s| > 0 && OccursAt(s[1..], pat, i)
    ensures OccursAt(s, pat, i + 1)
  {
    assert s[1..][i..i + |pat|] == s[i + 1..i + 1 + |pat|];
  }

  lemma OccursInSuffix(s: string, pat: string, k: nat, i: nat)
    requires k <= |s| && OccursAt(s[k..], pat, i)
    ensures OccursAt(s, pat, k + i)
  {
    assert s[k..][i..i + |pat|] == s[k + i..k + i + |pat|];
  }

  lemma StartsWithConcat(a: string, b: string)
    ensures StartsWith(a + b, a)
  {
    assert (a + b)[..|a|] == a;
  }

  lemma StartsWithTrans(x: string, y: string, z: string)
    requires StartsWith(x, y) && StartsWith(y, z)
    ensures StartsWith(x, z)
  {
    assert x[..|z|] == x[..|y|][..|z|];
  }

  /** An occurrence inside an occurrence is an occurrence. */
  lemma OccursTrans(x: string, y: string, z: string, i: nat, j: nat)
    requires OccursAt(x, y, i) && OccursAt(y, z, j)
    ensures OccursAt(x, z, i + j)
  {
    forall t | 0 <= t < |z| ensures x[i + j + t] == z[t] {
      assert y[j + t] == z[t];
      assert x[i..i + |y|][j + t] == y[j + t];
    }
    assert x[i + j..i + j + |z|] == z;
  }

  /** The character `.` of a java.util.regex pattern matches every character
      except these line terminators (no DOTALL flag). */
  predicate IsLineTerminator(c: char) {
    c == '\n' || c == '\r' || c == '\U{0085}' || c == '\U{2028}' || c == '\U{2029}'
  }

  /** `s.replace(pat, rep)`, and `s.replaceAll(p, rep)` for a regex `p` that
      matches only the literal `pat`: scans left to right, replacing
      non-overlapping occurrences. An empty pattern matches before every
      character and at the end, as in Java. */
  function ReplaceAll(s: string, pat: string, rep: string): string
    decreases |s|
  {
    if |pat| == 0 then
      if |s| == 0 then rep else rep + [s[0]] + ReplaceAll(s[1..], pat, rep)
    else if |s| < |pat| then s
    else if s[..|pat|] == pat then rep + ReplaceAll(s[|pat|..], pat, rep)
    else [s[0]] + ReplaceAll(s[1..], pat, rep)
  }

  /** Replacing a pattern that does not occur changes nothing. */
  lemma {:induction false} ReplaceAllAbsent(s: string, pat: string, rep: string)
    requires |pat| > 0 && !Contains(s, pat)
    ensures ReplaceAll(s, pat, rep) == s
    decreases |s|
  {
    if |s| >= |pat| {
      assert !OccursAt(s, pat, 0);
      if Contains(s[1..], pat) {
        var i: nat :| OccursAt(s[1..], pat, i);
        OccursInTail(s, pat, i);
        assert false;
      }
      ReplaceAllAbsent(s[1..], pat, rep);
    }
  }

  /** Replace-all when the pattern leads the string. */
  lemma ReplaceAllLeading(pat: string, t: string, rep: string)
    requires |pat| > 0
    ensures ReplaceAll(pat + t, pat, rep) == rep + ReplaceAll(t, pat, rep)
  {
    assert (pat + t)[..|pat|] == pat;
    assert (pat + t)[|pat|..] == t;
  }

  /** A pattern whose first character does not recur in it, appended to
      text that does not hold it, is the only occurrence replaced. */
  lemma {:induction false} ReplaceAllTrailing(p: string, pat: string, rep: string)
    requires |pat| > 0 && !Contains(p, pat)
    requires forall k | 0 < k < |pat| :: pat[k] != pat[0]
    ensures ReplaceAll(p + pat, pat, rep) == p + rep
    decreases |p|
  {
    if |p| == 0 {
      assert p + pat == pat + "";
      ReplaceAllLeading(pat, "", rep);
    } else {
      NoMatchBeforeTrailing(p, pat);
      if Contains(p[1..], pat) {
        var i: nat :| OccursAt(p[1..], pat, i);
        OccursInTail(p, pat, i);
        assert false;
      }
      ReplaceAllTrailing(p[1..], pat, rep);
      SkipOneSlice(p, pat, rep);
    }
  }

  lemma NoMatchBeforeTrailing(p: string, pat: string)
    requires |pat| > 0 && |p| > 0 && !Contains(p, pat)
    requires forall k | 0 < k < |pat| :: pat[k] != pat[0]
    ensures (p + pat)[..|pat|] != pat
  {
    var s := p + pat;
    if |p| >= |pat| {
      assert !OccursAt(p, pat, 0);
      assert s[..|pat|] == p[..|pat|];
    } else {
      assert s[..|pat|][|p|] == pat[0] != pat[|p|];
    }
  }

  lemma SkipOneSlice(p: string, pat: string, rep: string)
    requires |pat| > 0 && |p| > 0 && (p + pat)[..|pat|] != pat
    requires ReplaceAll(p[1..] + pat, pat, rep) == p[1..] + rep
    ensures ReplaceAll(p + pat, pat, rep) == p + rep
  {
    ReplaceAllNoMatchAt(p + pat, pat, rep);
    ConsTail(p, pat, rep);
  }

  lemma ConsTail(p: string, t: string, u: string)
    requires |p| > 0
    ensures (p + t)[1..] == p[1..] + t && (p + t)[0] == p[0]
    ensures [p[0]] + (p[1..] + u) == p + u
  {
    assert [p[0]] + p[1..] == p;
  }

  lemma ReplaceAllNoMatchAt(s: string, pat: string, rep: string)
    requires |pat| > 0 && |pat| <= |s| && s[..|pat|] != pat
    ensures ReplaceAll(s, pat, rep) == [s[0]] + ReplaceAll(s[1..], pat, rep)
  {
  }

  /** A prefix that does not hold the pattern's first character passes
      through replace-all untouched. */
  lemma {:induction false} ReplaceAllSkipPrefix(p: string, t: string, pat: string, rep: string)
    requires |pat| > 0 && pat[0] !in p
    ensures ReplaceAll(p + t, pat, rep) == p + ReplaceAll(t, pat, rep)
    decreases |p|
  {
    if |p| == 0 {
      assert p + t == t;
    } else {
      ReplaceAllSkipPrefix(p[1..], t, pat, rep);
      SkipOne(p, t, pat, rep);
    }
  }

  lemma SkipOne(p: string, t: string, pat: string, rep: string)
    requires |pat| > 0 && |p| > 0 && p[0] != pat[0]
    requires ReplaceAll(p[1..] + t, pat, rep) == p[1..] + ReplaceAll(t, pat, rep)
    ensures ReplaceAll(p + t, pat, rep) == p + ReplaceAll(t, pat, rep)
  {
    var s := p + t;
    assert s[1..] == p[1..] + t;
    ReplaceAllNoMatchHere(s, pat, rep);
    assert [p[0]] + p[1..] == p;
  }

  /** A string whose first character differs from the pattern's keeps that
      character and continues after it. */
  lemma ReplaceAllNoMatchHere(s: string, pat: string, rep: string)
    requires |pat| > 0 && |s| > 0 && s[0] != pat[0]
    ensures ReplaceAll(s, pat, rep) == [s[0]] + ReplaceAll(s[1..], pat, rep)
  {
    if |s| >= |pat| {
      assert s[..|pat|][0] == s[0];
    }
  }

  /** Replacing a single character is a character-by-character map. */
  function MapChar(s: string, c: char, rep: string): (r: string)
    ensures c !in rep ==> c !in r
    ensures forall x :: x != c && x !in rep ==> (x in r <==> x in s)
  {
    if |s| == 0 then []
    else (if s[0] == c then rep else [s[0]]) + MapChar(s[1..], c, rep)
  }

  lemma {:induction false} ReplaceAllSingle(s: string, c: char, rep: string)
    ensures ReplaceAll(s, [c], rep) == MapChar(s, c, rep)
    decreases |s|
  {
    if |s| > 0 {
      ReplaceAllSingle(s[1..], c, rep);
    }
  }

  lemma MapCharAbsent(s: string, c: char, rep: string)
    requires c !in s
    ensures MapChar(s, c, rep) == s
  {
  }

  lemma {:induction false} MapCharAppend(a: string, b: string, c: char, rep: string)
    ensures MapChar(a + b, c, rep) == MapChar(a, c, rep) + MapChar(b, c, rep)
    decreases |a|
  {
    if |a| == 0 {
      assert a + b == b;
    } else {
      assert (a + b)[0] == a[0];
      assert (a + b)[1..] == a[1..] + b;
      MapCharAppend(a[1..], b, c, rep);
    }
  }

  // Decimal rendering of integers (Integer.toString) and its inverse.

  predicate IsDigit(c: char) {
    '0' <= c <= '9'
  }

  predicate AllDigits(s: string) {
    forall i | 0 <= i < |s| :: IsDigit(s[i])
  }

  function DigitChar(d: nat): (c: char)
    requires d < 10
    ensures IsDigit(c) && c as int - '0' as int == d
  {
    (d + '0' as int) as char
  }

  function NatToString(n: nat): (r: string)
    ensures |r| > 0 && AllDigits(r)
    ensures r[0] == '0' ==> n == 0
  {
    if n < 10 then [DigitChar(n)] else NatToString(n / 10) + [DigitChar(n % 10)]
  }

  function ParseNat(s: string): nat
    requires AllDigits(s)
  {
    if |s| == 0 then 0
    else ParseNat(s[..|s| - 1]) * 10 + (s[|s| - 1] as int - '0' as int)
  }

  /** `Integer.toString(x)`: decimal digits, with a leading `-` when negative. */
  function IntToString(x: int): (r: string)
    ensures |r| > 0 && (x < 0 <==> r[0] == '-')
    ensures AllDigits(if x < 0 then r[1..] else r)
  {
    if x < 0 then "-" + NatToString(-x) else NatToString(x)
  }

  predicate IsIntString(s: string) {
    if |s| > 0 && s[0] == '-' then AllDigits(s[1..]) else AllDigits(s)
  }

  function ParseInt(s: string): int
    requires IsIntString(s)
  {
    if |s| > 0 && s[0] == '-' then -(ParseNat(s[1..]) as int) else ParseNat(s)
  }

  lemma {:induction false} NatRoundTrip(n: nat)
    ensures ParseNat(NatToString(n)) == n
  {
    if n >= 10 {
      var s := NatToString(n);
      assert s[..|s| - 1] == NatToString(n / 10);
      NatRoundTrip(n / 10);
    }
  }

  /** Parsing the rendering of any integer gives the integer back. */
  lemma IntRoundTrip(x: int)
    ensures IsIntString(IntToString(x)) && ParseInt(IntToString(x)) == x
  {
    if x < 0 {
      assert IntToString(x)[1..] == NatToString(-x);
      NatRoundTrip(-x);
    } else {
      NatRoundTrip(x);
    }
  }
}
