/** The three regular expressions the downloader applies to URLs and names,
    each written out as what java.util.regex does with it:
    - `packUrl.replaceAll(".$", "")`  (drop the last character),
    - `FILE_NAME_URL_PATTERN = ".*?/([^/]*)$"` with `matches()` and `group(1)`,
    - `outname.replaceAll(".zip", "")` (where `.` is a wildcard). */
module Patterns {
  import opened Wrappers
  import opened Strings

  predicate NoLineTerminator(s: string) {
    forall i | 0 <= i < |s| :: !IsLineTerminator(s[i])
  }

  // ---------------------------------------------------------------------
  // ".$" under replaceAll

  /** Where `$` (no MULTILINE flag) can match: at the end of the input, or
      just before a line terminator that ends the input. */
  predicate DollarAt(s: string, i: nat) {
    i == |s|
    || (i + 1 == |s| && IsLineTerminator(s[i]))
    || (i + 2 == |s| && s[i] == '\r' && s[i + 1] == '\n')
  }

  /** `.$` matches the one character at index `i`. */
  predicate DotDollarAt(s: string, i: nat) {
    i < |s| && !IsLineTerminator(s[i]) && DollarAt(s, i + 1)
  }

  /** The characters of `s` from index `i` on that no match of `.$` covers.
      Matches are one character long, so they never overlap. */
  function KeepUnmatched(s: string, i: nat): string
    requires i <= |s|
    decreases |s| - i
  {
    if i == |s| then []
    else (if DotDollarAt(s, i) then [] else [s[i]]) + KeepUnmatched(s, i + 1)
  }

  /** `s.replaceAll(".$", "")`. */
  function RemoveDotDollar(s: string): string {
    KeepUnmatched(s, 0)
  }

  lemma {:induction false} KeepUnmatchedBeforeLast(s: string, i: nat)
    requires 0 < |s| && i < |s| && !IsLineTerminator(s[|s| - 1])
    ensures KeepUnmatched(s, i) == s[i..|s| - 1]
    decreases |s| - i
  {
    if i == |s| - 1 {
      assert DotDollarAt(s, i);
      assert KeepUnmatched(s, i + 1) == [];
    } else {
      assert !DotDollarAt(s, i);
      KeepUnmatchedBeforeLast(s, i + 1);
      assert s[i..|s| - 1] == [s[i]] + s[i + 1..|s| - 1];
    }
  }

  /** When the last character is not a line terminator (a trailing `/` in
      particular), `.$` removes exactly that last character and nothing else. */
  lemma RemoveDotDollarDropsLast(s: string)
    requires 0 < |s| && !IsLineTerminator(s[|s| - 1])
    ensures RemoveDotDollar(s) == s[..|s| - 1]
  {
    KeepUnmatchedBeforeLast(s, 0);
  }

  // ---------------------------------------------------------------------
  // ".*?/([^/]*)$" under matches()

  /** The pattern matches the whole of `s` with its `/` at index `k`: the
      lazy `.*?` covers `s[..k]` (so no line terminator there) and
      `[^/]*` covers everything after (so no further `/`). */
  predicate SplitsAt(s: string, k: int) {
    0 <= k < |s| && s[k] == '/' && NoLineTerminator(s[..k]) && '/' !in s[k + 1..]
  }

  /** `matcher(s).matches() ? Some(group(1)) : None`. */
  function FileNameGroup(s: string): (r: Option<string>)
    ensures r.Some? ==> |r.value| < |s| && r.value == s[|s| - |r.value|..]
  {
    if |s| == 0 then None
    else if s[|s| - 1] == '/' then
      if NoLineTerminator(s[..|s| - 1]) then Some("") else None
    else
      match FileNameGroup(s[..|s| - 1])
      case None => None
      case Some(g) => Some(g + [s[|s| - 1]])
  }

  /** The function agrees with the regex: it matches exactly when some `/`
      splits the input as the pattern requires, and the group is the text
      after that `/`. */
  lemma {:induction false} FileNameGroupSpec(s: string)
    ensures FileNameGroup(s).Some? <==> exists k :: SplitsAt(s, k)
    ensures FileNameGroup(s).Some? ==> SplitsAt(s, |s| - |FileNameGroup(s).value| - 1)
    decreases |s|
  {
    if |s| == 0 {
    } else if s[|s| - 1] == '/' {
      if NoLineTerminator(s[..|s| - 1]) {
        assert s[|s| - 1 + 1..] == [];
        assert SplitsAt(s, |s| - 1);
      }
    } else {
      var p := s[..|s| - 1];
      FileNameGroupSpec(p);
      forall k ensures SplitsAt(s, k) <==> SplitsAt(p, k) {
        SplitsAtDropLast(s, k);
      }
    }
  }

  /** A last character other than `/` belongs to the group, so it does not
      move the split. */
  lemma SplitsAtDropLast(s: string, k: int)
    requires |s| > 0 && s[|s| - 1] != '/'
    ensures SplitsAt(s, k) <==> SplitsAt(s[..|s| - 1], k)
  {
    var p := s[..|s| - 1];
    if 0 <= k < |p| {
      assert p[..k] == s[..k];
      assert s[k + 1..] == p[k + 1..] + [s[|s| - 1]];
    }
  }

  /** A match exists at most at one `/`: the last one. */
  lemma SplitUnique(s: string, j: int, k: int)
    requires SplitsAt(s, j) && SplitsAt(s, k)
    ensures j == k
  {
  }

  /** On a string without line terminators (every URL), the pattern
      matches if and only if the string contains a `/`, and the group is
      the possibly empty text after the last `/`, which holds no `/`. */
  lemma FileNameGroupOnUrl(s: string)
    requires NoLineTerminator(s)
    ensures FileNameGroup(s).Some? <==> '/' in s
    ensures FileNameGroup(s).Some? ==>
      var g := FileNameGroup(s).value;
      '/' !in g && s == s[..|s| - |g| - 1] + "/" + g
  {
    FileNameGroupSpec(s);
    if '/' in s {
      SlashSplits(s);
    }
    if FileNameGroup(s).Some? {
      GroupAfterSplit(s, |s| - |FileNameGroup(s).value| - 1);
    }
  }

  lemma SlashSplits(s: string)
    requires NoLineTerminator(s) && '/' in s
    ensures SplitsAt(s, LastIndex(s, '/'))
  {
    var k := LastIndex(s, '/');
    assert forall i | 0 <= i < k :: s[..k][i] == s[i];
  }

  lemma GroupAfterSplit(s: string, k: int)
    requires SplitsAt(s, k)
    ensures '/' !in s[k + 1..] && s == s[..k] + "/" + s[k + 1..]
  {
    assert s == s[..k] + [s[k]] + s[k + 1..];
  }

  /** Index of the last occurrence of `c` in `s`. */
  function LastIndex(s: string, c: char): (k: nat)
    requires c in s
    ensures k < |s| && s[k] == c && c !in s[k + 1..]
  {
    if s[|s| - 1] == c then |s| - 1
    else
      assert c in s[..|s| - 1] by {
        var i :| 0 <= i < |s| && s[i] == c;
        assert s[..|s| - 1][i] == c;
      }
      var k := LastIndex(s[..|s| - 1], c);
      assert s[k + 1..] == s[..|s| - 1][k + 1..] + [s[|s| - 1]];
      k
  }

  // ---------------------------------------------------------------------
  // ".zip" under replaceAll

  /** `.zip` matches the four characters starting at `i`. */
  predicate DotZipAt(s: string, i: nat) {
    i + 4 <= |s| && !IsLineTerminator(s[i]) && s[i + 1..i + 4] == "zip"
  }

  /** `s.replaceAll(".zip", "")`: the leftmost match is removed and the
      search resumes after it. */
  function RemoveDotZip(s: string): (r: string)
    ensures |r| <= |s|
  {
    if |s| < 4 then s
    else if DotZipAt(s, 0) then RemoveDotZip(s[4..])
    else [s[0]] + RemoveDotZip(s[1..])
  }

  /** A name without any `zip` substring is left unchanged. */
  lemma {:induction false} RemoveDotZipNoZip(s: string)
    requires !Contains(s, "zip")
    ensures RemoveDotZip(s) == s
    decreases |s|
  {
    if |s| >= 4 {
      if DotZipAt(s, 0) {
        assert OccursAt(s, "zip", 1);
        assert false;
      }
      if Contains(s[1..], "zip") {
        var i: nat :| i <= |s[1..]| && OccursAt(s[1..], "zip", i);
        OccursInTail(s, "zip", i);
        assert false;
      }
      RemoveDotZipNoZip(s[1..]);
    }
  }

  /** The intended use: a `.zip` extension on a name that holds no other
      `zip` is removed, and only it. */
  lemma {:induction false} RemoveDotZipExtension(x: string)
    requires !Contains(x, "zip")
    ensures RemoveDotZip(x + ".zip") == x
    decreases |x|
  {
    var s := x + ".zip";
    if |x| == 0 {
      assert s == ".zip";
      assert DotZipAt(s, 0);
      assert s[4..] == [];
    } else {
      ExtensionNotAtStart(x);
      RemoveDotZipKeep(s);
      assert s[1..] == x[1..] + ".zip";
      NoZipInTail(x);
      RemoveDotZipExtension(x[1..]);
      assert x == [x[0]] + x[1..];
    }
  }

  /** Before the extension, no match starts at the first character. */
  lemma ExtensionNotAtStart(x: string)
    requires |x| > 0 && !Contains(x, "zip")
    ensures !DotZipAt(x + ".zip", 0)
  {
    var s := x + ".zip";
    if |x| >= 4 {
      assert s[1..4] == x[1..4];
      assert !OccursAt(x, "zip", 1);
    } else {
      assert s[|x|] == '.';
      assert s[1..4][|x| - 1] == '.';
    }
  }

  lemma NoZipInTail(x: string)
    requires |x| > 0 && !Contains(x, "zip")
    ensures !Contains(x[1..], "zip")
  {
    if Contains(x[1..], "zip") {
      var i: nat :| i <= |x[1..]| && OccursAt(x[1..], "zip", i);
      OccursInTail(x, "zip", i);
      assert false;
    }
  }

  /** The wildcard at work: the character before an inner `zip` goes with
      it, so the removal eats into the name (`myzipmod.zip` becomes `mmod`,
      taking `c`, `d`, `x` as `m`, `y`, `mod`). */
  lemma RemoveDotZipWildcard(c: char, d: char, x: string)
    requires !IsLineTerminator(d) && !Contains(x, "zip")
    ensures RemoveDotZip([c, d] + "zip" + x + ".zip") == [c] + x
  {
    var s := [c, d] + "zip" + x + ".zip";
    var inner := [d] + "zip" + x + ".zip";
    assert s[1..4][0] == d && s[1..4][2] == 'i';
    RemoveDotZipKeep(s);
    assert s[1..] == inner;
    assert inner[1..4] == "zip";
    RemoveDotZipDrop(inner);
    assert inner[4..] == x + ".zip";
    RemoveDotZipExtension(x);
  }

  lemma RemoveDotZipDrop(s: string)
    requires DotZipAt(s, 0)
    ensures RemoveDotZip(s) == RemoveDotZip(s[4..])
  {
  }

  lemma RemoveDotZipKeep(s: string)
    requires |s| >= 4 && !DotZipAt(s, 0)
    ensures RemoveDotZip(s) == [s[0]] + RemoveDotZip(s[1..])
  {
  }

  /** Removal is not a normal form: deleting one match can join the
      characters around it into a new one. */
  lemma RemoveDotZipNotIdempotent()
    ensures RemoveDotZip("aazipzip") == "azip"
    ensures RemoveDotZip("azip") == ""
  {
    assert RemoveDotZip("zip") == "zip";
    assert DotZipAt("azipzip", 0);
    assert "azipzip"[4..] == "zip";
    assert "aazipzip"[1..4][0] != "zip"[0];
    assert "aazipzip"[1..] == "azipzip";
    assert DotZipAt("azip", 0);
    assert "azip"[4..] == "";
  }
}
