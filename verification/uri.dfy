/** The part of java.net.URI the redirect loop relies on: parsing a
    Location value, reading back its scheme, host and fragment, and
    building a URI from scheme, host, path and fragment. */
module Uris {
  import opened Wrappers
  import opened Strings
  import opened Failures

  /** A parsed or constructed URI: `text` is what `toString()` and
      `toURL()` give; the other fields are `getScheme()`, `getHost()` and
      `getFragment()`, with `None` for Java's `null`. */
  datatype Uri = Uri(text: string, scheme: Option<string>, host: Option<string>, fragment: Option<string>)

  // ---------------------------------------------------------------------
  // Bracket escaping (section 2.1 of RFC 3986, for `[` and `]` only)

  /** `loc.replaceAll("\\[", "%5B").replaceAll("\\]", "%5D")`. */
  function EscapeBrackets(loc: string): string {
    ReplaceAll(ReplaceAll(loc, "[", "%5B"), "]", "%5D")
  }

  /** The per-character view: `[` and `]` become their escapes and every
      other character is kept, in order. */
  function EscapeChar(c: char): string {
    if c == '[' then "%5B" else if c == ']' then "%5D" else [c]
  }

  predicate NoBrackets(s: string) {
    '[' !in s && ']' !in s
  }

  /** Escaping leaves no bracket, is the identity on bracket-free text, and
      works character by character: it maps a concatenation to the
      concatenation of the escapes, each character by `EscapeChar`. */
  lemma EscapeBracketsSpec(loc: string)
    ensures NoBrackets(EscapeBrackets(loc))
    ensures NoBrackets(loc) ==> EscapeBrackets(loc) == loc
    ensures |loc| > 0 ==> EscapeBrackets(loc) == EscapeChar(loc[0]) + EscapeBrackets(loc[1..])
  {
    EscapeBracketsClean(loc);
    if NoBrackets(loc) {
      EscapeBracketsIdentity(loc);
    }
    if |loc| > 0 {
      EscapeBracketsCons(loc);
    }
  }

  lemma EscapeBracketsClean(loc: string)
    ensures NoBrackets(EscapeBrackets(loc))
  {
    EscapeBracketsAsMap(loc);
  }

  lemma EscapeBracketsIdentity(loc: string)
    requires NoBrackets(loc)
    ensures EscapeBrackets(loc) == loc
  {
    EscapeBracketsAsMap(loc);
    MapCharAbsent(loc, '[', "%5B");
    MapCharAbsent(loc, ']', "%5D");
  }

  lemma EscapeBracketsCons(loc: string)
    requires |loc| > 0
    ensures EscapeBrackets(loc) == EscapeChar(loc[0]) + EscapeBrackets(loc[1..])
  {
    assert loc == [loc[0]] + loc[1..];
    EscapeBracketsAppend([loc[0]], loc[1..]);
    EscapeCharSingle(loc[0]);
  }

  lemma EscapeCharSingle(c: char)
    ensures EscapeBrackets([c]) == EscapeChar(c)
  {
    EscapeBracketsAsMap([c]);
    assert MapChar([c], '[', "%5B") == (if c == '[' then "%5B" else [c]);
    if c == '[' {
      assert MapChar("%5B", ']', "%5D") == "%5B";
    } else {
      assert MapChar([c], ']', "%5D") == EscapeChar(c);
    }
  }

  lemma EscapeBracketsAsMap(x: string)
    ensures EscapeBrackets(x) == MapChar(MapChar(x, '[', "%5B"), ']', "%5D")
  {
    ReplaceAllSingle(x, '[', "%5B");
    ReplaceAllSingle(MapChar(x, '[', "%5B"), ']', "%5D");
  }

  /** Escaping distributes over concatenation. */
  lemma EscapeBracketsAppend(a: string, b: string)
    ensures EscapeBrackets(a + b) == EscapeBrackets(a) + EscapeBrackets(b)
  {
    EscapeBracketsAsMap(a + b);
    EscapeBracketsAsMap(a);
    EscapeBracketsAsMap(b);
    MapCharAppend(a, b, '[', "%5B");
    MapCharAppend(MapChar(a, '[', "%5B"), MapChar(b, '[', "%5B"), ']', "%5D");
  }

  // ---------------------------------------------------------------------
  // Parsing (`new URI(String)`)

  /** Characters the URI parser rejects in every component: the ASCII
      characters no component admits, the ISO control characters, and the
      characters `Character.isSpaceChar` holds for (Unicode space, line and
      paragraph separators). Brackets are handled apart, by position. */
  predicate IllegalChar(c: char) {
    c < ' ' || ('\U{007F}' <= c <= '\U{009F}') || IsSpaceChar(c)
    || c == '"' || c == '<' || c == '>' || c == '\\' || c == '^' || c == '`'
    || c == '{' || c == '|' || c == '}'
  }

  /** The Unicode characters of categories Zs, Zl and Zp. */
  predicate IsSpaceChar(c: char) {
    c == ' ' || c == '\U{00A0}' || c == '\U{1680}' || ('\U{2000}' <= c <= '\U{200A}')
    || c == '\U{2028}' || c == '\U{2029}' || c == '\U{202F}' || c == '\U{205F}' || c == '\U{3000}'
  }

  predicate IsHex(c: char) {
    '0' <= c <= '9' || 'a' <= c <= 'f' || 'A' <= c <= 'F'
  }

  /** Every `%` starts an escape of two hex digits. */
  predicate WellEscaped(s: string) {
    forall i | 0 <= i < |s| && s[i] == '%' :: i + 2 < |s| && IsHex(s[i + 1]) && IsHex(s[i + 2])
  }

  predicate IsAlpha(c: char) {
    'a' <= c <= 'z' || 'A' <= c <= 'Z'
  }

  predicate SchemeChar(c: char) {
    IsAlpha(c) || '0' <= c <= '9' || c == '+' || c == '-' || c == '.'
  }

  predicate ValidScheme(s: string) {
    |s| > 0 && IsAlpha(s[0]) && forall i | 0 <= i < |s| :: SchemeChar(s[i])
  }

  /** Index of the first character of `s` that is in `stop`, or `|s|`. */
  function Find(s: string, stop: set<char>): (k: nat)
    ensures k <= |s|
    ensures forall i | 0 <= i < k :: s[i] !in stop
    ensures k < |s| ==> s[k] in stop
  {
    if |s| == 0 || s[0] in stop then 0 else 1 + Find(s[1..], stop)
  }

  /** The host of a server-based authority `[userinfo@]host[:port]`; an
      authority whose port is not numeric is registry-based and has none. */
  function HostOf(authority: string): Option<string> {
    var a := Find(authority, {'@'});
    var rest := if a < |authority| then authority[a + 1..] else authority;
    var c := Find(rest, {':'});
    var port := if c < |rest| then rest[c + 1..] else "";
    if c == 0 || !AllDigits(port) then None else Some(rest[..c])
  }

  /** The text before the first `#`, and the fragment after it if any. */
  function SplitFragment(s: string): (r: (string, Option<string>))
    ensures s == r.0 + (if r.1.Some? then "#" + r.1.value else "")
  {
    var h := Find(s, {'#'});
    if h < |s| then
      assert s == s[..h] + "#" + s[h + 1..];
      (s[..h], Some(s[h + 1..]))
    else (s, None)
  }

  /** The scheme, when a `:` comes before any `/` or `?`, and the rest. */
  function SplitScheme(body: string): (r: (Option<string>, string))
    ensures r.0.Some? ==> body == r.0.value + ":" + r.1
    ensures r.0.None? ==> body == r.1
  {
    var c := Find(body, {':', '/', '?'});
    if c < |body| && body[c] == ':' then
      assert body == body[..c] + ":" + body[c + 1..];
      (Some(body[..c]), body[c + 1..])
    else (None, body)
  }

  /** The authority after a leading `//`, up to the next `/` or `?`. */
  function AuthorityOf(part: string): (r: Option<string>)
    ensures r.Some? ==> OccursAt(part, r.value, 2)
  {
    if StartsWith(part, "//") then
      var q := Find(part[2..], {'/', '?'});
      assert part[2..][..q] == part[2..2 + q];
      Some(part[2..][..q])
    else None
  }

  /** `scheme:part` whose part does not start with `/` (`mailto:x`): the
      parser checks such a part as a whole, as an opaque part. */
  predicate Opaque(s: string) {
    var split := SplitScheme(SplitFragment(s).0);
    split.0.Some? && !StartsWith(split.1, "/")
  }

  /** The text before the query and the fragment. */
  function BeforeQuery(s: string): string {
    s[..Find(s, {'?', '#'})]
  }

  /** `new URI(s)`, for the generic syntax `scheme:[//authority]path[?query][#fragment]`.
      Brackets are reserved characters: the query, the fragment and an
      opaque part may hold them, the scheme, authority and path may not
      (IPv6 host literals aside). */
  function Parse(s: string): Result<Uri, Failure> {
    if exists i | 0 <= i < |s| :: IllegalChar(s[i]) then Failure(MalformedUri(s))
    else if !WellEscaped(s) then Failure(MalformedUri(s))
    else if !Opaque(s) && !NoBrackets(BeforeQuery(s)) then Failure(MalformedUri(s))
    else ParseParts(s)
  }

  /** The structural part of `Parse`, on text free of illegal characters. */
  function ParseParts(s: string): Result<Uri, Failure> {
    var body := SplitFragment(s).0;
    Assemble(s, SplitScheme(body).0, SplitScheme(body).1, SplitFragment(s).1)
  }

  /** The checks `new URI(s)` makes on the pieces of `s`, and the URI built
      from them. */
  function Assemble(s: string, scheme: Option<string>, part: string, fragment: Option<string>): (r: Result<Uri, Failure>)
    ensures r.Success? ==> r.value.text == s && r.value.scheme == scheme && r.value.fragment == fragment
    ensures r.Success? && scheme.Some? ==> ValidScheme(scheme.value)
    ensures r.Success? && r.value.host.Some? ==>
      AuthorityOf(part).Some? && HostOf(AuthorityOf(part).value) == r.value.host
  {
    var authority := AuthorityOf(part);
    if fragment.Some? && '#' in fragment.value then Failure(MalformedUri(s))
    else if scheme.Some? && (!ValidScheme(scheme.value) || |part| == 0) then Failure(MalformedUri(s))
    else if authority == Some("") && part == "//" && fragment.None? then Failure(MalformedUri(s))
    else
      var host := if authority.None? || authority == Some("") then None else HostOf(authority.value);
      Success(Uri(s, scheme, host, fragment))
  }

  /** A successful parse keeps the text as given; that text holds no
      illegal character, and no bracket before its query or fragment
      unless it is opaque. */
  lemma ParseLegal(s: string)
    requires Parse(s).Success?
    ensures Parse(s).value.text == s
    ensures forall i | 0 <= i < |s| :: !IllegalChar(s[i])
    ensures !Opaque(s) ==> NoBrackets(BeforeQuery(s))
  {
  }

  /** Brackets in the query are accepted: `s:/?[]` has path `/` and
      query `[]`. */
  lemma ParseQueryBrackets()
    ensures Parse("s:/?[]").Success?
  {
    var q := "s:/?[]";
    QueryExampleLegal();
    QueryExampleSplit();
    QueryExampleBeforeQuery();
    ParseByParts(q, "s:/?[]", Some("s"), "/?[]", None);
    QueryExampleAssemble();
  }

  /** Past the character checks, parsing is the split and the checks on
      its pieces. */
  lemma ParseByParts(s: string, body: string, scheme: Option<string>, part: string, fragment: Option<string>)
    requires !exists i | 0 <= i < |s| :: IllegalChar(s[i])
    requires WellEscaped(s) && (Opaque(s) || NoBrackets(BeforeQuery(s)))
    requires SplitFragment(s) == (body, fragment) && SplitScheme(body) == (scheme, part)
    ensures Parse(s) == Assemble(s, scheme, part, fragment)
  {
  }

  lemma QueryExampleAssemble()
    ensures Assemble("s:/?[]", Some("s"), "/?[]", None).Success?
  {
    var part := "/?[]";
    assert ValidScheme("s");
    assert part[..2] != "//" by { assert part[..2][1] == '?'; }
    assert AuthorityOf(part) == None;
  }

  lemma QueryExampleLegal()
    ensures !exists i | 0 <= i < |"s:/?[]"| :: IllegalChar("s:/?[]"[i])
    ensures WellEscaped("s:/?[]")
  {
    var q := "s:/?[]";
    forall i | 0 <= i < |q| ensures !IllegalChar(q[i]) && q[i] != '%' {
      assert q[i] in {'s', ':', '/', '?', '[', ']'};
    }
  }

  lemma QueryExampleBeforeQuery()
    ensures NoBrackets(BeforeQuery("s:/?[]"))
  {
    var q := "s:/?[]";
    BeforeQueryAt(q, 3);
    assert q[..3] == "s:/";
  }

  lemma QueryExampleSplit()
    ensures SplitFragment("s:/?[]") == ("s:/?[]", None)
    ensures SplitScheme("s:/?[]") == (Some("s"), "/?[]")
  {
    var q := "s:/?[]";
    FindAt(q, {'#'}, 6);
    FindAt(q, {':', '/', '?'}, 1);
    assert q[..1] == "s" && q[2..] == "/?[]";
  }

  /** Brackets in the path are refused: `s:/[]`. */
  lemma ParsePathBrackets()
    ensures Parse("s:/[]").Failure?
  {
    var p := "s:/[]";
    PathExampleSplit();
    assert !Opaque(p) by { assert "/[]"[..1] == "/"; }
    BeforeQueryAt(p, 5);
    assert !NoBrackets(BeforeQuery(p)) by { assert BeforeQuery(p)[3] == '['; }
  }

  lemma PathExampleSplit()
    ensures SplitFragment("s:/[]") == ("s:/[]", None)
    ensures SplitScheme("s:/[]") == (Some("s"), "/[]")
  {
    var p := "s:/[]";
    FindAt(p, {'#'}, 5);
    FindAt(p, {':', '/', '?'}, 1);
    assert p[..1] == "s" && p[2..] == "/[]";
  }

  /** `Find` is pinned down by where the first stop character is. */
  lemma FindAt(s: string, stop: set<char>, k: nat)
    requires k <= |s| && (forall i | 0 <= i < k :: s[i] !in stop) && (k < |s| ==> s[k] in stop)
    ensures Find(s, stop) == k
  {
  }

  lemma BeforeQueryAt(s: string, k: nat)
    requires k <= |s| && (forall i | 0 <= i < k :: s[i] != '?' && s[i] != '#') && (k < |s| ==> s[k] in {'?', '#'})
    ensures BeforeQuery(s) == s[..k]
  {
    FindAt(s, {'?', '#'}, k);
  }

  /** The scheme is the valid name before the first `:`. */
  lemma ParseScheme(s: string)
    requires Parse(s).Success? && Parse(s).value.scheme.Some?
    ensures ValidScheme(Parse(s).value.scheme.value)
    ensures StartsWith(s, Parse(s).value.scheme.value + ":")
  {
    assert Parse(s) == ParseParts(s);
    PartsScheme(s);
  }

  lemma PartsScheme(s: string)
    requires ParseParts(s).Success? && ParseParts(s).value.scheme.Some?
    ensures ValidScheme(ParseParts(s).value.scheme.value)
    ensures StartsWith(s, ParseParts(s).value.scheme.value + ":")
  {
    var sf := SplitFragment(s);
    var ss := SplitScheme(sf.0);
    var scheme := ss.0.value;
    var tail := if sf.1.Some? then "#" + sf.1.value else "";
    StartsWithConcat(sf.0, tail);
    StartsWithConcat(scheme + ":", ss.1);
    StartsWithTrans(s, sf.0, scheme + ":");
  }

  /** The fragment is the text after the `#` that ends the string. */
  lemma ParseFragment(s: string)
    requires Parse(s).Success? && Parse(s).value.fragment.Some?
    ensures EndsWith(s, "#" + Parse(s).value.fragment.value)
  {
    var f := Parse(s).value.fragment.value;
    assert s[|s| - |"#" + f|..] == "#" + f;
  }

  /** The host is a piece of the text. */
  lemma ParseHost(s: string)
    requires ParseParts(s).Success? && ParseParts(s).value.host.Some?
    ensures Contains(s, ParseParts(s).value.host.value)
  {
    var h := ParseParts(s).value.host.value;
    var sf := SplitFragment(s);
    var ss := SplitScheme(sf.0);
    var a := AuthorityOf(ss.1).value;
    HostOfInfix(a);
    var k: nat :| k <= |a| && OccursAt(a, h, k);
    var off: nat := if ss.0.Some? then |ss.0.value| + 1 else 0;
    assert sf.0[off..] == ss.1;
    InfixChain(s, sf.0, ss.1, a, h, off, k);
  }

  lemma InfixChain(s: string, body: string, part: string, a: string, h: string, off: nat, k: nat)
    requires StartsWith(s, body) && off <= |body| && body[off..] == part
    requires OccursAt(part, a, 2) && OccursAt(a, h, k)
    ensures Contains(s, h)
  {
    assert OccursAt(s, body, 0);
    assert OccursAt(body, part, off);
    OccursTrans(s, body, part, 0, off);
    OccursTrans(s, part, a, off, 2);
    OccursTrans(s, a, h, off + 2, k);
  }

  lemma HostOfInfix(authority: string)
    requires HostOf(authority).Some?
    ensures Contains(authority, HostOf(authority).value)
  {
    var a := Find(authority, {'@'});
    var off: nat := if a < |authority| then a + 1 else 0;
    var rest := authority[off..];
    var c := Find(rest, {':'});
    assert HostOf(authority).value == rest[..c];
    SliceContained(authority, off, c);
  }

  lemma SliceContained(s: string, off: nat, c: nat)
    requires off + c <= |s|
    ensures Contains(s, s[off..][..c])
  {
    assert s[off..off + c] == s[off..][..c];
    assert OccursAt(s, s[off..][..c], off);
  }

  // ---------------------------------------------------------------------
  // Building (`new URI(scheme, host, path, fragment)`)

  /** The text of a URI built from components: `scheme:`, `//host`, the
      path, `#fragment`, each part present only when given. */
  function Render(scheme: Option<string>, host: Option<string>, path: string, fragment: Option<string>): string {
    (if scheme.Some? then scheme.value + ":" else "")
    + (if host.Some? then "//" + host.value else "")
    + path
    + (if fragment.Some? then "#" + fragment.value else "")
  }

  /** The URI for a host-relative Location: scheme, host and fragment of
      `u`, path `path`; userinfo, port and query of `u` are dropped. */
  function Rebuild(u: Uri, path: string): Uri {
    Uri(Render(u.scheme, u.host, path, u.fragment), u.scheme, u.host, u.fragment)
  }

  /** All components of the URI are free of brackets. */
  predicate UriNoBrackets(u: Uri) {
    NoBrackets(u.text)
    && (u.scheme.Some? ==> NoBrackets(u.scheme.value))
    && (u.host.Some? ==> NoBrackets(u.host.value))
    && (u.fragment.Some? ==> NoBrackets(u.fragment.value))
  }

  lemma NoBracketsInfix(s: string, x: string)
    requires NoBrackets(s) && Contains(s, x)
    ensures NoBrackets(x)
  {
    var k: nat :| k <= |s| && OccursAt(s, x, k);
    forall j | 0 <= j < |x| ensures x[j] != '[' && x[j] != ']' {
      assert x[j] == s[k + j];
    }
  }

  /** A URI parsed from bracket-free text carries no bracket in any
      component. */
  lemma ParseNoBrackets(s: string)
    requires NoBrackets(s) && Parse(s).Success?
    ensures UriNoBrackets(Parse(s).value)
  {
    ParseLegal(s);
    var u := Parse(s).value;
    if u.scheme.Some? {
      ParseScheme(s);
      SchemeNoBrackets(s, u.scheme.value);
    }
    if u.fragment.Some? {
      ParseFragment(s);
      FragmentNoBrackets(s, u.fragment.value);
    }
    if u.host.Some? {
      assert ParseParts(s) == Parse(s);
      ParseHost(s);
      NoBracketsInfix(s, u.host.value);
    }
  }

  lemma SchemeNoBrackets(s: string, scheme: string)
    requires NoBrackets(s) && StartsWith(s, scheme + ":")
    ensures NoBrackets(scheme)
  {
    assert OccursAt(s, scheme, 0) by {
      assert s[..|scheme|] == (scheme + ":")[..|scheme|];
    }
    NoBracketsInfix(s, scheme);
  }

  lemma FragmentNoBrackets(s: string, f: string)
    requires NoBrackets(s) && EndsWith(s, "#" + f)
    ensures NoBrackets(f)
  {
    assert OccursAt(s, f, |s| - |f|) by {
      assert s[|s| - |f|..] == ("#" + f)[1..];
    }
    NoBracketsInfix(s, f);
  }

  /** A rebuilt URI keeps every component of `u` free of brackets when the
      new path has none. */
  lemma RebuildNoBrackets(u: Uri, path: string)
    requires UriNoBrackets(u) && NoBrackets(path)
    ensures UriNoBrackets(Rebuild(u, path))
  {
  }
}
