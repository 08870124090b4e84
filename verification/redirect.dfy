/** `getLocationHeader`: follow `Location` headers, one request per hop,
    until a response carries none, and return the URL of that request. */
module Redirects {
  import opened Wrappers
  import opened Strings
  import opened Failures
  import opened Uris

  /** What the network answers, keyed by request URL: `location[u]` is the
      `Location` header of the response to `u`. A URL outside `location`
      answers without one: either the response has no such header, or the
      request fails, which `getHeaderField` swallows and reports as `null`.
      `body[u]` is what streaming `u` yields; a URL outside `body` fails
      while reading. */
  datatype Web = Web(location: map<string, string>, body: map<string, string>)

  /** One redirect hop's outcome. */
  datatype Hop = Final(url: string) | Redirect(next: Uri)

  /** The next URI for a `Location` value received while at `u`: brackets
      are escaped; a value starting with `/` keeps the scheme, host and
      fragment of `u`; any other value is parsed as a whole new URI. */
  function Follow(u: Uri, location: string): Result<Uri, Failure> {
    var target := EscapeBrackets(location);
    if StartsWith(target, "/") then Success(Rebuild(u, target)) else Parse(target)
  }

  /** One iteration of the loop: `uri.toURL()` (which needs a scheme), the
      request, and the reading of its `Location` header. No header, for
      whatever reason, ends the loop at `u`. */
  function Step(web: Web, u: Uri): Result<Hop, Failure> {
    if u.scheme.None? then Failure(NotAbsolute(u.text))
    else if u.text !in web.location then Success(Final(u.text))
    else match Follow(u, web.location[u.text])
      case Failure(e) => Failure(e)
      case Success(next) => Success(Redirect(next))
  }

  /** The same loop over an arbitrary hop function, so that facts about the
      loop's shape are proved once, apart from what a hop does. */
  function Drive(hop: Uri -> Result<Hop, Failure>, u: Uri, fuel: nat): Result<string, Failure>
    decreases fuel
  {
    if fuel == 0 then Failure(HopLimit(u.text))
    else match hop(u)
      case Failure(e) => Failure(e)
      case Success(Final(url)) => Success(url)
      case Success(Redirect(next)) => Drive(hop, next, fuel - 1)
  }

  function StepOf(web: Web): Uri -> Result<Hop, Failure> {
    (v: Uri) => Step(web, v)
  }

  /** The loop, allowed at most `fuel` requests: `Drive` over this
      network's hops. The Java loop has no bound; running out of fuel is
      reported as `HopLimit`. */
  function Resolve(web: Web, u: Uri, fuel: nat): (r: Result<string, Failure>)
    ensures r.Success? ==> r.value !in web.location
  {
    FinalHasNoLocation(web);
    DriveKeeps(StepOf(web), _ => true, url => url !in web.location, u, fuel);
    Drive(StepOf(web), u, fuel)
  }

  /** A hop ends the chain only at a URL the network answers without
      `Location`. */
  lemma FinalHasNoLocation(web: Web)
    ensures forall v | StepOf(web)(v).Success? && StepOf(web)(v).value.Final? ::
      StepOf(web)(v).value.url !in web.location
  {
  }

  /** `getLocationHeader(targetURL)`. */
  function GetLocationHeader(web: Web, target: string, fuel: nat): Result<string, Failure> {
    match Parse(target)
    case Failure(e) => Failure(e)
    case Success(u) => Resolve(web, u, fuel)
  }

  /** A host-relative `Location` keeps the scheme, host and fragment of the
      hop just requested (not of the first request) and takes the escaped
      value as the path; any other value replaces the URI wholesale. */
  lemma FollowSpec(u: Uri, location: string)
    ensures StartsWith(location, "/") ==>
      && Follow(u, location).Success?
      && Follow(u, location).value.scheme == u.scheme
      && Follow(u, location).value.host == u.host
      && Follow(u, location).value.fragment == u.fragment
      && Follow(u, location).value.text
         == Render(u.scheme, u.host, EscapeBrackets(location), u.fragment)
    ensures !StartsWith(location, "/") ==>
      Follow(u, location) == Parse(EscapeBrackets(location))
    ensures NoBrackets(location) ==> EscapeBrackets(location) == location
  {
    EscapeKeepsLeadingSlash(location);
    if NoBrackets(location) {
      EscapeBracketsIdentity(location);
    }
  }

  /** Escaping brackets never adds or removes a leading `/`. */
  lemma EscapeKeepsLeadingSlash(location: string)
    ensures StartsWith(EscapeBrackets(location), "/") <==> StartsWith(location, "/")
  {
    var t := EscapeBrackets(location);
    if |location| > 0 {
      EscapeBracketsCons(location);
      assert t[0] == EscapeChar(location[0])[0];
      assert StartsWith(t, "/") <==> t[0] == '/';
      assert StartsWith(location, "/") <==> location[0] == '/';
    } else {
      EscapeBracketsIdentity(location);
    }
  }

  /** Every URI the loop visits from a bracket-free start is bracket-free,
      and so is the URL it returns. */
  lemma ResolveNoBrackets(web: Web, u: Uri, fuel: nat)
    requires UriNoBrackets(u)
    ensures Resolve(web, u, fuel).Success? ==> NoBrackets(Resolve(web, u, fuel).value)
  {
    var hop := StepOf(web);
    forall v | UriNoBrackets(v) && hop(v).Success? && hop(v).value.Redirect?
      ensures UriNoBrackets(hop(v).value.next)
    {
      StepNoBrackets(web, v);
    }
    forall v | UriNoBrackets(v) && hop(v).Success? && hop(v).value.Final?
      ensures NoBrackets(hop(v).value.url)
    {
      assert Step(web, v).value.url == v.text;
    }
    DriveKeeps(hop, UriNoBrackets, NoBrackets, u, fuel);
  }

  /** A hop from a bracket-free URI leads to a bracket-free URI. */
  lemma StepNoBrackets(web: Web, u: Uri)
    requires UriNoBrackets(u) && Step(web, u).Success? && Step(web, u).value.Redirect?
    ensures UriNoBrackets(Step(web, u).value.next)
  {
    var location := web.location[u.text];
    FollowNoBrackets(u, location);
  }

  lemma FollowNoBrackets(u: Uri, location: string)
    requires UriNoBrackets(u) && Follow(u, location).Success?
    ensures UriNoBrackets(Follow(u, location).value)
  {
    var target := EscapeBrackets(location);
    EscapeBracketsSpec(location);
    if StartsWith(target, "/") {
      RebuildNoBrackets(u, target);
    } else {
      ParseNoBrackets(target);
    }
  }

  lemma {:induction false} DriveMoreFuel(hop: Uri -> Result<Hop, Failure>, u: Uri, fuel: nat, more: nat)
    requires fuel <= more
    requires !(Drive(hop, u, fuel).Failure? && Drive(hop, u, fuel).error.HopLimit?)
    ensures Drive(hop, u, more) == Drive(hop, u, fuel)
    decreases fuel
  {
    if hop(u).Success? && hop(u).value.Redirect? {
      DriveMoreFuel(hop, hop(u).value.next, fuel - 1, more - 1);
    }
  }

  /** A property of URIs that every redirect keeps holds all along the
      chain, so the URL returned has whatever every final hop guarantees. */
  lemma {:induction false} DriveKeeps(hop: Uri -> Result<Hop, Failure>, good: Uri -> bool, done: string -> bool, u: Uri, fuel: nat)
    requires good(u)
    requires forall v | good(v) && hop(v).Success? && hop(v).value.Redirect? :: good(hop(v).value.next)
    requires forall v | good(v) && hop(v).Success? && hop(v).value.Final? :: done(hop(v).value.url)
    ensures Drive(hop, u, fuel).Success? ==> done(Drive(hop, u, fuel).value)
    decreases fuel
  {
    if fuel > 0 && hop(u).Success? && hop(u).value.Redirect? {
      DriveKeeps(hop, good, done, hop(u).value.next, fuel - 1);
    }
  }

  /** The loop depends on nothing but what each hop answers. */
  lemma {:induction false} DriveSameHops(hop: Uri -> Result<Hop, Failure>, other: Uri -> Result<Hop, Failure>, u: Uri, fuel: nat)
    requires forall v :: hop(v) == other(v)
    ensures Drive(hop, u, fuel) == Drive(other, u, fuel)
    decreases fuel
  {
    if fuel > 0 && hop(u).Success? && hop(u).value.Redirect? {
      DriveSameHops(hop, other, hop(u).value.next, fuel - 1);
    }
  }

  /** More fuel changes nothing once the loop stops without exhausting it. */
  lemma ResolveMoreFuel(web: Web, u: Uri, fuel: nat, more: nat)
    requires fuel <= more
    requires !(Resolve(web, u, fuel).Failure? && Resolve(web, u, fuel).error.HopLimit?)
    ensures Resolve(web, u, more) == Resolve(web, u, fuel)
  {
    DriveMoreFuel(StepOf(web), u, fuel, more);
  }

  /** With no `Location` on the first response, the target comes back
      unchanged. */
  lemma NoRedirectReturnsTarget(web: Web, target: string, fuel: nat)
    requires fuel > 0 && Parse(target).Success? && Parse(target).value.scheme.Some?
    requires target !in web.location
    ensures GetLocationHeader(web, target, fuel) == Success(target)
  {
    ParseLegal(target);
  }

  /** The downloader's `for (;;)` loop, with the fuel made explicit and
      one hop (connect, read `Location`, build the next URI) given as
      `hop`. */
  method DriveLoop(hop: Uri -> Result<Hop, Failure>, start: Uri, fuel: nat) returns (r: Result<string, Failure>)
    ensures r == Drive(hop, start, fuel)
  {
    var u := start;
    var left: nat := fuel;
    while true
      invariant Drive(hop, u, left) == Drive(hop, start, fuel)
      decreases left
    {
      if left == 0 {
        return Failure(HopLimit(u.text));
      }
      var step := hop(u);
      if step.Failure? {
        return Failure(step.error);
      }
      match step.value
      case Final(url) =>
        return Success(url);
      case Redirect(next) =>
        u := next;
        left := left - 1;
    }
  }

  /** The loop over the network's hops. */
  method ResolveLoop(web: Web, start: Uri, fuel: nat) returns (r: Result<string, Failure>)
    ensures r == Resolve(web, start, fuel)
    ensures r.Success? ==> r.value !in web.location
  {
    r := DriveLoop(StepOf(web), start, fuel);
  }

  /** `getLocationHeader` as a method: parse, then loop. */
  method GetLocationHeaderMethod(web: Web, target: string, fuel: nat) returns (r: Result<string, Failure>)
    ensures r == GetLocationHeader(web, target, fuel)
  {
    var parsed := Parse(target);
    if parsed.Failure? {
      return Failure(parsed.error);
    }
    r := ResolveLoop(web, parsed.value, fuel);
  }
}
