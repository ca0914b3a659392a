/** The key the health checker files a route under, and the endpoint it probes for a key. */
module Endpoint {
  import opened Options
  import opened Text
  import opened Route

  // ---------- the key of a route ----------

  function DefaultPort(url: string): Port {
    if HTTPS <= url then 443 else 80
  }

  /** `route_target_key`: host and port taken from the route's target URL. */
  function TargetKey(url: string): string {
    KeyFor(AuthorityOf(StripScheme(url)), DefaultPort(url))
  }

  function KeyFor(authority: string, default: Port): string {
    if authority != [] && authority[0] == '[' then
      match SplitOnce(authority[1..], BRACKET_COLON)
      case Some((h, digits)) =>
        (match ParsePort(digits)
         case Some(port) => HostPort("[" + h + "]", port)
         case None => HostPort("[" + TrimEndMatches(authority[1..], ']') + "]", 443))
      case None => HostPort("[" + TrimEndMatches(authority[1..], ']') + "]", 443)
    else
      match RSplitOnce(authority, ':')
      case Some((h, digits)) =>
        (match ParsePort(digits)
         case Some(port) => HostPort(h, port)
         case None => HostPort(authority, default))
      case None => HostPort(authority, default)
  }

  /** The endpoint a key is probed at: the parts around its first colon, if the second is a port. */
  function ProbeTarget(key: string): Option<(string, Port)> {
    match SplitOnce(key, ":")
    case None => None
    case Some((host, digits)) =>
      match ParsePort(digits)
      case None => None
      case Some(port) => Some((host, port))
  }

  lemma SplitAtFirstColon(left: string, right: string)
    requires ':' !in left
    ensures SplitOnce(left + ":" + right, ":") == Some((left, right))
  {
    var s := left + ":" + right;
    forall j: nat | j < |left| ensures !OccursAt(s, ":", j) {
      CharAt(s, ':', j);
      assert s[j] == left[j];
    }
    SplitOnceAt(s, ":", left, right);
  }

  lemma ProbedWithoutColon(host: string, port: Port)
    requires ':' !in host
    ensures ProbeTarget(HostPort(host, port)) == Some((host, port))
  {
    PortRoundTrip(port);
    SplitAtFirstColon(host, PrintNat(port));
  }

  lemma NotProbedTwoColons(left: string, middle: string, digits: string)
    requires ':' !in left
    ensures ProbeTarget(left + ":" + (middle + ":" + digits)) == None
  {
    var right := middle + ":" + digits;
    SplitAtFirstColon(left, right);
    assert right[|middle|] == ':';
  }

  /** A key `host:port` is probed at that host and port exactly when the host has no colon; with a
      colon, as in an IPv6 literal, it is not probed at all. */
  lemma ProbedIffNoColon(host: string, port: Port)
    ensures ProbeTarget(HostPort(host, port)) == if ':' in host then None else Some((host, port))
  {
    if ':' in host {
      var left, right := FirstColon(host);
      Regroup(left + ":", right, ":");
      Regroup(left + ":", right + ":", PrintNat(port));
      NotProbedTwoColons(left, right, PrintNat(port));
    } else {
      ProbedWithoutColon(host, port);
    }
  }

  lemma CutAt(s: string, i: nat)
    requires i < |s| && s[i] == ':' && forall j :: 0 <= j < i ==> s[j] != ':'
    ensures s == s[..i] + ":" + s[i + 1..] && ':' !in s[..i]
  {
  }

  lemma FirstColon(s: string) returns (left: string, right: string)
    requires ':' in s
    ensures s == left + ":" + right && ':' !in left
  {
    var i := IndexOf(s, ':');
    if i < |s| { CutAt(s, i); }
    left, right := s[..i], s[i + 1..];
  }

  /** An authority in the shapes of section 4.2 of RFC 9110: a name or an IP literal, then maybe a port. */
  datatype Authority = Authority(host: string, port: Option<Port>)

  predicate HostShaped(host: string) {
    && '/' !in host
    && (|| (Bracketed(host) && ']' !in host[1..|host| - 1])
        || (':' !in host && (host != [] ==> host[0] != '[')))
  }

  function Printed(a: Authority): string {
    match a.port
    case None => a.host
    case Some(p) => HostPort(a.host, p)
  }

  lemma UrlAuthority(scheme: string, authority: string, path: string)
    requires scheme == HTTP || scheme == HTTPS
    requires '/' !in authority && (path == [] || path[0] == '/')
    ensures AuthorityOf(StripScheme(scheme + (authority + path))) == authority
    ensures DefaultPort(scheme + (authority + path)) == if scheme == HTTPS then 443 else 80
  {
    SchemeUnsplit(authority + path);
    AuthorityEndsAtSlash(authority, path);
  }

  lemma PrintedNoSlash(a: Authority)
    requires '/' !in a.host
    ensures '/' !in Printed(a)
  {
    if a.port.Some? { PortRoundTrip(a.port.value); }
  }

  lemma BracketedRest(host: string)
    requires Bracketed(host) && ']' !in host[1..|host| - 1]
    ensures SplitOnce(host[1..], BRACKET_COLON) == None
    ensures TrimEndMatches(host[1..], ']') == host[1..|host| - 1]
  {
    forall j: nat ensures !OccursAt(host[1..], BRACKET_COLON, j) {
      BracketColonAt(host, j + 1);
      BracketColonAt(host[1..], j);
    }
    var b, inner := host[1..], host[1..|host| - 1];
    assert b[..|b| - 1] == inner;
    assert inner != [] ==> inner[|inner| - 1] in inner;
  }

  lemma KeyWithoutPort(host: string, default: Port)
    requires HostShaped(host)
    ensures KeyFor(host, default) == HostPort(host, if Bracketed(host) then 443 else default)
  {
    if Bracketed(host) {
      BracketedRest(host);
      BracketInner(host);
    }
  }

  lemma KeyOfParts(authority: string, h: string, digits: string, port: Port, default: Port)
    requires authority != [] && authority[0] == '[' && ParsePort(digits) == Some(port)
    requires SplitOnce(authority[1..], BRACKET_COLON) == Some((h, digits))
    ensures KeyFor(authority, default) == HostPort("[" + h + "]", port)
  {
  }

  lemma KeyOfBracketedPort(host: string, port: Port, default: Port)
    requires Bracketed(host)
    ensures KeyFor(HostPort(host, port), default) == HostPort(host, port)
  {
    PortRoundTrip(port);
    BracketedParse(host, port);
    assert HostPort(host, port)[0] == '[';
    BracketInner(host);
    KeyOfParts(HostPort(host, port), host[1..|host| - 1], PrintNat(port), port, default);
  }

  /** A written port is part of the key as it stands. */
  lemma KeyOfPort(host: string, port: Port, default: Port)
    requires host != [] && host[0] == '[' ==> Bracketed(host)
    ensures KeyFor(HostPort(host, port), default) == HostPort(host, port)
  {
    if host != [] && host[0] == '[' {
      KeyOfBracketedPort(host, port, default);
    } else {
      PortRoundTrip(port);
      assert HostPort(host, port)[0] != '[';
      RSplitOnceAt(HostPort(host, port), ':', host, PrintNat(port));
    }
  }

  /** The last colon decides what the host is. */
  lemma SameHost(host: string, port: Port, posted: string, digits: string)
    requires HostPort(host, port) == posted + ":" + digits && AllDigits(digits)
    ensures host == posted
  {
    PortRoundTrip(port);
    RSplitOnceAt(HostPort(host, port), ':', host, PrintNat(port));
    RSplitOnceAt(HostPort(host, port), ':', posted, digits);
  }

  /** A key says what it was made of. */
  lemma SameParts(host: string, port: Port, posted: string, postedPort: Port)
    ensures HostPort(host, port) == HostPort(posted, postedPort) <==> host == posted && port == postedPort
  {
    if HostPort(host, port) == HostPort(posted, postedPort) {
      SameHost(host, port, posted, PrintNat(postedPort));
      assert HostPort(host, port)[|host| + 1..] == PrintNat(port);
      assert HostPort(posted, postedPort)[|host| + 1..] == PrintNat(postedPort);
    }
  }

  /** A leading bracket that no bracket closes, or that is closed and opened again, does not reach
      the key as it stands. */
  lemma UnclosedKey(host: string, port: Port, default: Port)
    requires host != [] && host[0] == '[' && !Bracketed(host)
    ensures KeyFor(HostPort(host, port), default) != HostPort(host, port)
  {
    var a := HostPort(host, port);
    TrimmedKey(host, port);
    match SplitOnce(a[1..], BRACKET_COLON)
    case None =>
    case Some((inner, digits)) =>
      BracketedOnlyIf(a, inner, digits);
      hide HostPort, TrimEndMatches, Bracketed, SplitOnce;
      if ParsePort(digits).Some? { SameParts("[" + inner + "]", ParsePort(digits).value, host, port); }
  }

  lemma TrimmedKey(host: string, port: Port)
    requires host != [] && host[0] == '['
    ensures var a := HostPort(host, port);
            a[0] == '[' && HostPort("[" + TrimEndMatches(a[1..], ']') + "]", 443) != a
  {
    var a := HostPort(host, port);
    var digits := PrintNat(port);
    assert a == host + (":" + digits);
    assert a[1..][|a| - 2] == digits[|digits| - 1];
    var kept := "[" + TrimEndMatches(a[1..], ']') + "]";
    assert |kept| > |host|;
    hide HostPort, TrimEndMatches;
    SameParts(kept, 443, host, port);
  }

  /** A route registered by host and port is keyed by them exactly when a leading bracket is closed
      at the end of the host. */
  lemma KeyOfNewRoute(email: string, host: string, port: Port)
    requires '/' !in host
    ensures TargetKey(NewRoute(email, host, port).targetUrl) == HostPort(host, port)
            <==> (host != [] && host[0] == '[' ==> Bracketed(host))
  {
    HostPortShape(host, port);
    Regroup(HTTP, HostPort(host, port), DEFAULT_PATH);
    UrlAuthority(HTTP, HostPort(host, port), DEFAULT_PATH);
    if host != [] && host[0] == '[' && !Bracketed(host) {
      UnclosedKey(host, port, 80);
    } else {
      KeyOfPort(host, port, 80);
    }
  }

  /** The port digits written in an authority, if there are any. */
  function WrittenPort(authority: string): Option<Port> {
    if authority != [] && authority[0] == '[' then
      match SplitOnce(authority[1..], BRACKET_COLON)
      case Some((_, digits)) => ParsePort(digits)
      case None => None
    else
      match RSplitOnce(authority, ':')
      case Some((_, digits)) => ParsePort(digits)
      case None => None
  }

  /** A route from a URL with a valid port is keyed by the host and port the route carries. */
  lemma KeyOfUrlRoute(email: string, url: string)
    requires WrittenPort(AuthorityOf(StripScheme(Trim(url)))).Some?
    ensures var r := FromUrl(email, url); TargetKey(r.targetUrl) == HostPort(r.host, r.port)
  {
    var u := Trim(url);
    var rest := StripScheme(u);
    RouteToTarget(email, SchemeOf(u), rest);
    SchemeUnsplit(rest);
  }

  lemma EndpointWithoutPort(host: string)
    requires HostShaped(host)
    ensures EndpointOf(host) == (host, 80)
  {
    if Bracketed(host) {
      BracketedRest(host);
      BracketInner(host);
    }
  }

  lemma EndpointOfPrinted(a: Authority)
    requires HostShaped(a.host)
    ensures EndpointOf(Printed(a)) == (a.host, if a.port.Some? then a.port.value else 80)
  {
    match a.port
    case Some(p) => EndpointOfHostPort(a.host, p);
    case None => EndpointWithoutPort(a.host);
  }

  /** A URL route carries the URL's host and written port, and port 80 when none is written, also
      for https: the health checker therefore goes by the target, not by the route's port. */
  lemma UrlRouteFields(email: string, a: Authority, scheme: string, path: string)
    requires HostShaped(a.host) && (scheme == HTTP || scheme == HTTPS) && (path == [] || path[0] == '/')
    requires Trimmed(scheme + (Printed(a) + path))
    ensures FromUrl(email, scheme + (Printed(a) + path))
            == ProfileRoute(email, a.host, if a.port.Some? then a.port.value else 80, scheme + (Printed(a) + path))
  {
    var rest := Printed(a) + path;
    PrintedNoSlash(a);
    SchemeUnsplit(rest);
    AuthorityEndsAtSlash(Printed(a), path);
    EndpointOfPrinted(a);
    RouteToTarget(email, scheme, rest);
  }

  lemma EndpointWithBadPort(host: string, digits: string)
    requires HostShaped(host) && ':' !in digits && ParsePort(digits) == None
    ensures EndpointOf(host + ":" + digits) == (host, 80)
  {
    var a := host + ":" + digits;
    if Bracketed(host) {
      var inner := host[1..|host| - 1];
      BracketInner(host);
      assert a[1..] == inner + BRACKET_COLON + digits && a[0] == '[';
      forall j: nat | j < |inner| ensures !OccursAt(a[1..], BRACKET_COLON, j) {
        BracketColonAt(a[1..], j);
        assert a[1..][j] == inner[j];
      }
      SplitOnceAt(a[1..], BRACKET_COLON, inner, digits);
      EndpointOfParts(a, inner, digits);
    } else {
      assert a[0] != '[';
      EndpointOfOpen(a, host, digits);
    }
  }

  /** A port that cannot be read, or is missing behind its colon, is taken as 80; the target still
      has it as it was written. */
  lemma BadPortFields(email: string, host: string, digits: string, scheme: string, path: string)
    requires HostShaped(host) && ':' !in digits && '/' !in digits && ParsePort(digits) == None
    requires (scheme == HTTP || scheme == HTTPS) && (path == [] || path[0] == '/')
    requires Trimmed(scheme + (host + ":" + digits + path))
    ensures FromUrl(email, scheme + (host + ":" + digits + path))
            == ProfileRoute(email, host, 80, scheme + (host + ":" + digits + path))
  {
    var authority := host + ":" + digits;
    SchemeUnsplit(authority + path);
    AuthorityEndsAtSlash(authority, path);
    EndpointWithBadPort(host, digits);
    RouteToTarget(email, scheme, authority + path);
  }
}
