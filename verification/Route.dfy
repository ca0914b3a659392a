/** A routing entry and the two texts it is built from: a URL, or host and port. */
module Route {
  import opened Options
  import opened Text

  /** One entry of the table: the agent's email and where its mail is posted. */
  datatype ProfileRoute = ProfileRoute(email: string, host: string, port: Port, targetUrl: string)

  const HTTP := "http://"
  const HTTPS := "https://"
  const DEFAULT_PATH := "/webhooks/amail-inbound"
  const BRACKET_COLON := "]:"

  function HostPort(host: string, port: Port): string {
    host + ":" + PrintNat(port)
  }

  function DefaultUrl(host: string, port: Port): string {
    HTTP + HostPort(host, port) + DEFAULT_PATH
  }

  function NewRoute(email: string, host: string, port: Port): ProfileRoute {
    ProfileRoute(email, host, port, DefaultUrl(host, port))
  }

  function StripScheme(url: string): string {
    if HTTP <= url then url[|HTTP|..]
    else if HTTPS <= url then url[|HTTPS|..]
    else url
  }

  function AuthorityOf(rest: string): string {
    rest[..IndexOf(rest, '/')]
  }

  function PortOr80(digits: string): Port {
    match ParsePort(digits)
    case Some(p) => p
    case None => 80
  }

  /** Host and port of an authority; an absent or malformed port reads as 80. */
  function EndpointOf(authority: string): (string, Port) {
    if authority != [] && authority[0] == '[' then
      match SplitOnce(authority[1..], BRACKET_COLON)
      case Some((h, p)) => ("[" + h + "]", PortOr80(p))
      case None => ("[" + TrimEndMatches(authority[1..], ']') + "]", 80)
    else
      match RSplitOnce(authority, ':')
      case Some((h, p)) => (h, PortOr80(p))
      case None => (authority, 80)
  }

  function SchemeOf(url: string): string {
    if HTTPS <= url then HTTPS else HTTP
  }

  /** The route for `scheme` (with its `://`) followed by `rest` = authority and path. */
  function RouteTo(email: string, scheme: string, rest: string): ProfileRoute {
    var authority := AuthorityOf(rest);
    var path := rest[|authority|..];
    var (host, port) := EndpointOf(authority);
    ProfileRoute(email, host, port, scheme + authority + path)
  }

  function FromUrl(email: string, rawUrl: string): ProfileRoute {
    var url := Trim(rawUrl);
    RouteTo(email, SchemeOf(url), StripScheme(url))
  }

  /** Every route the bridge holds was built by one of the two constructors; a host given
      without a URL has no slash, since `update_route` and the file reader test for one. */
  ghost predicate Constructed(r: ProfileRoute) {
    || ('/' !in r.host && r == NewRoute(r.email, r.host, r.port))
    || exists url :: r == FromUrl(r.email, url)
  }

  // ---------- URLs are kept verbatim ----------

  lemma RouteToTarget(email: string, scheme: string, rest: string)
    ensures RouteTo(email, scheme, rest).targetUrl == scheme + rest
  {
    var authority := AuthorityOf(rest);
    var path := rest[|authority|..];
    assert authority + path == rest;
    assert scheme + authority + path == scheme + (authority + path);
  }

  lemma SchemeSplit(url: string)
    ensures HTTP <= url || HTTPS <= url ==> SchemeOf(url) + StripScheme(url) == url
    ensures !(HTTP <= url || HTTPS <= url) ==> SchemeOf(url) == HTTP && StripScheme(url) == url
  {
    if HTTP <= url { assert url[4] == ':'; }
  }

  lemma SchemeUnsplit(rest: string)
    ensures SchemeOf(HTTP + rest) == HTTP && StripScheme(HTTP + rest) == rest
    ensures SchemeOf(HTTPS + rest) == HTTPS && StripScheme(HTTPS + rest) == rest
  {
    assert (HTTP + rest)[4] == ':' && (HTTPS + rest)[4] == 's';
  }

  /** The target is the trimmed URL itself, with `http://` put in front when it has no scheme. */
  lemma TargetIsTrimmedUrl(email: string, url: string)
    ensures FromUrl(email, url).targetUrl ==
            if HTTP <= Trim(url) || HTTPS <= Trim(url) then Trim(url) else HTTP + Trim(url)
  {
    var u := Trim(url);
    RouteToTarget(email, SchemeOf(u), StripScheme(u));
    SchemeSplit(u);
  }

  lemma SchemeHasSlash(u: string)
    ensures HTTP <= u || HTTPS <= u ==> '/' in u
    ensures '/' in HTTP + u
  {
    assert HTTP <= u ==> u[5] == '/';
    assert HTTPS <= u ==> u[6] == '/';
    assert (HTTP + u)[5] == '/';
  }

  lemma HttpKeepsTrimmed(u: string)
    requires Trimmed(u)
    ensures Trimmed(HTTP + u)
  {
    var t := HTTP + u;
    assert t[0] == 'h' && t[|t| - 1] == if u == [] then '/' else u[|u| - 1];
  }

  lemma TargetIsTrimmed(email: string, url: string)
    ensures Trimmed(FromUrl(email, url).targetUrl)
    ensures '/' in FromUrl(email, url).targetUrl
  {
    TargetIsTrimmedUrl(email, url);
    SchemeHasSlash(Trim(url));
    HttpKeepsTrimmed(Trim(url));
  }

  /** `from_url` is a normal form: rebuilding from the target it produced changes nothing. */
  lemma FromUrlNormalForm(email: string, url: string)
    ensures FromUrl(email, FromUrl(email, url).targetUrl) == FromUrl(email, url)
  {
    var u := Trim(url);
    var t := FromUrl(email, url).targetUrl;
    TargetIsTrimmed(email, url);
    assert Trim(t) == t;
    RouteToTarget(email, SchemeOf(u), StripScheme(u));
    SchemeUnsplit(StripScheme(u));
  }

  // ---------- what the routes file keeps of a route ----------

  predicate Shortened(r: ProfileRoute) {
    EndsWith(r.targetUrl, DEFAULT_PATH) && HTTP + HostPort(r.host, r.port) <= r.targetUrl
  }

  /** The value `write_current_routes` prints. */
  function WrittenValue(r: ProfileRoute): string {
    if Shortened(r) then HostPort(r.host, r.port) else r.targetUrl
  }

  function ParseAddr(text: string): Option<(string, Port)> {
    ParseTrimmedAddr(Trim(text))
  }

  function ParseTrimmedAddr(s: string): Option<(string, Port)> {
    if s == [] then None
    else if s[0] == '[' then
      match SplitOnce(s[1..], BRACKET_COLON)
      case None => None
      case Some((addr, digits)) =>
        match ParsePort(digits)
        case None => None
        case Some(p) => Some(("[" + addr + "]", p))
    else
      match RSplitOnce(s, ':')
      case Some((host, digits)) =>
        (match ParsePort(digits)
         case Some(p) => Some((host, p))
         case None => ParseAddrWhole(s))
      case None => ParseAddrWhole(s)
  }

  function ParseAddrWhole(s: string): Option<(string, Port)> {
    match ParsePort(s)
    case Some(p) => Some(("127.0.0.1", p))
    case None => Some((s, 8645))
  }

  /** The route `load_routes_file` builds for one key and value. (A value holding `://` holds `/`.) */
  function ReadValue(key: string, text: string): Option<ProfileRoute> {
    var value := Trim(text);
    if '/' in value then Some(FromUrl(key, value))
    else match ParseAddr(value)
      case Some((host, port)) => Some(NewRoute(key, host, port))
      case None => None
  }

  predicate Bracketed(host: string) {
    |host| >= 2 && host[0] == '[' && host[|host| - 1] == ']' && SplitOnce(host, BRACKET_COLON).None?
  }

  /** Hosts that `host:port` gives back: no leading white space, and a leading `[` closed by a final `]`. */
  predicate HostSurvives(host: string) {
    host != [] ==> !IsWhite(host[0]) && (host[0] == '[' ==> Bracketed(host))
  }

  lemma HostPortShape(host: string, port: Port)
    ensures var s := HostPort(host, port);
            s != [] && !IsWhite(s[|s| - 1]) && (Trimmed(s) <==> (host == [] || !IsWhite(host[0])))
            && ('/' in s <==> '/' in host)
  {
    PortRoundTrip(port);
    var s := HostPort(host, port);
    assert s == host + (":" + PrintNat(port));
    assert s[|s| - 1] == PrintNat(port)[|PrintNat(port)| - 1];
  }

  lemma BracketColonAt(s: string, i: nat)
    ensures OccursAt(s, BRACKET_COLON, i) <==> i + 1 < |s| && s[i] == ']' && s[i + 1] == ':'
  {
    if i + 2 <= |s| {
      assert s[i..i + 2] == [s[i], s[i + 1]];
      assert BRACKET_COLON == [']', ':'];
    }
  }

  lemma BracketedParse(host: string, port: Port)
    requires Bracketed(host)
    ensures SplitOnce(HostPort(host, port)[1..], BRACKET_COLON) == Some((host[1..|host| - 1], PrintNat(port)))
  {
    var inner := host[1..|host| - 1];
    var s := HostPort(host, port);
    assert host == "[" + inner + "]";
    assert s[1..] == inner + BRACKET_COLON + PrintNat(port);
    forall j: nat | j < |inner| ensures !OccursAt(s[1..], BRACKET_COLON, j) {
      assert !OccursAt(host, BRACKET_COLON, j + 1);
      BracketColonAt(host, j + 1);
      BracketColonAt(s[1..], j);
    }
    SplitOnceAt(s[1..], BRACKET_COLON, inner, PrintNat(port));
  }

  /** Whenever splitting at the first `]:` gives back a bracketed host, the host is `Bracketed`. */
  lemma BracketedOnlyIf(s: string, addr: string, digits: string)
    requires s != [] && s[0] == '[' && SplitOnce(s[1..], BRACKET_COLON) == Some((addr, digits))
    ensures Bracketed("[" + addr + "]")
  {
    var host := "[" + addr + "]";
    forall j: nat ensures !OccursAt(host, BRACKET_COLON, j) {
      BracketColonAt(host, j);
      if j > 0 {
        BracketColonAt(s[1..], j - 1);
        assert j - 1 < |addr| ==> !OccursAt(s[1..], BRACKET_COLON, j - 1);
      }
    }
  }

  lemma LeftPartStart(s: string, c: char, h: string, digits: string)
    requires RSplitOnce(s, c) == Some((h, digits)) && h != []
    ensures s != [] && h[0] == s[0]
  {
  }

  /** No trimmed text reads as a host that starts with white space. */
  lemma ParsedHostStart(s: string)
    requires s == [] || !IsWhite(s[0])
    ensures ParseTrimmedAddr(s).Some? ==>
              ParseTrimmedAddr(s).value.0 == [] || !IsWhite(ParseTrimmedAddr(s).value.0[0])
  {
    if s != [] && s[0] != '[' {
      match RSplitOnce(s, ':')
      case None =>
      case Some((h, digits)) => if h != [] { LeftPartStart(s, ':', h, digits); }
    }
  }

  lemma OpenHostReloads(host: string, port: Port)
    requires host != [] ==> host[0] != '['
    ensures ParseTrimmedAddr(HostPort(host, port)) == Some((host, port))
  {
    PortRoundTrip(port);
    var s := HostPort(host, port);
    assert s == host + [':'] + PrintNat(port);
    RSplitOnceAt(s, ':', host, PrintNat(port));
  }

  lemma BracketHostReloads(host: string, port: Port)
    requires host != [] && host[0] == '['
    ensures ParseTrimmedAddr(HostPort(host, port)) == Some((host, port)) <==> Bracketed(host)
  {
    PortRoundTrip(port);
    var s := HostPort(host, port);
    assert s[0] == '[';
    hide SplitOnce;
    if Bracketed(host) {
      BracketedParse(host, port);
      BracketInner(host);
    } else {
      match SplitOnce(s[1..], BRACKET_COLON)
      case None =>
      case Some((addr, digits)) => BracketedOnlyIf(s, addr, digits);
    }
  }

  /** `host:port` parses back to the same pair exactly when the host is one that survives. */
  lemma AddrReloads(host: string, port: Port)
    ensures ParseAddr(HostPort(host, port)) == Some((host, port)) <==> HostSurvives(host)
  {
    HostPortShape(host, port);
    if host != [] && IsWhite(host[0]) {
      ParsedHostStart(Trim(HostPort(host, port)));
    } else if host != [] && host[0] == '[' {
      BracketHostReloads(host, port);
    } else {
      OpenHostReloads(host, port);
    }
  }

  lemma EndpointHasNoSlash(authority: string)
    requires '/' !in authority
    ensures '/' !in EndpointOf(authority).0
  {
    if authority != [] && authority[0] == '[' {
      match SplitOnce(authority[1..], BRACKET_COLON)
      case Some((h, p)) => assert h <= authority[1..];
      case None => assert TrimEndMatches(authority[1..], ']') <= authority[1..];
    } else {
      match RSplitOnce(authority, ':')
      case Some((h, p)) => assert h <= authority;
      case None =>
    }
  }

  lemma HostHasNoSlash(r: ProfileRoute)
    requires Constructed(r)
    ensures '/' !in r.host
  {
    if !('/' !in r.host && r == NewRoute(r.email, r.host, r.port)) {
      var url :| r == FromUrl(r.email, url);
      EndpointHasNoSlash(AuthorityOf(StripScheme(Trim(url))));
    }
  }

  lemma NewIsShortened(email: string, host: string, port: Port)
    ensures Shortened(NewRoute(email, host, port))
  {
    var t := DefaultUrl(host, port);
    assert t[|t| - |DEFAULT_PATH|..] == DEFAULT_PATH;
  }

  /** The routes a write and a reload give back. */
  predicate RouteSurvives(r: ProfileRoute) {
    Shortened(r) ==> r.targetUrl == DefaultUrl(r.host, r.port) && HostSurvives(r.host)
  }

  /** What the file keeps: a route is read back as itself exactly when it was written in full, or
      its target is the default URL of a host that survives. A custom path that merely ends in
      the default suffix is lost. */
  lemma RouteReloads(r: ProfileRoute)
    requires Constructed(r)
    ensures ReadValue(r.email, WrittenValue(r)) == Some(r) <==> RouteSurvives(r)
  {
    HostHasNoSlash(r);
    if Shortened(r) {
      ShortFormReloads(r);
    } else {
      if '/' !in r.host && r == NewRoute(r.email, r.host, r.port) {
        NewIsShortened(r.email, r.host, r.port);
      }
      var url :| r == FromUrl(r.email, url);
      TargetIsTrimmed(r.email, url);
      FromUrlNormalForm(r.email, url);
    }
  }

  lemma ShortFormReloads(r: ProfileRoute)
    requires Shortened(r) && '/' !in r.host
    ensures ReadValue(r.email, HostPort(r.host, r.port)) == Some(r)
            <==> r.targetUrl == DefaultUrl(r.host, r.port) && HostSurvives(r.host)
  {
    var s := HostPort(r.host, r.port);
    HostPortShape(r.host, r.port);
    TrimKeepsNoSlash(s);
    TrimTwice(s);
    AddrReloads(r.host, r.port);
  }

  lemma TrimTwice(s: string)
    ensures Trim(Trim(s)) == Trim(s)
  {
  }

  lemma TrimKeepsNoSlash(s: string)
    requires '/' !in s
    ensures '/' !in Trim(s)
  {
    TrimStartIsSuffix(s);
    assert Trim(s) <= TrimStart(s);
  }

  lemma TrimStartIsSuffix(s: string)
    ensures forall c :: c in TrimStart(s) ==> c in s
  {
  }

  lemma ParsedHostHasNoSlash(s: string)
    requires '/' !in s
    ensures ParseTrimmedAddr(s).Some? ==> '/' !in ParseTrimmedAddr(s).value.0
  {
  }

  /** A route read from the file is one the constructors build, under the key it was read for. */
  lemma ReadValueConstructed(key: string, text: string)
    ensures var r := ReadValue(key, text); r.Some? ==> Constructed(r.value) && r.value.email == key
  {
    var value := Trim(text);
    if '/' in value {
      assert ReadValue(key, text).value == FromUrl(key, value);
    } else {
      TrimKeepsNoSlash(value);
      ParsedHostHasNoSlash(Trim(value));
    }
  }

  lemma EndpointOfParts(authority: string, h: string, digits: string)
    requires authority != [] && authority[0] == '['
    requires SplitOnce(authority[1..], BRACKET_COLON) == Some((h, digits))
    ensures EndpointOf(authority) == ("[" + h + "]", PortOr80(digits))
  {
  }

  lemma BracketInner(host: string)
    requires Bracketed(host)
    ensures "[" + host[1..|host| - 1] + "]" == host
  {
  }

  lemma EndpointOfBracketed(host: string, port: Port)
    requires Bracketed(host)
    ensures EndpointOf(HostPort(host, port)) == (host, port)
  {
    PortRoundTrip(port);
    BracketedParse(host, port);
    BracketInner(host);
    assert HostPort(host, port)[0] == '[';
    hide EndpointOf;
    EndpointOfParts(HostPort(host, port), host[1..|host| - 1], PrintNat(port));
  }

  lemma EndpointOfOpen(authority: string, host: string, digits: string)
    requires authority != [] && authority[0] != '[' && authority == host + [':'] + digits && ':' !in digits
    ensures EndpointOf(authority) == (host, PortOr80(digits))
  {
    RSplitOnceAt(authority, ':', host, digits);
  }

  /** An authority printed from host and port is read back as that host and port. */
  lemma EndpointOfHostPort(host: string, port: Port)
    requires host != [] && host[0] == '[' ==> Bracketed(host)
    ensures EndpointOf(HostPort(host, port)) == (host, port)
  {
    if host != [] && host[0] == '[' {
      EndpointOfBracketed(host, port);
    } else {
      PortRoundTrip(port);
      assert HostPort(host, port)[0] != '[';
      EndpointOfOpen(HostPort(host, port), host, PrintNat(port));
    }
  }

  lemma AuthorityEndsAtSlash(authority: string, path: string)
    requires '/' !in authority && (path == [] || path[0] == '/')
    ensures AuthorityOf(authority + path) == authority
  {
    var s := authority + path;
    if path != [] { assert s[|authority|] == '/'; }
    assert IndexOf(s, '/') == |authority|;
  }

  /** A trimmed `http://host:port/path` is taken apart into that host and port. */
  lemma FullUrlRoute(email: string, host: string, port: Port, path: string)
    requires '/' !in host && (path == [] || path[0] == '/')
    requires host != [] && host[0] == '[' ==> Bracketed(host)
    requires Trimmed(HTTP + (HostPort(host, port) + path))
    ensures FromUrl(email, HTTP + (HostPort(host, port) + path))
            == ProfileRoute(email, host, port, HTTP + (HostPort(host, port) + path))
  {
    var rest := HostPort(host, port) + path;
    HostPortShape(host, port);
    SchemeUnsplit(rest);
    AuthorityEndsAtSlash(HostPort(host, port), path);
    EndpointOfHostPort(host, port);
    RouteToTarget(email, HTTP, rest);
  }

  lemma DefaultSuffixTail(s: string)
    ensures EndsWith(s + DEFAULT_PATH, DEFAULT_PATH)
    ensures s != [] && !IsWhite(s[0]) ==> Trimmed(s + DEFAULT_PATH)
  {
    var t := s + DEFAULT_PATH;
    assert t[|t| - 1] == 'd';
  }

  lemma ShortenedReadsBack(r: ProfileRoute)
    requires Shortened(r) && '/' !in r.host && HostSurvives(r.host)
    ensures ReadValue(r.email, WrittenValue(r)) == Some(NewRoute(r.email, r.host, r.port))
  {
    NewIsShortened(r.email, r.host, r.port);
    ShortFormReloads(NewRoute(r.email, r.host, r.port));
  }

  /** A path put between two texts leaves the first one a prefix, and is not nothing. */
  lemma PathBetween(front: string, path: string, end: string)
    requires path != []
    ensures front <= front + (path + end) && front + path + end == front + (path + end) != front + end
  {
    Regroup(front, path, end);
    assert |front + (path + end)| != |front + end|;
  }

  /** The route for a custom path that ends in the default suffix is one that gets shortened. */
  lemma CustomPathShortened(email: string, host: string, port: Port, path: string)
    requires '/' !in host && (host != [] && host[0] == '[' ==> Bracketed(host))
    requires path != [] && path[0] == '/'
    ensures var url := HTTP + (HostPort(host, port) + (path + DEFAULT_PATH));
            var r := ProfileRoute(email, host, port, url);
            r == FromUrl(email, url) && Shortened(r) && url != DefaultUrl(host, port)
  {
    var front := HTTP + HostPort(host, port) + path;
    Regroup(HTTP, HostPort(host, port), path + DEFAULT_PATH);
    PathBetween(HTTP + HostPort(host, port), path, DEFAULT_PATH);
    assert front[0] == 'h';
    DefaultSuffixTail(front);
    FullUrlRoute(email, host, port, path + DEFAULT_PATH);
  }

  /** A custom path that merely ends in the default suffix is lost: the entry comes back as the default URL. */
  lemma CustomPathLost(email: string, host: string, port: Port, path: string)
    requires '/' !in host && HostSurvives(host) && path != [] && path[0] == '/'
    ensures var r := FromUrl(email, HTTP + (HostPort(host, port) + (path + DEFAULT_PATH)));
            r != NewRoute(email, host, port) && ReadValue(email, WrittenValue(r)) == Some(NewRoute(email, host, port))
  {
    CustomPathShortened(email, host, port, path);
    ShortenedReadsBack(ProfileRoute(email, host, port, HTTP + (HostPort(host, port) + (path + DEFAULT_PATH))));
  }
}
