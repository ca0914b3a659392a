/** Where the HTTP client posts a target URL, read off the URL by the rules of its own parser
    (URL Standard, section URL parsing), against where the health checker probes it. */
module Posting {
  import opened Options
  import opened Text
  import opened Route
  import opened Endpoint

  // ---------- the endpoint a URL names ----------

  /** The characters that end the authority of an http URL. */
  const ENDS: set<char> := {'/', '\\', '?', '#'}

  /** The client drops control characters and spaces at the end of a URL ... */
  function WithoutEnd(s: string): string {
    if s != [] && s[|s| - 1] <= ' ' then WithoutEnd(s[..|s| - 1]) else s
  }

  /** ... and tabs and line breaks anywhere in it. */
  function WithoutBreaks(s: string): string {
    if s == [] then []
    else (if s[0] in {'\t', '\n', '\r'} then [] else [s[0]]) + WithoutBreaks(s[1..])
  }

  function UpTo(s: string, stops: set<char>): string {
    if s == [] || s[0] in stops then [] else [s[0]] + UpTo(s[1..], stops)
  }

  /** Slashes in front of the authority are skipped, however many there are. */
  function AfterSlashes(s: string): string {
    if s != [] && s[0] in {'/', '\\'} then AfterSlashes(s[1..]) else s
  }

  /** The last `@` ends the user information. */
  function AfterUser(s: string): string {
    match RSplitOnce(s, '@')
    case Some((_, host)) => host
    case None => s
  }

  function PostedAuthority(rest: string): string {
    AfterUser(UpTo(AfterSlashes(WithoutBreaks(WithoutEnd(rest))), ENDS))
  }

  function PortGiven(digits: string, default: Port): Option<Port> {
    if digits == [] then Some(default) else if AllDigits(digits) then ParsePort(digits) else None
  }

  function HostAndPort(authority: string, default: Port): Option<(string, Port)> {
    if authority == [] then None
    else if authority[0] == '[' then
      match SplitOnce(authority, "]")
      case None => None
      case Some((open, behind)) =>
        if behind == [] then Some((open + "]", default))
        else if behind[0] == ':' then WithPort(open + "]", behind[1..], default)
        else None
    else
      match SplitOnce(authority, ":")
      case None => Some((authority, default))
      case Some((host, digits)) => if host == [] then None else WithPort(host, digits, default)
  }

  function WithPort(host: string, digits: string, default: Port): Option<(string, Port)> {
    match PortGiven(digits, default)
    case None => None
    case Some(port) => Some((host, port))
  }

  /** The client's host parser, for the host as it is written: letter case, percent-encoding,
      international names and number forms of an address. None refuses the URL. */
  type HostParser = string -> Option<string>

  /** What a host parser gives: an IP literal in brackets, or a name or address without a colon,
      with no character in it that would end it. */
  predicate IsHost(host: string) {
    host != [] && HostShaped(host) && Clean(host)
  }

  ghost predicate GivesHosts(parse: HostParser) {
    forall h :: parse(h).Some? ==> IsHost(parse(h).value)
  }

  /** Host and port that `scheme` followed by `rest` is posted to; none when the client refuses it. */
  function PostedTo(scheme: string, rest: string, parse: HostParser): Option<(string, Port)> {
    match HostAndPort(PostedAuthority(rest), if scheme == HTTPS then 443 else 80)
    case None => None
    case Some((written, port)) =>
      match parse(written)
      case None => None
      case Some(host) => Some((host, port))
  }

  // ---------- cutting the authority out of the URL ----------

  /** Characters that the client drops, or that end the authority or the user information for it,
      but not for `route_target_key`. */
  predicate Overlooked(c: char) {
    c <= ' ' || c in {'\\', '?', '#', '@'}
  }

  predicate Clean(s: string) {
    forall c :: c in s ==> !Overlooked(c)
  }

  lemma {:induction false} UpToEnd(left: string, right: string, stops: set<char>)
    requires forall c :: c in left ==> c !in stops
    requires right != [] ==> right[0] in stops
    ensures UpTo(left + right, stops) == left
  {
    if left == [] {
      assert left + right == right;
    } else {
      assert (left + right)[1..] == left[1..] + right;
      assert left[0] in left;
      UpToEnd(left[1..], right, stops);
    }
  }

  lemma {:induction false} WithoutEndKeeps(p: string, s: string)
    requires p <= s && p != [] && p[|p| - 1] > ' '
    ensures p <= WithoutEnd(s)
  {
    if s != p && s[|s| - 1] <= ' ' { WithoutEndKeeps(p, s[..|s| - 1]); }
  }

  lemma {:induction false} WithoutBreaksKeeps(p: string, t: string)
    requires forall c :: c in p ==> c > ' '
    ensures WithoutBreaks(p + t) == p + WithoutBreaks(t)
  {
    var s := p + t;
    if p == [] {
      assert s == t;
    } else {
      assert s[0] == p[0] && s[1..] == p[1..] + t && p[0] in p;
      assert forall c :: c in p[1..] ==> c in p;
      WithoutBreaksKeeps(p[1..], t);
      assert [p[0]] + (p[1..] + WithoutBreaks(t)) == p + WithoutBreaks(t);
    }
  }

  /** A clean authority and the slash behind it reach the client as they are. */
  lemma CleanReaches(a: string, rest: string)
    requires a != [] && Clean(a) && a <= rest && (rest == a || rest[|a|] == '/')
    ensures a <= WithoutBreaks(WithoutEnd(rest))
    ensures var s := WithoutBreaks(WithoutEnd(rest)); s == a || s[|a|] == '/'
  {
    var p := if rest == a then a else a + "/";
    assert rest != a ==> rest[..|a| + 1] == a + "/";
    assert a[|a| - 1] in a;
    WithoutEndKeeps(p, rest);
    var s := WithoutEnd(rest);
    var t := s[|p|..];
    assert s == p + t;
    WithoutBreaksKeeps(p, t);
    assert rest == a ==> WithoutEnd(rest) == a && t == [];
  }

  /** With none of the overlooked characters, and not empty, both cuts give the same authority. */
  lemma CleanCut(rest: string)
    requires AuthorityOf(rest) != [] && Clean(AuthorityOf(rest))
    ensures PostedAuthority(rest) == AuthorityOf(rest)
  {
    var a := AuthorityOf(rest);
    CleanReaches(a, rest);
    var s := WithoutBreaks(WithoutEnd(rest));
    hide WithoutBreaks, WithoutEnd;
    CleanStart(a, s);
  }

  lemma CleanStart(a: string, s: string)
    requires a != [] && Clean(a) && '/' !in a && a <= s && (s == a || s[|a|] in ENDS)
    ensures AfterUser(UpTo(AfterSlashes(s), ENDS)) == a
  {
    assert a[0] in a && a[0] == s[0];
    UpToEnd(a, s[|a|..], ENDS);
    assert a + s[|a|..] == s;
  }

  // ---------- the key of a clean authority ----------

  lemma FirstBracket(s: string, open: string, behind: string)
    requires SplitOnce(s, "]") == Some((open, behind))
    ensures s == open + ("]" + behind) && ']' !in open
  {
    forall i | 0 <= i < |open| ensures open[i] != ']' {
      CharAt(s, ']', i);
      assert s[i] == open[i];
    }
  }

  /** An IP literal: the port written behind it is kept, but a colon alone ends up in the host. */
  lemma KeyOfLiteral(inner: string, digits: string, default: Port)
    requires ']' !in inner && PortGiven(digits, default).Some?
    ensures KeyFor("[" + inner + "]:" + digits, default)
            == if digits == [] then HostPort("[" + inner + "]:]", 443)
               else HostPort("[" + inner + "]", PortGiven(digits, default).value)
  {
    var a := "[" + inner + "]:" + digits;
    assert a[1..] == inner + BRACKET_COLON + digits;
    forall j: nat | j < |inner| ensures !OccursAt(a[1..], BRACKET_COLON, j) {
      BracketColonAt(a[1..], j);
      assert a[1..][j] == inner[j];
    }
    SplitOnceAt(a[1..], BRACKET_COLON, inner, digits);
    if digits != [] {
      KeyOfParts(a, inner, digits, PortGiven(digits, default).value, default);
    } else {
      assert a[1..][|inner| + 1] == ':';
      assert "[" + a[1..] + "]" == "[" + inner + "]:]";
    }
  }

  lemma KeyOfBareLiteral(inner: string, default: Port)
    requires ']' !in inner && '/' !in inner
    ensures KeyFor("[" + inner + "]", default) == HostPort("[" + inner + "]", 443)
  {
    var host := "[" + inner + "]";
    assert host[1..|host| - 1] == inner;
    forall j: nat ensures !OccursAt(host, BRACKET_COLON, j) { BracketColonAt(host, j); }
    assert Bracketed(host) && HostShaped(host);
    hide KeyFor, HostShaped, Bracketed, HostPort;
    KeyWithoutPort(host, default);
  }

  lemma KeyOfName(host: string, digits: string, default: Port)
    requires host != [] && host[0] != '[' && PortGiven(digits, default).Some?
    ensures KeyFor(host + ":" + digits, default)
            == if digits == [] then HostPort(host + ":", default)
               else HostPort(host, PortGiven(digits, default).value)
  {
    var a := host + ":" + digits;
    assert a[0] != '[';
    RSplitOnceAt(a, ':', host, digits);
    assert digits == [] ==> a == host + ":";
  }

  predicate OpensLiteral(a: string) {
    a != [] && a[0] == '['
  }

  lemma LiteralParts(a: string) returns (inner: string, behind: string)
    requires OpensLiteral(a) && SplitOnce(a, "]").Some?
    ensures SplitOnce(a, "]") == Some(("[" + inner, behind))
    ensures a == "[" + inner + "]" + behind && ']' !in inner
  {
    var (open, rest) := SplitOnce(a, "]").value;
    FirstBracket(a, open, rest);
    assert open != [] && open[0] == '[';
    inner, behind := open[1..], rest;
    assert open == "[" + inner;
  }

  /** The key of an authority is the endpoint it names, unless a colon ends it or it is an IP
      literal alone whose default port is not 443. */
  predicate KeyFits(a: string, default: Port) {
    a != [] && Last(a) != ':' && (a[0] == '[' && Last(a) == ']' ==> default == 443)
  }

  function Last(a: string): char
    requires a != []
  {
    a[|a| - 1]
  }

  /** An IP literal that the client accepts is followed by nothing, or by a colon and digits. */
  lemma LiteralAccepted(a: string, default: Port) returns (inner: string, behind: string)
    requires OpensLiteral(a) && HostAndPort(a, default).Some?
    ensures a == "[" + inner + "]" + behind && ']' !in inner
    ensures behind == [] || (behind[0] == ':' && AllDigits(behind[1..]) && PortGiven(behind[1..], default).Some?)
    ensures HostAndPort(a, default).value
            == ("[" + inner + "]", if behind == [] then default else PortGiven(behind[1..], default).value)
  {
    inner, behind := LiteralParts(a);
    hide ParsePort;
    assert "[" + inner == SplitOnce(a, "]").value.0;
  }

  lemma LiteralEnd(inner: string, behind: string)
    requires behind == [] || (behind[0] == ':' && AllDigits(behind[1..]))
    ensures var a := "[" + inner + "]" + behind;
            Last(a) == if behind == [] then ']' else if behind[1..] == [] then ':' else Last(behind[1..])
  {
  }

  /** The key names `host` at the port that an accepted authority gives. */
  predicate KeyIs(a: string, default: Port, host: string)
    requires HostAndPort(a, default).Some?
  {
    KeyFor(a, default) == HostPort(host, HostAndPort(a, default).value.1)
  }

  lemma BareLiteralFits(inner: string, default: Port, host: string)
    requires ']' !in inner && '/' !in inner && default in {80, 443}
    ensures KeyFor("[" + inner + "]", default) == HostPort(host, default)
            <==> KeyFits("[" + inner + "]", default) && host == "[" + inner + "]"
  {
    var a := "[" + inner + "]";
    KeyOfBareLiteral(inner, default);
    assert a[0] == '[' && Last(a) == ']';
    hide HostPort, KeyFor;
    SameParts(a, 443, host, default);
  }

  lemma OpenColonMisfits(inner: string, default: Port, host: string)
    requires ']' !in inner && IsHost(host)
    ensures KeyFor("[" + inner + "]:", default) != HostPort(host, default)
    ensures !KeyFits("[" + inner + "]:", default)
  {
    assert "[" + inner + "]:" + [] == "[" + inner + "]:";
    KeyOfLiteral(inner, [], default);
    NotAHost(inner);
    hide HostPort, KeyFor, IsHost;
    SameParts("[" + inner + "]:]", 443, host, default);
  }

  lemma PortLiteralFits(inner: string, digits: string, default: Port, host: string)
    requires ']' !in inner && digits != [] && AllDigits(digits) && PortGiven(digits, default).Some?
    ensures KeyFor("[" + inner + "]:" + digits, default) == HostPort(host, PortGiven(digits, default).value)
            <==> host == "[" + inner + "]"
    ensures KeyFits("[" + inner + "]:" + digits, default)
  {
    var a := "[" + inner + "]:" + digits;
    KeyOfLiteral(inner, digits, default);
    assert Last(a) == Last(digits);
    hide HostPort, KeyFor, PortGiven;
    SameParts("[" + inner + "]", PortGiven(digits, default).value, host, PortGiven(digits, default).value);
  }

  lemma LiteralFits(a: string, inner: string, behind: string, default: Port, port: Port, host: string)
    requires a == "[" + inner + "]" + behind && ']' !in inner && '/' !in inner && default in {80, 443} && IsHost(host)
    requires if behind == [] then port == default
             else behind[0] == ':' && AllDigits(behind[1..]) && PortGiven(behind[1..], default) == Some(port)
    ensures KeyFor(a, default) == HostPort(host, port) <==> KeyFits(a, default) && host == "[" + inner + "]"
  {
    hide KeyFor, HostPort, IsHost, KeyFits;
    if behind == [] {
      assert a == "[" + inner + "]";
      BareLiteralFits(inner, default, host);
    } else if behind[1..] == [] {
      assert a == "[" + inner + "]:";
      OpenColonMisfits(inner, default, host);
    } else {
      assert a == "[" + inner + "]:" + behind[1..];
      hide PortGiven;
      PortLiteralFits(inner, behind[1..], default, host);
    }
  }

  lemma LiteralKeyFits(a: string, default: Port, host: string)
    requires OpensLiteral(a) && '/' !in a && default in {80, 443} && HostAndPort(a, default).Some? && IsHost(host)
    ensures KeyIs(a, default, host) <==> KeyFits(a, default) && host == HostAndPort(a, default).value.0
  {
    var inner, behind := LiteralAccepted(a, default);
    var port := HostAndPort(a, default).value.1;
    assert '/' !in inner by { assert a[1..][..|inner|] == inner; }
    hide HostAndPort, KeyFor, HostPort, IsHost, KeyFits, OpensLiteral, PortGiven;
    LiteralFits(a, inner, behind, default, port, host);
  }

  lemma NotAHost(inner: string)
    ensures !IsHost("[" + inner + "]:]")
  {
    var host := "[" + inner + "]:]";
    assert host[1..|host| - 1][|inner|] == ']' && host[|inner| + 2] == ':';
  }

  lemma NameKeyFits(a: string, default: Port, host: string)
    requires !OpensLiteral(a) && HostAndPort(a, default).Some? && IsHost(host)
    ensures KeyIs(a, default, host) <==> KeyFits(a, default) && host == HostAndPort(a, default).value.0
  {
    var (written, port) := HostAndPort(a, default).value;
    SameParts(written, port, host, port);
    match SplitOnce(a, ":")
    case None =>
      NoColon(a);
    case Some((left, digits)) =>
      hide HostPort;
      assert left[0] == a[0];
      assert Last(a) == if digits == [] then ':' else Last(digits);
      KeyOfName(left, digits, default);
      SameParts(left + ":", port, host, port);
      assert (left + ":")[|left|] == ':';
  }

  lemma NoColon(a: string)
    requires SplitOnce(a, ":") == None
    ensures ':' !in a
  {
    forall i | 0 <= i < |a| ensures a[i] != ':' { CharAt(a, ':', i); }
  }

  // ---------- the key of any authority ----------

  lemma TrimKeeps(b: string, c: char)
    requires c in b && c != ']'
    ensures c in TrimEndMatches(b, ']')
  {
    var i :| 0 <= i < |b| && b[i] == c;
    assert i < |TrimEndMatches(b, ']')|;
  }

  lemma SplitKeeps(left: string, sep: string, digits: string, c: char)
    requires c in left + sep + digits && Overlooked(c)
    requires sep in {BRACKET_COLON, ":"} && ParsePort(digits).Some?
    ensures c in left
  {
    var s := left + sep + digits;
    assert c !in sep && c !in digits;
    var i :| 0 <= i < |s| && s[i] == c;
    assert i < |left|;
  }

  /** The key keeps every character of the authority but its brackets, colons and port. */
  lemma KeyKeeps(a: string, default: Port, c: char)
    requires c in a && Overlooked(c)
    ensures c in KeyFor(a, default)
  {
    if OpensLiteral(a) { LiteralKeyKeeps(a, default, c); } else { NameKeyKeeps(a, default, c); }
  }

  lemma LiteralKeyKeeps(a: string, default: Port, c: char)
    requires OpensLiteral(a) && c in a && Overlooked(c)
    ensures c in KeyFor(a, default)
  {
    var b := a[1..];
    assert a == [a[0]] + b;
    TrimKeeps(b, c);
    match SplitOnce(b, BRACKET_COLON)
    case None =>
    case Some((h, digits)) => if ParsePort(digits).Some? { SplitKeeps(h, BRACKET_COLON, digits, c); }
  }

  lemma NameKeyKeeps(a: string, default: Port, c: char)
    requires !OpensLiteral(a) && c in a && Overlooked(c)
    ensures c in KeyFor(a, default)
  {
    match RSplitOnce(a, ':')
    case None =>
    case Some((h, digits)) => if ParsePort(digits).Some? { SplitKeeps(h, ":", digits, c); }
  }

  lemma CleanKey(host: string, port: Port)
    requires Clean(host)
    ensures Clean(HostPort(host, port))
  {
    assert HostPort(host, port) == host + (":" + PrintNat(port));
    forall c | c in ":" + PrintNat(port) ensures c == ':' || IsDigit(c) {}
  }

  /** The text up to the first slash is what the client reads as host and port, the host is written
      as the client normalises it, and the key gets the port right. */
  predicate KeyedRight(scheme: string, a: string, parse: HostParser) {
    var default := if scheme == HTTPS then 443 else 80;
    && Clean(a) && KeyFits(a, default)
    && HostAndPort(a, default).Some? && WrittenAsParsed(HostAndPort(a, default).value.0, parse)
  }

  predicate WrittenAsParsed(host: string, parse: HostParser) {
    parse(host) == Some(host)
  }

  /** For every http or https URL that the client accepts, `route_target_key` names the endpoint it
      is posted to exactly when the text up to the first slash is not empty, holds none of the
      characters the key overlooks, does not end in a colon, is not an IP literal without a port
      over http, and its host is written in the client's normal form. */
  lemma KeyIsEndpoint(scheme: string, rest: string, parse: HostParser)
    requires scheme in {HTTP, HTTPS} && GivesHosts(parse) && PostedTo(scheme, rest, parse).Some?
    ensures var (host, port) := PostedTo(scheme, rest, parse).value;
            TargetKey(scheme + rest) == HostPort(host, port) <==> KeyedRight(scheme, AuthorityOf(rest), parse)
  {
    var default: Port := if scheme == HTTPS then 443 else 80;
    var a := AuthorityOf(rest);
    var (host, port) := PostedTo(scheme, rest, parse).value;
    TargetKeyOf(scheme, rest);
    assert IsHost(host) && '/' !in a;
    hide KeyFor, HostAndPort, HostPort, TargetKey, PostedAuthority, AuthorityOf, Clean, KeyFits, IsHost, GivesHosts;
    if !Clean(a) {
      DirtyKey(a, default, host, port);
    } else if a == [] {
      NoHostKey(default, host, port);
    } else {
      CleanCut(rest);
      CleanKeyFits(a, default, host);
    }
  }

  lemma DirtyKey(a: string, default: Port, host: string, port: Port)
    requires !Clean(a) && IsHost(host)
    ensures KeyFor(a, default) != HostPort(host, port)
  {
    var c :| c in a && Overlooked(c);
    KeyKeeps(a, default, c);
    CleanKey(host, port);
  }

  lemma NoHostKey(default: Port, host: string, port: Port)
    requires IsHost(host)
    ensures KeyFor([], default) != HostPort(host, port) && !KeyFits([], default)
  {
    assert KeyFor([], default)[0] == ':' && HostPort(host, port)[0] == host[0];
  }

  lemma CleanKeyFits(a: string, default: Port, host: string)
    requires '/' !in a && default in {80, 443} && HostAndPort(a, default).Some? && IsHost(host)
    ensures KeyIs(a, default, host) <==> KeyFits(a, default) && host == HostAndPort(a, default).value.0
  {
    hide HostAndPort, IsHost, KeyIs;
    if OpensLiteral(a) { LiteralKeyFits(a, default, host); } else { NameKeyFits(a, default, host); }
  }

  lemma TargetKeyOf(scheme: string, rest: string)
    requires scheme in {HTTP, HTTPS}
    ensures TargetKey(scheme + rest) == KeyFor(AuthorityOf(rest), if scheme == HTTPS then 443 else 80)
  {
    SchemeUnsplit(rest);
  }

  // ---------- probing ----------

  /** Whatever authority it was made from, a key that is probed at all says so itself. */
  lemma ProbedKey(a: string, default: Port)
    ensures ProbeTarget(KeyFor(a, default)).Some? ==>
              var (host, port) := ProbeTarget(KeyFor(a, default)).value;
              KeyFor(a, default) == HostPort(host, port) && ':' !in host
  {
    var host, port := KeyParts(a, default);
    ProbedIffNoColon(host, port);
  }

  lemma KeyParts(a: string, default: Port) returns (host: string, port: Port)
    ensures KeyFor(a, default) == HostPort(host, port)
  {
    if OpensLiteral(a) {
      var trimmed := "[" + TrimEndMatches(a[1..], ']') + "]";
      match SplitOnce(a[1..], BRACKET_COLON)
      case None => host, port := trimmed, 443;
      case Some((h, digits)) =>
        match ParsePort(digits)
        case None => host, port := trimmed, 443;
        case Some(p) => host, port := "[" + h + "]", p;
    } else {
      match RSplitOnce(a, ':')
      case None => host, port := a, default;
      case Some((h, digits)) =>
        match ParsePort(digits)
        case None => host, port := a, default;
        case Some(p) => host, port := h, p;
    }
  }

  /** For every URL the client accepts: the route is probed where its mail is posted exactly when
      its key is that endpoint and the posted host has no colon. */
  lemma ProbedWherePosted(scheme: string, rest: string, parse: HostParser)
    requires scheme in {HTTP, HTTPS} && GivesHosts(parse) && PostedTo(scheme, rest, parse).Some?
    ensures ProbeTarget(TargetKey(scheme + rest)) == PostedTo(scheme, rest, parse)
            <==> KeyedRight(scheme, AuthorityOf(rest), parse) && ':' !in PostedTo(scheme, rest, parse).value.0
  {
    var default: Port := if scheme == HTTPS then 443 else 80;
    var (host, port) := PostedTo(scheme, rest, parse).value;
    KeyIsEndpoint(scheme, rest, parse);
    TargetKeyOf(scheme, rest);
    ProbedKey(AuthorityOf(rest), default);
    ProbedIffNoColon(host, port);
  }

  lemma QueryReaches()
    ensures WithoutBreaks(WithoutEnd("h?x/p")) == "h?x/p"
  {
    var rest := "h?x/p";
    WithoutBreaksKeeps(rest, []);
    assert rest + [] == rest;
  }

  lemma QueryCut()
    ensures PostedAuthority("h?x/p") == "h" && AuthorityOf("h?x/p") == "h?x"
  {
    var rest := "h?x/p";
    QueryReaches();
    assert rest == "h?x" + "/p";
    hide WithoutEnd, WithoutBreaks, AfterSlashes, AfterUser, UpTo;
    CleanStart("h", rest);
    AuthorityEndsAtSlash("h?x", "/p");
  }

  lemma NoPortInH()
    ensures HostAndPort("h", 80) == Some(("h", 80))
  {
    forall j: nat ensures !OccursAt("h", ":", j) { CharAt("h", ':', j); }
  }

  lemma KeyOfPlainName(a: string, default: Port)
    requires !OpensLiteral(a) && ':' !in a
    ensures KeyFor(a, default) == HostPort(a, default)
  {
  }

  /** A live endpoint probed under another name: mail goes to `h`, the checker asks for `h?x`. */
  lemma QueryProbedElsewhere(parse: HostParser)
    requires parse("h") == Some("h")
    ensures PostedTo(HTTP, "h?x/p", parse) == Some(("h", 80))
    ensures ProbeTarget(TargetKey(HTTP + "h?x/p")) == Some(("h?x", 80))
  {
    assert HTTP != HTTPS by { assert |HTTP| != |HTTPS|; }
    assert ':' !in "h?x";
    QueryCut();
    NoPortInH();
    KeyOfPlainName("h?x", 80);
    hide PostedAuthority, AuthorityOf, TargetKey, KeyFor, HostAndPort, HostPort, ProbeTarget;
    TargetKeyOf(HTTP, "h?x/p");
    ProbedIffNoColon("h?x", 80);
  }

  lemma EndsInDigit(host: string, port: Port)
    ensures IsDigit(Last(HostPort(host, port)))
  {
    assert Last(HostPort(host, port)) == Last(PrintNat(port));
  }

  lemma LiteralIsHost(host: string, port: Port, literal: string, behind: string)
    requires HostPort(host, port) == literal + behind && literal != [] && Last(literal) == ']'
    requires behind == [] || (behind[0] == ':' && AllDigits(behind[1..]))
    ensures literal == host
  {
    EndsInDigit(host, port);
    assert behind == [] ==> literal + behind == literal;
    assert literal + behind == literal + ":" + behind[1..];
    hide HostPort;
    SameHost(host, port, literal, behind[1..]);
  }

  lemma NewLiteralPosted(host: string, port: Port)
    requires OpensLiteral(HostPort(host, port)) && HostAndPort(HostPort(host, port), 80).Some?
    ensures HostAndPort(HostPort(host, port), 80).value.0 == host
  {
    var inner, behind := LiteralAccepted(HostPort(host, port), 80);
    hide HostAndPort, HostPort, PortGiven, OpensLiteral;
    LiteralIsHost(host, port, "[" + inner + "]", behind);
  }

  lemma NewNamePosted(host: string, port: Port)
    requires !OpensLiteral(HostPort(host, port)) && HostAndPort(HostPort(host, port), 80).Some?
    ensures HostAndPort(HostPort(host, port), 80).value.0 == host
  {
    var a := HostPort(host, port);
    CharAt(a, ':', |host|);
    var (left, digits) := SplitOnce(a, ":").value;
    hide HostPort, SplitOnce;
    SameHost(host, port, left, digits);
  }

  lemma NewAuthority(host: string, port: Port)
    ensures Clean(HostPort(host, port)) <==> Clean(host)
    ensures KeyFits(HostPort(host, port), 80)
  {
    assert HostPort(host, port) == host + (":" + PrintNat(port));
    EndsInDigit(host, port);
    if Clean(host) { CleanKey(host, port); }
  }

  lemma NewTarget(email: string, host: string, port: Port)
    requires '/' !in host
    ensures NewRoute(email, host, port).targetUrl == HTTP + (HostPort(host, port) + DEFAULT_PATH)
    ensures AuthorityOf(HostPort(host, port) + DEFAULT_PATH) == HostPort(host, port)
  {
    HostPortShape(host, port);
    AuthorityEndsAtSlash(HostPort(host, port), DEFAULT_PATH);
    Regroup(HTTP, HostPort(host, port), DEFAULT_PATH);
  }

  /** A route registered by host and port is probed where its mail is posted exactly when the host
      holds no overlooked character and no colon, and is written in the client's normal form. */
  lemma NewRouteProbedWherePosted(email: string, host: string, port: Port, parse: HostParser)
    requires '/' !in host && GivesHosts(parse)
    requires PostedTo(HTTP, HostPort(host, port) + DEFAULT_PATH, parse).Some?
    ensures ProbeTarget(TargetKey(NewRoute(email, host, port).targetUrl))
            == PostedTo(HTTP, HostPort(host, port) + DEFAULT_PATH, parse)
            <==> Clean(host) && ':' !in host && WrittenAsParsed(host, parse)
  {
    var a, rest := HostPort(host, port), HostPort(host, port) + DEFAULT_PATH;
    NewTarget(email, host, port);
    hide KeyFor, HostAndPort, ProbeTarget, TargetKey, PostedAuthority, AuthorityOf, HostPort, NewRoute;
    ProbedWherePosted(HTTP, rest, parse);
    NewAuthority(host, port);
    if Clean(a) {
      CleanCut(rest);
      if OpensLiteral(a) { NewLiteralPosted(host, port); } else { NewNamePosted(host, port); }
    }
  }
}
