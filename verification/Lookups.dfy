/** What the operations on the route table mean for the emails that are looked up in it, in terms of
    the text that was registered or written in the file. */
module Lookups {
  import opened Options
  import opened Text
  import opened KeyOrder
  import opened Route
  import opened RoutesFile
  import opened RouteTable
  import opened Ranks

  // ---------- registering ----------

  /** Where the mail of an email goes that is registered with this text and port: a text with a slash
      is the URL itself, `http` by default; any other is a host, with the default path. */
  function Destination(hostOrUrl: string, port: Port): string {
    if '/' in hostOrUrl then
      var url := Trim(hostOrUrl);
      if "http://" <= url || "https://" <= url then url else "http://" + url
    else DefaultDestination(hostOrUrl, port)
  }

  function DefaultDestination(host: string, port: Port): string {
    "http://" + host + ":" + PrintNat(port) + "/webhooks/amail-inbound"
  }

  /** The email has a route of its own, which sends its mail to the registered destination. */
  predicate RoutedBy(t: Table, email: string, hostOrUrl: string, port: Port) {
    && Answer(t, email).Some? && email in t.routes
    && var r := Answer(t, email).value;
       && r.email == email && r.targetUrl == Destination(hostOrUrl, port)
       && ('/' !in hostOrUrl ==> r.host == hostOrUrl && r.port == port)
  }

  lemma RegisteredGoes(email: string, hostOrUrl: string, port: Port)
    ensures var r := RegisteredRoute(email, hostOrUrl, port);
            r.email == email && r.targetUrl == Destination(hostOrUrl, port)
    ensures var r := RegisteredRoute(email, hostOrUrl, port);
            '/' !in hostOrUrl ==> r.host == hostOrUrl && r.port == port
  {
    if '/' in hostOrUrl { TargetIsTrimmedUrl(email, hostOrUrl); } else { DefaultIs(hostOrUrl, port); }
  }

  lemma DefaultIs(host: string, port: Port)
    ensures DefaultUrl(host, port) == DefaultDestination(host, port)
  {
    Regroup(HTTP, host, ":");
    Regroup(HTTP, host + ":", PrintNat(port));
  }

  /** After a registration the email is routed by it; every other answer and the patterns stay. */
  lemma UpdateAnswers(t: Table, email: string, hostOrUrl: string, port: Port)
    ensures var after := Changed(t, Update(email, hostOrUrl, port));
            && RoutedBy(after, email, hostOrUrl, port)
            && after.patterns == t.patterns
            && forall e :: e != email ==> Answer(after, e) == Answer(t, e)
  {
    RegisteredGoes(email, hostOrUrl, port);
    hide RegisteredRoute, Destination;
  }

  /** After a removal the email has only the pattern that matches it, if one does. */
  lemma RemoveAnswers(t: Table, email: string)
    ensures var after := Changed(t, Remove(email));
            && email !in after.routes && after.patterns == t.patterns
            && (Answer(after, email).Some? <==> exists i :: 0 <= i < |t.patterns| && t.patterns[i].re(email))
            && forall e :: e != email ==> Answer(after, e) == Answer(t, e)
  {
  }

  function AfterAll(t: Table, ops: seq<Operation>): Table {
    if ops == [] then t else MemoStep(AfterAll(t, ops[..|ops| - 1]), ops[|ops| - 1])
  }

  /** Nobody registers or removes the email, and no file is loaded. */
  predicate LeavesAlone(ops: seq<Operation>, email: string) {
    forall i :: 0 <= i < |ops| ==>
      match ops[i]
      case Lookup(_) => true
      case Update(e, _, _) => e != email
      case Remove(e) => e != email
      case Load(_, _, _) => false
  }

  /** A registration holds through every run of lookups and operations on other emails. */
  lemma {:induction false} RegistrationHolds(t: Table, email: string, hostOrUrl: string, port: Port,
                                             ops: seq<Operation>)
    requires LeavesAlone(ops, email)
    ensures RoutedBy(AfterAll(Changed(t, Update(email, hostOrUrl, port)), ops), email, hostOrUrl, port)
  {
    if ops == [] {
      UpdateAnswers(t, email, hostOrUrl, port);
    } else {
      var front, last := ops[..|ops| - 1], ops[|ops| - 1];
      RegistrationHolds(t, email, hostOrUrl, port, front);
      var before := AfterAll(Changed(t, Update(email, hostOrUrl, port)), front);
      hide Destination, RegisteredRoute;
      if last.Lookup? { LookupKeepsAnswers(before, last.email, email); }
    }
  }

  // ---------- loading ----------

  /** A key is a pattern when it holds one of these characters. */
  predicate HasRegexChar(key: string) {
    exists i :: 0 <= i < |key| && key[i] in {'*', '+', '?', '[', ']', '(', ')', '^', '$', '|', '\\'}
  }

  lemma RegexChars(c: char)
    ensures IsRegexChar(c) <==> c in {'*', '+', '?', '[', ']', '(', ')', '^', '$', '|', '\\'}
  {
    var s := "*+?[]()^$|\\";
    assert s[0] == '*' && s[1] == '+' && s[2] == '?' && s[3] == '[' && s[4] == ']' && s[5] == '(';
    assert s[6] == ')' && s[7] == '^' && s[8] == '$' && s[9] == '|' && s[10] == '\\';
  }

  lemma PatternKeys(key: string)
    ensures IsRegexPattern(key) <==> HasRegexChar(key)
  {
    hide IsRegexChar;
    forall c | c in key
      ensures IsRegexChar(c) <==> c in {'*', '+', '?', '[', ']', '(', ')', '^', '$', '|', '\\'}
    {
      RegexChars(c);
    }
    if HasRegexChar(key) {
      var i :| 0 <= i < |key| && key[i] in {'*', '+', '?', '[', ']', '(', ')', '^', '$', '|', '\\'};
      assert key[i] in key;
    }
  }

  /** The file has this key, it is a pattern, and it compiles. */
  predicate LoadsPattern(key: string, overrides: map<string, ProfileRoute>, compile: Compiler) {
    key in overrides && HasRegexChar(key) && compile(key).Some?
  }

  ghost predicate IsPatternFor(p: Pattern, key: string, overrides: map<string, ProfileRoute>, compile: Compiler) {
    && LoadsPattern(key, overrides, compile)
    && p.key == key && p.re == compile(key).value && p.host == overrides[key].host && p.port == overrides[key].port
  }

  function PatternFlags(order: seq<string>, overrides: map<string, ProfileRoute>, compile: Compiler): seq<bool> {
    seq(|order|, i requires 0 <= i < |order| => LoadsPattern(order[i], overrides, compile))
  }

  /** The loaded patterns are, in iteration order, one for each key that is a pattern and compiles,
      with that key's matcher and the host and port its value was read as; there are no others. */
  lemma {:induction false} PatternsLoaded(order: seq<string>, overrides: map<string, ProfileRoute>, compile: Compiler)
    ensures Keeps(PatternsIn(order, overrides, compile), order, PatternFlags(order, overrides, compile),
                  (key: string, p: Pattern) => IsPatternFor(p, key, overrides, compile))
  {
    var fits := (key: string, p: Pattern) => IsPatternFor(p, key, overrides, compile);
    if order == [] {
      KeepsNothing(fits);
      assert PatternFlags(order, overrides, compile) == [];
    } else {
      var front, last := order[..|order| - 1], order[|order| - 1];
      PatternsLoaded(front, overrides, compile);
      PatternKeys(last);
      PatternsAppend(front, last, overrides, compile);
      assert front + [last] == order && PatternsIn([last][1..], overrides, compile) == [];
      var flag := LoadsPattern(last, overrides, compile);
      assert PatternFlags(order, overrides, compile) == PatternFlags(front, overrides, compile) + [flag];
      KeepsSnoc(PatternsIn(front, overrides, compile), front, PatternFlags(front, overrides, compile), fits,
                PatternsIn([last], overrides, compile), last, flag);
    }
  }

  /** Key `i` of the order is the first that loads a pattern matching the email. */
  predicate FirstHit(order: seq<string>, overrides: map<string, ProfileRoute>, compile: Compiler, email: string, i: nat)
  {
    && i < |order| && Hits(order[i], overrides, compile, email)
    && forall j :: 0 <= j < i ==> !Hits(order[j], overrides, compile, email)
  }

  predicate Hits(key: string, overrides: map<string, ProfileRoute>, compile: Compiler, email: string) {
    LoadsPattern(key, overrides, compile) && compile(key).value(email)
  }

  lemma HeadHits(order: seq<string>, overrides: map<string, ProfileRoute>, compile: Compiler, email: string)
    requires order != [] && Hits(order[0], overrides, compile, email)
    ensures var hit := FirstMatch(PatternsIn(order, overrides, compile), email);
            hit.Some? && hit.value.host == overrides[order[0]].host && hit.value.port == overrides[order[0]].port
  {
    PatternKeys(order[0]);
  }

  lemma HeadMisses(order: seq<string>, overrides: map<string, ProfileRoute>, compile: Compiler, email: string)
    requires order != [] && !Hits(order[0], overrides, compile, email)
    ensures FirstMatch(PatternsIn(order, overrides, compile), email)
            == FirstMatch(PatternsIn(order[1..], overrides, compile), email)
  {
    var all, rest := PatternsIn(order, overrides, compile), PatternsIn(order[1..], overrides, compile);
    PatternKeys(order[0]);
    if LoadsPattern(order[0], overrides, compile) { assert all[1..] == rest; } else { assert all == rest; }
  }

  /** The email is answered by the first key that matches it. */
  predicate HitAt(order: seq<string>, overrides: map<string, ProfileRoute>, compile: Compiler, email: string,
                  i: nat, host: string, port: Port)
  {
    && FirstHit(order, overrides, compile, email, i)
    && overrides[order[i]].host == host && overrides[order[i]].port == port
  }

  lemma {:induction false} FirstMatchLoaded(order: seq<string>, overrides: map<string, ProfileRoute>,
                                            compile: Compiler, email: string)
    ensures var hit := FirstMatch(PatternsIn(order, overrides, compile), email);
            && (hit.None? ==> forall j :: 0 <= j < |order| ==> !Hits(order[j], overrides, compile, email))
            && (hit.Some? ==>
                  exists i: nat :: HitAt(order, overrides, compile, email, i, hit.value.host, hit.value.port))
  {
    if order != [] {
      FirstMatchLoaded(order[1..], overrides, compile, email);
      if Hits(order[0], overrides, compile, email) {
        HeadHits(order, overrides, compile, email);
        hide Hits, PatternsIn, FirstMatch;
        var hit := FirstMatch(PatternsIn(order, overrides, compile), email);
        assert HitAt(order, overrides, compile, email, 0, hit.value.host, hit.value.port);
      } else {
        HeadMisses(order, overrides, compile, email);
        hide Hits, PatternsIn, FirstMatch, HitAt;
        HitsInTail(order, overrides, compile, email, FirstMatch(PatternsIn(order, overrides, compile), email));
      }
    }
  }

  lemma HitsInTail(order: seq<string>, overrides: map<string, ProfileRoute>, compile: Compiler, email: string,
                   hit: Option<Pattern>)
    requires order != [] && !Hits(order[0], overrides, compile, email)
    requires hit.None? ==> forall j :: 0 <= j < |order[1..]| ==> !Hits(order[1..][j], overrides, compile, email)
    requires hit.Some? ==>
               exists i: nat :: HitAt(order[1..], overrides, compile, email, i, hit.value.host, hit.value.port)
    ensures hit.None? ==> forall j :: 0 <= j < |order| ==> !Hits(order[j], overrides, compile, email)
    ensures hit.Some? ==>
              exists i: nat :: HitAt(order, overrides, compile, email, i, hit.value.host, hit.value.port)
  {
    hide Hits;
    forall j | 0 < j < |order| ensures order[j] == order[1..][j - 1] {}
    if hit.Some? {
      var i: nat :| HitAt(order[1..], overrides, compile, email, i, hit.value.host, hit.value.port);
      assert HitAt(order, overrides, compile, email, i + 1, hit.value.host, hit.value.port);
    }
  }

  /** After a load, an email that the file spells out has exactly the route it was given there. Any
      other has an answer exactly when some pattern of the file matches it; the answer then is the
      host and port of the first such pattern, with the default path. */
  lemma LoadedAnswer(order: seq<string>, overrides: map<string, ProfileRoute>, compile: Compiler, email: string)
    requires Enumerates(order, overrides.Keys)
    ensures var a := Answer(Loaded(overrides, order, compile), email);
            if email in overrides && !HasRegexChar(email) then a == Some(overrides[email])
            else
              && (a.Some? <==> exists k :: Hits(k, overrides, compile, email))
              && (a.Some? ==>
                    && a.value.email == email && a.value.targetUrl == DefaultDestination(a.value.host, a.value.port)
                    && exists i: nat :: HitAt(order, overrides, compile, email, i, a.value.host, a.value.port))
  {
    PatternKeys(email);
    FirstMatchLoaded(order, overrides, compile, email);
    hide PatternsIn, FirstMatch, Hits, HasRegexChar, IsRegexPattern;
    var hit := FirstMatch(PatternsIn(order, overrides, compile), email);
    if hit.Some? {
      DefaultIs(hit.value.host, hit.value.port);
      var i: nat :| HitAt(order, overrides, compile, email, i, hit.value.host, hit.value.port);
      assert Hits(order[i], overrides, compile, email);
    } else {
      forall k | k in overrides ensures !Hits(k, overrides, compile, email) {
        assert k in order;
      }
      OnlyFileKeysHit(overrides, compile, email);
    }
  }

  lemma OnlyFileKeysHit(overrides: map<string, ProfileRoute>, compile: Compiler, email: string)
    ensures forall k :: Hits(k, overrides, compile, email) ==> k in overrides
  {
  }

  // ---------- the file's values ----------

  /** The route that host and port stand for. */
  function DefaultRoute(key: string, host: string, port: Port): ProfileRoute {
    ProfileRoute(key, host, port, DefaultDestination(host, port))
  }

  /** White space around a value means nothing, and a value with a slash is a URL. */
  lemma UrlValue(key: string, text: string)
    ensures ReadValue(key, text) == ReadValue(key, Trim(text))
    ensures var v := Trim(text);
            '/' in v ==> var r := ReadValue(key, text);
                         r.Some? && r.value.email == key && r.value.targetUrl == Destination(v, 0)
  {
    TrimTwice(text);
    TargetIsTrimmedUrl(key, Trim(text));
  }

  /** Ports are decimal numbers. */
  lemma PortsAreDecimal()
    ensures PrintNat(80) == "80" && PrintNat(443) == "443" && PrintNat(8645) == "8645"
  {
    assert PrintNat(864) == "864" && PrintNat(86) == "86";
  }

  /** A value that is a port means the local host. */
  lemma PortValue(key: string, port: Port)
    ensures ReadValue(key, PrintNat(port)) == Some(DefaultRoute(key, "127.0.0.1", port))
  {
    var s := PrintNat(port);
    PortRoundTrip(port);
    assert IsDigit(s[0]) && IsDigit(s[|s| - 1]);
    assert Trim(s) == s;
    DefaultIs("127.0.0.1", port);
  }

  /** A value without a port, that is no port itself, means port 8645 of that host. */
  lemma HostValue(key: string, host: string)
    requires Trimmed(host) && host != [] && host[0] != '[' && '/' !in host && ParsePort(host) == None
    requires forall left, digits :: host == left + ":" + digits && ':' !in digits ==> ParsePort(digits) == None
    ensures ReadValue(key, host) == Some(DefaultRoute(key, host, 8645))
  {
    DefaultIs(host, 8645);
    if RSplitOnce(host, ':').Some? {
      var (left, digits) := RSplitOnce(host, ':').value;
      assert host == left + ":" + digits;
    }
  }

  /** Any other value is a host, a colon and a port; none is read from an empty value. */
  lemma HostPortValue(key: string, host: string, port: Port)
    requires HostSurvives(host) && '/' !in host
    ensures ReadValue(key, HostPort(host, port)) == Some(DefaultRoute(key, host, port))
    ensures ReadValue(key, "") == None
  {
    DefaultIs(host, port);
    AddrReloads(host, port);
    HostPortShape(host, port);
  }

  lemma LiteralSplit(inner: string, digits: string)
    requires Bracketed("[" + inner + "]")
    ensures var v := "[" + inner + "]:" + digits;
            v[0] == '[' && SplitOnce(v[1..], BRACKET_COLON) == Some((inner, digits))
  {
    var host, s := "[" + inner + "]", inner + BRACKET_COLON + digits;
    assert ("[" + inner + "]:" + digits)[1..] == s;
    forall j: nat | j < |inner| ensures !OccursAt(s, BRACKET_COLON, j) {
      BracketColonAt(s, j);
      BracketColonAt(host, j + 1);
      assert s[j] == host[j + 1] && (s[j + 1] == host[j + 2] || s[j + 1] == ']');
    }
    SplitOnceAt(s, BRACKET_COLON, inner, digits);
  }

  lemma LiteralNoSlash(inner: string, digits: string)
    requires '/' !in inner && '/' !in digits
    ensures '/' !in "[" + inner + "]:" + digits
  {
  }

  /** A value that starts with a bracket is an IP literal, and needs a port behind it. */
  lemma LiteralValue(key: string, inner: string, digits: string)
    requires Bracketed("[" + inner + "]") && '/' !in inner && '/' !in digits && Trimmed("[" + inner + "]:" + digits)
    ensures ReadValue(key, "[" + inner + "]:" + digits)
            == match ParsePort(digits)
               case None => None
               case Some(port) => Some(DefaultRoute(key, "[" + inner + "]", port))
  {
    var v := "[" + inner + "]:" + digits;
    LiteralSplit(inner, digits);
    LiteralNoSlash(inner, digits);
    assert Trim(v) == v;
    hide SplitOnce, Bracketed, Trimmed, ParsePort, DefaultDestination, DefaultUrl, FromUrl;
    assert ParseAddr(v) == match ParsePort(digits)
                           case None => None
                           case Some(port) => Some(("[" + inner + "]", port));
    hide ParseAddr;
    if ParsePort(digits).Some? { DefaultIs("[" + inner + "]", ParsePort(digits).value); }
  }

  lemma PortlessLiteral(key: string, v: string)
    requires v != [] && v[0] == '[' && '/' !in v && Trimmed(v)
    requires forall j :: 0 <= j < |v| - 1 ==> !(v[j] == ']' && v[j + 1] == ':')
    ensures ReadValue(key, v) == None
  {
    forall j: nat ensures !OccursAt(v[1..], BRACKET_COLON, j) { BracketColonAt(v[1..], j); }
  }

  /** The file's entries are those whose values can be read; without a readable file there are none. */
  lemma FileEntries(file: Option<string>, key: string)
    ensures var parsed := if file.Some? then ParseDocument(file.value) else None;
            && (key in FileOverrides(file)
                <==> parsed.Some? && key in parsed.value && ReadValue(key, parsed.value[key]).Some?)
            && (key in FileOverrides(file) ==> FileOverrides(file)[key] == ReadValue(key, parsed.value[key]).value)
  {
  }
}
