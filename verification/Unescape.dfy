/** Values with backslashes in the written file: what the reader makes of them, entry by entry, and
    why the route they were printed for does not come back. */
module Unescape {
  import opened Options
  import opened Text
  import opened KeyOrder
  import opened Route
  import opened RoutesFile
  import opened FileEscapes

  /** A text with its escape sequences replaced. */
  function Unescaped(v: string): (r: Option<string>)
    ensures r.Some? ==> |r.value| <= |v| && ('\\' in v ==> |r.value| < |v|)
    decreases |v|
  {
    if v == [] then Some("")
    else if v[0] == '\\' then
      match Escape(v[1..])
      case None => None
      case Some((c, rest)) =>
        (match Unescaped(rest)
         case None => None
         case Some(u) => Some([c] + u))
    else
      assert v == [v[0]] + v[1..];
      match Unescaped(v[1..])
      case None => None
      case Some(u) => Some([v[0]] + u)
  }

  predicate OnlyBackslashes(v: string) {
    forall c :: c in v && NeedsEscape(c) ==> c == '\\'
  }

  // ---------- escapes do not reach past a character they cannot hold ----------

  lemma {:induction false} HexNone(s: string, i: nat)
    requires i < |s| && HexDigit(s[i]) == None
    ensures HexValue(s) == None
  {
    if i < |s| - 1 { HexNone(s[..|s| - 1], i); }
  }

  lemma UnicodeExtends(w: string, tail: string, digits: nat)
    requires tail != [] && HexDigit(tail[0]) == None
    ensures UnicodeEscape(w + tail, digits)
            == match UnicodeEscape(w, digits)
               case None => None
               case Some((c, rest)) => Some((c, rest + tail))
    requires digits > 0
  {
    var s := w + tail;
    if |w| < digits {
      if |s| >= digits {
        assert s[..digits][|w|] == tail[0];
        HexNone(s[..digits], |w|);
      }
    } else {
      assert s[..digits] == w[..digits] && s[digits..] == w[digits..] + tail;
    }
  }

  /** A tail that starts with a quote or a colon is not drawn into a preceding escape, except a
      quote directly after the backslash. */
  lemma EscapeExtends(w: string, tail: string)
    requires tail != [] && (tail[0] == '"' || tail[0] == ':')
    ensures w != [] ==> Escape(w + tail)
                        == match Escape(w)
                           case None => None
                           case Some((c, rest)) => Some((c, rest + tail))
    ensures w == [] ==> Escape(w + tail) == if tail[0] == '"' then Some(('"', tail[1..])) else None
  {
    if w == [] {
      assert w + tail == tail;
    } else {
      assert (w + tail)[0] == w[0] && (w + tail)[1..] == w[1..] + tail;
      UnicodeExtends(w[1..], tail, 4);
      UnicodeExtends(w[1..], tail, 8);
    }
  }

  /** What is read of an escape sequence and the text behind it. */
  lemma UnquoteBackslash(s: string)
    requires s != [] && s[0] == '\\'
    ensures Unquote(s) == match Escape(s[1..])
                          case None => None
                          case Some((c, rest)) =>
                            match Unquote(rest)
                            case None => None
                            case Some((value, after)) => Some(([c] + value, after))
  {
  }

  lemma UnquoteLineBreak(s: string)
    requires s != [] && s[0] == '\n'
    ensures Unquote(s) == None
  {
  }

  lemma OnlyBackslashesIn(v: string, w: string)
    requires OnlyBackslashes(v) && forall c :: c in w ==> c in v
    ensures OnlyBackslashes(w)
  {
  }

  /** Reading a printed value whose only troublesome characters are backslashes stops at its own
      closing quote, or fails. */
  lemma {:induction false} UnquoteUnescapes(v: string, after: string)
    requires OnlyBackslashes(v)
    ensures Unquote(v + (['"', '\n'] + after))
            == match Unescaped(v)
               case None => None
               case Some(u) => Some((u, ['\n'] + after))
    decreases |v|
  {
    var tail := ['"', '\n'] + after;
    var s := v + tail;
    assert tail[1..] == ['\n'] + after;
    if v == [] {
      assert s == tail;
    } else {
      assert s[0] == v[0] && s[1..] == v[1..] + tail;
      if v[0] == '\\' {
        UnquoteBackslash(s);
        EscapeExtends(v[1..], tail);
        assert v[1..] == [] ==> Escape(v[1..]) == None;
        hide Escape;
        if v[1..] == [] {
          UnquoteLineBreak(tail[1..]);
        } else if Escape(v[1..]).Some? {
          var (_, rest) := Escape(v[1..]).value;
          EscapeIsSuffix(v[1..]);
          OnlyBackslashesIn(v, rest);
          UnquoteUnescapes(rest, after);
        }
      } else {
        assert v[0] in v;
        OnlyBackslashesIn(v, v[1..]);
        UnquoteUnescapes(v[1..], after);
      }
    }
  }

  lemma {:induction false} UnescapedPrefix(p: string, v: string)
    requires '\\' !in p
    ensures Unescaped(p + v) == match Unescaped(v)
                                case None => None
                                case Some(u) => Some(p + u)
  {
    if p == [] {
      assert p + v == v;
      if Unescaped(v).Some? { assert p + Unescaped(v).value == Unescaped(v).value; }
    } else {
      assert (p + v)[0] == p[0] && (p + v)[1..] == p[1..] + v;
      UnescapedPrefix(p[1..], v);
      if Unescaped(v).Some? { assert p + Unescaped(v).value == [p[0]] + (p[1..] + Unescaped(v).value); }
    }
  }

  lemma EndsWithCons(c: char, u: string, tail: string)
    requires EndsWith(u, tail)
    ensures EndsWith([c] + u, tail)
  {
    var s := [c] + u;
    assert s[|s| - |tail|..] == u[|u| - |tail|..];
  }

  /** A tail that starts with a colon and has no backslash is kept. */
  lemma {:induction false} UnescapedTail(w: string, tail: string)
    requires tail != [] && tail[0] == ':' && '\\' !in tail
    ensures Unescaped(w + tail).Some? ==> EndsWith(Unescaped(w + tail).value, tail)
    decreases |w|
  {
    var s := w + tail;
    if w == [] {
      UnescapedPrefix(tail, []);
      assert s == tail && tail + [] == tail;
    } else {
      assert s[0] == w[0] && s[1..] == w[1..] + tail;
      if w[0] != '\\' {
        UnescapedTail(w[1..], tail);
        if Unescaped(s[1..]).Some? { EndsWithCons(w[0], Unescaped(s[1..]).value, tail); }
      } else {
        EscapeExtends(w[1..], tail);
        if w[1..] != [] && Escape(w[1..]).Some? {
          var (c, rest) := Escape(w[1..]).value;
          UnescapedTail(rest, tail);
          if Unescaped(rest + tail).Some? { EndsWithCons(c, Unescaped(rest + tail).value, tail); }
        }
      }
    }
  }

  // ---------- reading the lines ----------

  lemma ValueReads(value: string, after: string)
    requires OnlyBackslashes(value)
    ensures ParseValue(" = \"" + (value + (['"', '\n'] + after)))
            == match Unescaped(value)
               case None => None
               case Some(u) => Some((u, after))
  {
    var quoted := value + (['"', '\n'] + after);
    var s := " = \"" + quoted;
    assert AfterBlanks(s[1..]) == s[1..];
    assert AfterChar(s, '=') == Some(s[2..]);
    assert AfterBlanks(s[3..]) == s[3..];
    assert s[4..] == quoted;
    assert AfterChar(s[2..], '"') == Some(quoted);
    UnquoteUnescapes(value, after);
    assert (['\n'] + after)[1..] == after;
  }

  lemma LineReads(key: string, value: string, after: string)
    requires Plain(key) && OnlyBackslashes(value)
    ensures var s := Line(key, value) + after;
            && AfterChar(s, '"') == Some(s[1..])
            && ParseEntry(s[1..]) == match Unescaped(value)
                                     case None => None
                                     case Some(u) => Some(((key, u), after))
  {
    var s := Line(key, value) + after;
    var tail := " = \"" + (value + (['"', '\n'] + after));
    assert s[1..] == key + ['"'] + tail;
    UnquotePlain(key, tail);
    ValueReads(value, after);
  }

  /** With plain keys, and values that hold backslashes but nothing worse, each line is read as its
      own entry, or the document is rejected. */
  lemma {:induction false} LinesRead(keys: seq<string>, values: map<string, string>)
    requires Enumerates(keys, values.Keys)
    requires forall k :: k in values ==> Plain(k) && OnlyBackslashes(values[k])
    requires ParseDocument(Lines(keys, values)).Some?
    ensures var m := ParseDocument(Lines(keys, values)).value;
            m.Keys == values.Keys && forall k :: k in values ==> Unescaped(values[k]) == Some(m[k])
  {
    if keys != [] {
      var k := keys[0];
      var others := values - {k};
      var after := Lines(keys[1..], values);
      var s := Line(k, values[k]) + after;
      EnumerationTail(keys, values.Keys);
      assert others.Keys == values.Keys - {k};
      LinesIgnoreOthers(keys[1..], values, others);
      LineReads(k, values[k], after);
      assert Lines(keys, values) == s;
      LinesRead(keys[1..], others);
    }
  }

  // ---------- what trimming keeps ----------

  lemma {:induction false} TrimStartSuffix(s: string)
    ensures |TrimStart(s)| <= |s| && TrimStart(s) == s[|s| - |TrimStart(s)|..]
  {
    if s != [] && IsWhite(s[0]) { TrimStartSuffix(s[1..]); }
  }

  lemma {:induction false} TrimStartKeeps(s: string, i: nat)
    requires i < |s| && !IsWhite(s[i])
    ensures |s| - i <= |TrimStart(s)|
  {
    if IsWhite(s[0]) { TrimStartKeeps(s[1..], i - 1); }
  }

  lemma {:induction false} TrimEndPrefix(s: string)
    ensures forall i :: 0 <= i < |s| && !IsWhite(s[i]) ==> i < |TrimEnd(s)|
  {
    if s != [] && IsWhite(s[|s| - 1]) { TrimEndPrefix(s[..|s| - 1]); }
  }

  lemma TrimShrinks(s: string)
    ensures |Trim(s)| <= |s| && Escapes(Trim(s)) <= Escapes(s)
  {
    TrimStartSuffix(s);
    SuffixCounts(s, |s| - |TrimStart(s)|);
    PrefixCounts(TrimEnd(TrimStart(s)), TrimStart(s));
  }

  /** Trimming keeps a beginning without white space. */
  lemma TrimKeepsPrefix(p: string, s: string)
    requires p <= s && p != [] && !IsWhite(p[0]) && !IsWhite(p[|p| - 1])
    ensures p <= Trim(s)
  {
    assert s[0] == p[0] && s[|p| - 1] == p[|p| - 1];
    TrimEndPrefix(s);
  }

  lemma TrimStartKeepsEnd(s: string, tail: string)
    requires EndsWith(s, tail) && tail != [] && !IsWhite(tail[0])
    ensures EndsWith(TrimStart(s), tail)
  {
    TrimStartSuffix(s);
    assert s[|s| - |tail|] == tail[0];
    TrimStartKeeps(s, |s| - |tail|);
    var t := TrimStart(s);
    hide TrimStart;
    assert |tail| <= |t|;
    assert t[|t| - |tail|..] == s[|s| - |tail|..];
  }

  /** Trimming keeps an end without white space. */
  lemma TrimKeepsEnd(s: string, tail: string)
    requires EndsWith(s, tail) && tail != [] && !IsWhite(tail[0]) && !IsWhite(tail[|tail| - 1])
    ensures EndsWith(Trim(s), tail)
  {
    TrimStartKeepsEnd(s, tail);
    var t := TrimStart(s);
    hide TrimStart, TrimEnd, IsWhite;
    assert t[|t| - |tail|..][|tail| - 1] == t[|t| - 1];
    assert TrimEnd(t) == t;
  }

  // ---------- the route of an escaped value does not come back ----------

  lemma {:induction false} PrintedIsShortest(t: string)
    requires t != [] && AllDigits(t)
    ensures |PrintNat(DigitsValue(t))| <= |t|
  {
    if |t| > 1 { PrintedIsShortest(t[..|t| - 1]); }
  }

  lemma PrintedPortShort(digits: string, port: Port)
    requires ParsePort(digits) == Some(port)
    ensures |PrintNat(port)| <= |digits|
  {
    var t := if digits != [] && digits[0] == '+' then digits[1..] else digits;
    PrintedIsShortest(t);
  }

  lemma BracketedNotLonger(s: string)
    requires s != [] && s[0] == '[' && ParseTrimmedAddr(s).Some?
    ensures var (h, p) := ParseTrimmedAddr(s).value; |HostPort(h, p)| <= |s|
  {
    var (addr, digits) := SplitOnce(s[1..], BRACKET_COLON).value;
    hide SplitOnce;
    assert s == [s[0]] + (addr + BRACKET_COLON + digits);
    PrintedPortShort(digits, ParsePort(digits).value);
  }

  lemma OpenNotLonger(s: string, left: string, port: Port)
    requires s != [] && s[0] != '[' && s == left + [':'] + PrintNat(port)
    ensures ParseTrimmedAddr(s) == Some((left, port)) && |HostPort(left, port)| == |s|
  {
    PortRoundTrip(port);
    RSplitOnceAt(s, ':', left, PrintNat(port));
  }

  /** A text that ends in a colon and a port is not shorter than the address it is read as. */
  lemma AddressNotLonger(s: string, port: Port)
    requires s != [] && EndsWith(s, ":" + PrintNat(port)) && ParseTrimmedAddr(s).Some?
    ensures var (h, p) := ParseTrimmedAddr(s).value; |HostPort(h, p)| <= |s|
  {
    hide ParseTrimmedAddr, PrintNat, HostPort;
    if s[0] == '[' {
      BracketedNotLonger(s);
    } else {
      var left := s[..|s| - |":" + PrintNat(port)|];
      assert s == left + [':'] + PrintNat(port);
      OpenNotLonger(s, left, port);
    }
  }

  lemma UrlValueShort(key: string, u: string, r: ProfileRoute)
    requires r == FromUrl(key, u)
    ensures Shortened(r) ==> |WrittenValue(r)| <= |Trim(u)|
    ensures HTTP <= Trim(u) || HTTPS <= Trim(u) ==> |WrittenValue(r)| <= |Trim(u)|
    ensures !Shortened(r) ==> '/' in WrittenValue(r)
    ensures Escapes(WrittenValue(r)) <= Escapes(Trim(u))
  {
    TargetIsTrimmedUrl(key, u);
    TargetIsTrimmed(key, u);
    CountsAdd(HTTP, Trim(u));
    CountsOf(HTTP);
    if Shortened(r) {
      PrefixCounts(HTTP + HostPort(r.host, r.port), r.targetUrl);
      CountsAdd(HTTP, HostPort(r.host, r.port));
    }
  }

  lemma PrefixSurvives(p: string, v: string, u: string)
    requires p <= v && '\\' !in p && p != [] && !IsWhite(p[0]) && !IsWhite(p[|p| - 1])
    requires Unescaped(v) == Some(u)
    ensures p <= Trim(u)
  {
    assert v == p + v[|p|..];
    UnescapedPrefix(p, v[|p|..]);
    TrimKeepsPrefix(p, u);
  }

  lemma FullValueHasScheme(r: ProfileRoute)
    requires Constructed(r) && !Shortened(r)
    ensures HTTP <= WrittenValue(r) || HTTPS <= WrittenValue(r)
  {
    NewIsShortened(r.email, r.host, r.port);
    if !('/' !in r.host && r == NewRoute(r.email, r.host, r.port)) {
      var url :| r == FromUrl(r.email, url);
      TargetIsTrimmedUrl(r.email, url);
    }
  }

  lemma SchemeSurvives(v: string, u: string)
    requires (HTTP <= v || HTTPS <= v) && Unescaped(v) == Some(u)
    ensures HTTP <= Trim(u) || HTTPS <= Trim(u)
  {
    SchemeKept(v);
    hide Unescaped, Trim, IsWhite;
    PrefixSurvives(if HTTP <= v then HTTP else HTTPS, v, u);
  }

  lemma FullValueLost(r: ProfileRoute, u: string)
    requires Constructed(r) && !Shortened(r) && '\\' in WrittenValue(r) && Unescaped(WrittenValue(r)) == Some(u)
    ensures ReadValue(r.email, u) != Some(r)
  {
    hide *;
    FullValueHasScheme(r);
    SchemeSurvives(WrittenValue(r), u);
    TrimShrinks(u);
    ShorterFullTextLost(r, u);
  }

  lemma ShorterFullTextLost(r: ProfileRoute, u: string)
    requires (HTTP <= Trim(u) || HTTPS <= Trim(u)) && |Trim(u)| < |WrittenValue(r)|
    ensures ReadValue(r.email, u) != Some(r)
  {
    var s := Trim(u);
    TrimTwice(u);
    SchemeHasSlash(s);
    hide FromUrl, WrittenValue;
    UrlValueShort(r.email, s, FromUrl(r.email, s));
  }

  lemma SchemeKept(v: string)
    ensures '\\' !in HTTP && '\\' !in HTTPS
    ensures !IsWhite(HTTP[0]) && !IsWhite(HTTP[|HTTP| - 1]) && !IsWhite(HTTPS[0]) && !IsWhite(HTTPS[|HTTPS| - 1])
  {
  }

  lemma PortSurvives(host: string, port: Port, u: string)
    requires Unescaped(HostPort(host, port)) == Some(u)
    ensures EndsWith(Trim(u), ":" + PrintNat(port))
  {
    var tail := ":" + PrintNat(port);
    PortRoundTrip(port);
    NoBackslashInPort(port);
    hide Unescaped, Trim, PrintNat;
    Regroup(host, ":", PrintNat(port));
    UnescapedTail(host, tail);
    assert tail[|tail| - 1] == PrintNat(port)[|PrintNat(port)| - 1];
    TrimKeepsEnd(u, tail);
  }

  lemma ShortValueLost(r: ProfileRoute, u: string)
    requires Constructed(r) && Shortened(r) && '\\' in WrittenValue(r) && Unescaped(WrittenValue(r)) == Some(u)
    ensures ReadValue(r.email, u) != Some(r)
  {
    assert WrittenValue(r) == HostPort(r.host, r.port);
    hide *;
    PortSurvives(r.host, r.port, u);
    TrimShrinks(u);
    ShorterTextLost(r, u);
  }

  lemma ShorterUrlLost(r: ProfileRoute, s: string)
    requires Shortened(r) && Trimmed(s) && |s| < |WrittenValue(r)|
    ensures FromUrl(r.email, s) != r
  {
    hide FromUrl;
    if FromUrl(r.email, s) == r { UrlValueShort(r.email, s, r); }
  }

  /** A shortened route needs all of its value: a shorter text that ends in its port is not read
      back as that route. */
  lemma ShorterTextLost(r: ProfileRoute, u: string)
    requires Shortened(r) && |Trim(u)| < |WrittenValue(r)|
    requires EndsWith(Trim(u), ":" + PrintNat(r.port))
    ensures ReadValue(r.email, u) != Some(r)
  {
    var s := Trim(u);
    assert s != [];
    ShorterUrlLost(r, s);
    TrimTwice(u);
    hide FromUrl;
    if '/' !in s && ParseTrimmedAddr(s).Some? {
      AddressNotLonger(s, r.port);
      hide ParseTrimmedAddr;
    }
  }

  lemma NoBackslashInPort(port: Port)
    ensures '\\' !in ":" + PrintNat(port)
  {
    assert forall c :: c in PrintNat(port) ==> IsDigit(c);
  }

  /** The value of a route, printed with a backslash, is not read back as that route. */
  lemma EscapedValueLost(r: ProfileRoute, u: string)
    requires Constructed(r) && '\\' in WrittenValue(r) && Unescaped(WrittenValue(r)) == Some(u)
    ensures ReadValue(r.email, u) != Some(r)
  {
    if Shortened(r) { ShortValueLost(r, u); } else { FullValueLost(r, u); }
  }

  lemma HostPortEscapes(host: string, port: Port)
    ensures Escapes(HostPort(host, port)) == Escapes(host)
  {
    assert HostPort(host, port) == host + (":" + PrintNat(port));
    CountsAdd(host, ":" + PrintNat(port));
    CountsOf(":" + PrintNat(port));
    assert forall c :: c in PrintNat(port) ==> IsDigit(c);
  }

  lemma LiteralEscapes(s: string, addr: string)
    requires s != [] && addr <= s[1..]
    ensures Escapes("[" + addr + "]") <= Escapes(s)
  {
    CountsOf("[");
    CountsOf("]");
    CountsAdd("[", addr);
    CountsAdd("[" + addr, "]");
    SuffixCounts(s, 1);
    PrefixCounts(addr, s[1..]);
  }

  lemma AddressEscapes(s: string)
    requires ParseTrimmedAddr(s).Some?
    ensures Escapes(ParseTrimmedAddr(s).value.0) <= Escapes(s)
  {
    CountsOf("127.0.0.1");
    if s[0] == '[' {
      var (addr, digits) := SplitOnce(s[1..], BRACKET_COLON).value;
      LiteralEscapes(s, addr);
    } else if RSplitOnce(s, ':').Some? {
      PrefixCounts(RSplitOnce(s, ':').value.0, s);
    }
  }

  /** Reading and writing again invents no character that needs an escape. */
  lemma ReadInventsNone(key: string, text: string)
    requires ReadValue(key, text).Some?
    ensures Escapes(WrittenValue(ReadValue(key, text).value)) <= Escapes(text)
  {
    var value := Trim(text);
    TrimShrinks(text);
    TrimTwice(text);
    if '/' in value {
      UrlValueShort(key, value, FromUrl(key, value));
    } else {
      var (host, port) := ParseAddr(value).value;
      AddressEscapes(value);
      NewIsShortened(key, host, port);
      HostPortEscapes(host, port);
    }
  }
}
