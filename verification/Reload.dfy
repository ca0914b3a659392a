/** Writing the table to its file and loading it back: what the comment on `write_current_routes`
    calls an idempotent reload, and exactly when it is one. */
module Reload {
  import opened Options
  import opened Text
  import opened KeyOrder
  import opened Route
  import opened RoutesFile
  import opened FileEscapes
  import opened Unescape
  import opened RouteTable

  /** The table after the bridge wrote its file and the file was loaded again. */
  ghost function Reloaded(t: Table, order: seq<string>, compile: Compiler): Table {
    Loaded(FileOverrides(Some(FileText(t.routes))), order, compile)
  }

  /** The entries a write and a reload give back, in a file that needs no escape. */
  predicate EntrySurvives(key: string, r: ProfileRoute) {
    !IsRegexPattern(key) && RouteSurvives(r)
  }

  /** The routes a table's file gives back: nothing printed needs an escape, and each entry survives. */
  predicate AllSurvive(routes: map<string, ProfileRoute>) {
    AllPlain(ValuesOf(routes)) && forall k :: k in routes ==> EntrySurvives(k, routes[k])
  }

  predicate EntryKept(routes: map<string, ProfileRoute>, after: map<string, ProfileRoute>, key: string) {
    key in routes && key in after && after[key] == routes[key]
  }

  /** No entry is lost or changed. */
  ghost predicate EntriesKept(t: Table, after: Table) {
    forall k :: k in t.routes ==> EntryKept(t.routes, after.routes, k)
  }

  // ---------- files without escapes ----------

  /** What is read back for one entry. */
  function ReadBack(key: string, r: ProfileRoute): Option<ProfileRoute> {
    ReadValue(key, WrittenValue(r))
  }

  lemma WrittenOverrides(routes: map<string, ProfileRoute>)
    requires AllPlain(ValuesOf(routes))
    ensures FileOverrides(Some(FileText(routes)))
            == map k | k in routes && ReadBack(k, routes[k]).Some? :: ReadBack(k, routes[k]).value
  {
    WrittenFileParses(routes);
  }

  lemma NoPatterns(order: seq<string>, overrides: map<string, ProfileRoute>, compile: Compiler)
    requires forall k :: k in overrides ==> !IsRegexPattern(k)
    ensures PatternsIn(order, overrides, compile) == []
  {
  }

  lemma PlainEntryReloads(t: Table, order: seq<string>, compile: Compiler, key: string)
    requires WellFormed(t) && AllPlain(ValuesOf(t.routes))
    ensures key in t.routes ==>
              (EntryKept(t.routes, Reloaded(t, order, compile).routes, key) <==> EntrySurvives(key, t.routes[key]))
  {
    if key in t.routes {
      WrittenOverrides(t.routes);
      RouteReloads(t.routes[key]);
    }
  }

  lemma ReloadAddsNothing(t: Table, order: seq<string>, compile: Compiler)
    requires AllSurvive(t.routes)
    ensures Reloaded(t, order, compile).routes.Keys <= t.routes.Keys
    ensures Reloaded(t, order, compile).patterns == []
  {
    WrittenOverrides(t.routes);
    var overrides := FileOverrides(Some(FileText(t.routes)));
    forall k | k in overrides ensures !IsRegexPattern(k) {
      assert k in t.routes && EntrySurvives(k, t.routes[k]);
    }
    NoPatterns(order, overrides, compile);
  }

  lemma SameRoutes(routes: map<string, ProfileRoute>, after: map<string, ProfileRoute>)
    requires after.Keys <= routes.Keys && forall k :: k in routes ==> EntryKept(routes, after, k)
    ensures after == routes
  {
    assert forall k :: k in routes ==> EntryKept(routes, after, k);
  }

  lemma SurvivorsReload(t: Table, order: seq<string>, compile: Compiler)
    requires WellFormed(t) && AllSurvive(t.routes)
    ensures Reloaded(t, order, compile) == Table(t.routes, [])
  {
    ReloadAddsNothing(t, order, compile);
    hide Reloaded;
    forall k | k in t.routes ensures EntryKept(t.routes, Reloaded(t, order, compile).routes, k) {
      PlainEntryReloads(t, order, compile, k);
    }
    SameRoutes(t.routes, Reloaded(t, order, compile).routes);
  }

  // ---------- files with escapes ----------

  lemma OnlyBackslashesLeft(s: string)
    requires Escapes(s) <= Backslashes(s)
    ensures OnlyBackslashes(s)
  {
    if s != [] {
      CountsOf(s[1..]);
      OnlyBackslashesLeft(s[1..]);
      assert s == [s[0]] + s[1..];
    }
  }

  lemma NoBackslashInExactKey(key: string)
    requires !IsRegexPattern(key)
    ensures Backslashes(key) == 0
  {
    CountsOf(key);
    assert IsRegexChar('\\') by { assert "*+?[]()^$|\\"[10] == '\\'; }
  }

  /** If every entry is read back, the counts leave room for backslashes in values and nothing else. */
  lemma KeptLeavesBackslashes(routes: map<string, ProfileRoute>, parsed: map<string, string>, keys: seq<string>)
    requires Enumerates(keys, routes.Keys) && ValuesOf(routes).Keys == routes.Keys
    requires ParseDocument(Lines(keys, ValuesOf(routes))) == Some(parsed)
    requires forall k :: k in routes ==>
               !IsRegexPattern(k) && k in parsed && ReadValue(k, parsed[k]) == Some(routes[k])
    ensures forall k :: k in routes ==> Plain(k) && OnlyBackslashes(WrittenValue(routes[k]))
  {
    var values := ValuesOf(routes);
    LinesCosts(keys, values);
    DocumentCosts(Lines(keys, values), parsed, keys);
    forall k | k in routes
      ensures EscapeCost(k, parsed[k]) >= Escapes(k) + Escapes(values[k]) >= BackslashCost(k, values[k])
      ensures Backslashes(k) == 0
    {
      ReadInventsNone(k, parsed[k]);
      CountsOf(k);
      CountsOf(values[k]);
      NoBackslashInExactKey(k);
    }
    SumTight(EscapeCost, parsed, BackslashCost, values, keys);
    forall k | k in routes ensures Plain(k) && OnlyBackslashes(WrittenValue(routes[k])) {
      assert k in keys;
      CountsOf(k);
      CountsOf(values[k]);
      OnlyBackslashesLeft(values[k]);
    }
  }

  /** If every entry is read back, no printed key or value needed an escape. */
  lemma KeptIsPlain(routes: map<string, ProfileRoute>, parsed: map<string, string>, keys: seq<string>)
    requires Enumerates(keys, routes.Keys) && ValuesOf(routes).Keys == routes.Keys
    requires forall k :: k in routes ==> routes[k].email == k && Constructed(routes[k])
    requires ParseDocument(Lines(keys, ValuesOf(routes))) == Some(parsed)
    requires forall k :: k in routes ==>
               !IsRegexPattern(k) && k in parsed && ReadValue(k, parsed[k]) == Some(routes[k])
    ensures AllPlain(ValuesOf(routes))
  {
    var values := ValuesOf(routes);
    KeptLeavesBackslashes(routes, parsed, keys);
    LinesRead(keys, values);
    forall k | k in values ensures Plain(values[k]) {
      if '\\' in values[k] { EscapedValueLost(routes[k], parsed[k]); }
    }
  }

  /** A file that does not parse gives back no entry, so only the empty table outlives it. */
  lemma UnreadableLoses(t: Table, order: seq<string>, compile: Compiler)
    requires EntriesKept(t, Reloaded(t, order, compile))
    ensures ParseDocument(FileText(t.routes)) == None ==> t.routes == map[]
  {
    var after := Reloaded(t, order, compile).routes;
    assert ParseDocument(FileText(t.routes)) == None ==> after == map[];
    assert forall k :: k in t.routes ==> EntryKept(t.routes, after, k);
  }

  lemma EscapedTableLoses(t: Table, order: seq<string>, compile: Compiler)
    requires WellFormed(t) && EntriesKept(t, Reloaded(t, order, compile))
    ensures AllPlain(ValuesOf(t.routes))
  {
    UnreadableLoses(t, order, compile);
    var keys := BodyParses(t.routes);
    var read := ParseDocument(FileText(t.routes));
    if read.Some? {
      forall k | k in t.routes
        ensures !IsRegexPattern(k) && k in read.value && ReadValue(k, read.value[k]) == Some(t.routes[k])
      {
        assert EntryKept(t.routes, Reloaded(t, order, compile).routes, k);
      }
      KeptIsPlain(t.routes, read.value, keys);
    }
  }

  /** For every table: the reload keeps every entry exactly when each one survives and nothing in
      the file needed an escape. */
  lemma EntriesKeptIff(t: Table, order: seq<string>, compile: Compiler)
    requires WellFormed(t)
    ensures EntriesKept(t, Reloaded(t, order, compile)) <==> AllSurvive(t.routes)
  {
    if AllSurvive(t.routes) {
      SurvivorsReload(t, order, compile);
    }
    if EntriesKept(t, Reloaded(t, order, compile)) {
      EscapedTableLoses(t, order, compile);
      forall k | k in t.routes ensures EntrySurvives(k, t.routes[k]) {
        assert EntryKept(t.routes, Reloaded(t, order, compile).routes, k);
        PlainEntryReloads(t, order, compile, k);
      }
    }
  }

  // ---------- when the reload is invisible ----------

  /** The reload is idempotent exactly when the table holds no pattern, nothing in its file needs an
      escape and every entry survives. */
  lemma ReloadIsIdempotent(t: Table, order: seq<string>, compile: Compiler)
    requires WellFormed(t)
    ensures Reloaded(t, order, compile) == t
            <==> t.patterns == [] && AllPlain(ValuesOf(t.routes))
                 && forall k :: k in t.routes ==> EntrySurvives(k, t.routes[k])
  {
    EntriesKeptIff(t, order, compile);
    if AllSurvive(t.routes) { SurvivorsReload(t, order, compile); }
    if Reloaded(t, order, compile) == t {
      assert forall k :: k in t.routes ==> EntryKept(t.routes, t.routes, k);
    }
  }

  /** With every entry kept, an email's answer outlives the reload exactly when it has an entry or
      no pattern matched it: patterns are not written. */
  lemma KeptAnswer(t: Table, order: seq<string>, compile: Compiler, email: string)
    requires WellFormed(t) && EntriesKept(t, Reloaded(t, order, compile))
    ensures Answer(Reloaded(t, order, compile), email) == Answer(t, email)
            <==> email in t.routes || FirstMatch(t.patterns, email).None?
  {
    EntriesKeptIff(t, order, compile);
    SurvivorsReload(t, order, compile);
  }

  lemma SameAnswersKeep(t: Table, order: seq<string>, compile: Compiler)
    requires Reloaded(t, order, compile).patterns == [] && SameAnswers(Reloaded(t, order, compile), t)
    ensures EntriesKept(t, Reloaded(t, order, compile))
  {
    var after := Reloaded(t, order, compile);
    hide Reloaded;
    forall k | k in t.routes ensures EntryKept(t.routes, after.routes, k) {
      assert Answer(after, k) == Answer(t, k);
    }
  }

  /** For every table: the reload changes no entry and no answer exactly when every entry survives,
      nothing needs an escape, and each email that a pattern matches has an entry of its own. When
      the file gives back no pattern, unchanged answers alone need all of that. */
  lemma ReloadKeepsAnswers(t: Table, order: seq<string>, compile: Compiler)
    requires WellFormed(t)
    ensures EntriesKept(t, Reloaded(t, order, compile)) && SameAnswers(Reloaded(t, order, compile), t)
            <==> AllSurvive(t.routes) && forall e :: e !in t.routes ==> FirstMatch(t.patterns, e).None?
    ensures Reloaded(t, order, compile).patterns == [] && SameAnswers(Reloaded(t, order, compile), t)
            <==> AllSurvive(t.routes) && forall e :: e !in t.routes ==> FirstMatch(t.patterns, e).None?
  {
    EntriesKeptIff(t, order, compile);
    if AllSurvive(t.routes) {
      SurvivorsReload(t, order, compile);
      forall e
        ensures Answer(Reloaded(t, order, compile), e) == Answer(t, e)
                <==> e in t.routes || FirstMatch(t.patterns, e).None?
      {
        KeptAnswer(t, order, compile, e);
      }
    }
    if Reloaded(t, order, compile).patterns == [] && SameAnswers(Reloaded(t, order, compile), t) {
      SameAnswersKeep(t, order, compile);
    }
  }

  lemma MemoSurvives(t: Table, p: Table)
    requires Memoises(t, p) && AllSurvive(t.routes)
    ensures AllSurvive(p.routes)
  {
    forall k | k in p.routes
      ensures EntrySurvives(k, p.routes[k]) && Plain(k) && Plain(WrittenValue(p.routes[k]))
    {
      assert k in ValuesOf(t.routes) && p.routes[k] == t.routes[k];
    }
  }

  /** With every entry kept, a memoised table and its plain table agree on an email after their own
      reloads exactly when its hit had not been written back. */
  lemma ExposedAnswer(t: Table, p: Table, order: seq<string>, compile: Compiler, email: string)
    requires Memoises(t, p) && WellFormed(t) && WellFormed(p) && EntriesKept(t, Reloaded(t, order, compile))
    ensures Answer(Reloaded(t, order, compile), email) == Answer(Reloaded(p, order, compile), email)
            <==> (email in t.routes ==> email in p.routes)
  {
    EntriesKeptIff(t, order, compile);
    SurvivorsReload(t, order, compile);
    MemoSurvives(t, p);
    SurvivorsReload(p, order, compile);
  }

  lemma ExposedTable(t: Table, p: Table, order: seq<string>, compile: Compiler)
    requires Memoises(t, p) && WellFormed(t) && WellFormed(p) && EntriesKept(t, Reloaded(t, order, compile))
    ensures SameAnswers(Reloaded(t, order, compile), Reloaded(p, order, compile)) <==> t.routes.Keys == p.routes.Keys
  {
    assert p.routes.Keys <= t.routes.Keys;
    forall e
      ensures Answer(Reloaded(t, order, compile), e) == Answer(Reloaded(p, order, compile), e)
              <==> (e in t.routes ==> e in p.routes)
    {
      hide *;
      ExposedAnswer(t, p, order, compile, e);
    }
    hide Reloaded, Answer, Memoises, WellFormed, EntriesKept;
    if t.routes.Keys != p.routes.Keys {
      var e :| e in t.routes && e !in p.routes;
      assert Answer(Reloaded(t, order, compile), e) != Answer(Reloaded(p, order, compile), e);
    }
  }

  /** For every memoised table and its plain table: the reload keeps every entry and leaves the memo
      invisible exactly when every entry survives, nothing needs an escape, and no pattern hit had
      been written back. */
  lemma ReloadHidesMemo(t: Table, p: Table, order: seq<string>, compile: Compiler)
    requires Memoises(t, p) && WellFormed(t) && WellFormed(p)
    ensures EntriesKept(t, Reloaded(t, order, compile))
              && SameAnswers(Reloaded(t, order, compile), Reloaded(p, order, compile))
            <==> AllSurvive(t.routes) && t.routes.Keys == p.routes.Keys
  {
    hide *;
    EntriesKeptIff(t, order, compile);
    if AllSurvive(t.routes) { ExposedTable(t, p, order, compile); }
  }
}
