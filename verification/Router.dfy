/** The route table object: the fields the bridge mutates, each method proved against the table
    functions of module RouteTable. Operations are atomic; `file` is the routes file on disk. */
module Router {
  import opened Options
  import opened Text
  import opened Route
  import opened KeyOrder
  import opened RoutesFile
  import opened RouteTable

  class ProfileRouter {
    const compile: Compiler
    var routes: map<string, ProfileRoute>
    var regexPatterns: seq<Pattern>
    var file: Option<string>

    ghost function Contents(): Table
      reads this
    {
      Table(routes, regexPatterns)
    }

    ghost predicate Valid()
      reads this
    {
      WellFormed(Contents())
    }

    constructor (compile: Compiler, file: Option<string>)
      ensures Valid() && Contents() == Table(map[], []) && this.file == file && this.compile == compile
    {
      this.compile, this.file := compile, file;
      routes, regexPatterns := map[], [];
    }

    /** Reads the file into a map of routes; without a readable file it is empty. */
    method LoadRoutesFile() returns (overrides: map<string, ProfileRoute>)
      ensures overrides == FileOverrides(file)
    {
      if file == None { return map[]; }
      var document := ParseDocument(file.value);
      if document == None { return map[]; }
      overrides := BuildOverrides(document.value);
    }

    /** Builds the routes of the parsed lines, which are visited in no particular order. */
    static method BuildOverrides(parsed: map<string, string>) returns (overrides: map<string, ProfileRoute>)
      ensures overrides == Overrides(parsed)
    {
      overrides := map[];
      var rest := parsed.Keys;
      hide ReadValue;
      while rest != {}
        invariant rest <= parsed.Keys
        invariant overrides == map k | k in parsed && k !in rest && ReadValue(k, parsed[k]).Some?
                                     :: ReadValue(k, parsed[k]).value
      {
        var key :| key in rest;
        var route := ReadValue(key, parsed[key]);
        if route.Some? { overrides := overrides[key := route.value]; }
        rest := rest - {key};
      }
    }

    /** First pass of a load: the exact entries. */
    method InsertExact(overrides: map<string, ProfileRoute>)
      modifies this`routes
      ensures routes == ExactPart(overrides)
    {
      routes := map[];
      var rest := overrides.Keys;
      while rest != {}
        invariant rest <= overrides.Keys
        invariant routes == map k | k in overrides && !IsRegexPattern(k) && k !in rest :: overrides[k]
      {
        var key :| key in rest;
        if !IsRegexPattern(key) { routes := routes[key := overrides[key]]; }
        rest := rest - {key};
      }
    }

    /** Expands one pattern over the given emails, keeping the entries already there. */
    method ExpandPattern(re: Matcher, route: ProfileRoute, allEmails: set<string>)
      modifies this`routes
      ensures routes == (map e | e in allEmails && re(e) :: route) + old(routes)
    {
      var emails := allEmails;
      while emails != {}
        invariant emails <= allEmails
        invariant routes == (map e | e in allEmails && e !in emails && re(e) :: route) + old(routes)
      {
        var email :| email in emails;
        if re(email) && email !in routes {
          routes := routes[email := route];
        }
        emails := emails - {email};
      }
    }

    /** Second pass of a load: collects the patterns and expands them over the loaded emails. The
        expansion adds nothing, since each loaded email already has its exact entry. */
    method CollectPatterns(overrides: map<string, ProfileRoute>)
      returns (rawPatterns: seq<Pattern>, ghost order: seq<string>)
      modifies this`routes
      ensures Enumerates(order, overrides.Keys)
      ensures rawPatterns == PatternsIn(order, overrides, compile)
      ensures routes == old(routes)
    {
      var allEmails := routes.Keys;
      rawPatterns, order := [], [];
      var rest := overrides.Keys;
      while rest != {}
        invariant rest <= overrides.Keys
        invariant Enumerates(order, overrides.Keys - rest)
        invariant rawPatterns == PatternsIn(order, overrides, compile)
        invariant routes == old(routes)
      {
        var key :| key in rest;
        PatternsAppend(order, key, overrides, compile);
        assert PatternsIn([key][1..], overrides, compile) == [];
        var re := compile(key);
        if IsRegexPattern(key) && re.Some? {
          rawPatterns := rawPatterns + [Pattern(re.value, key, overrides[key].host, overrides[key].port)];
          ExpandPattern(re.value, overrides[key], allEmails);
        }
        order := order + [key];
        rest := rest - {key};
      }
    }

    /** Replaces the table by the file's contents. */
    method LoadFromFile() returns (ghost order: seq<string>)
      modifies this`routes, this`regexPatterns
      ensures Enumerates(order, FileOverrides(file).Keys)
      ensures Contents() == Loaded(FileOverrides(file), order, compile) && Valid()
    {
      hide FileOverrides, PatternsIn, WellFormed, FromUrl;
      var overrides := LoadRoutesFile();
      InsertExact(overrides);
      regexPatterns, order := CollectPatterns(overrides);
      LoadedWellFormed(file, order, compile);
    }

    /** The email's route, from the exact entries or the patterns; a pattern hit is written back. */
    method Lookup(email: string) returns (route: Option<ProfileRoute>)
      requires Valid()
      modifies this`routes
      ensures Valid()
      ensures route == Answer(old(Contents()), email)
      ensures Contents() == AfterLookup(old(Contents()), email)
    {
      if email in routes {
        assert routes[email := routes[email]] == routes;
        return Some(routes[email]);
      }
      var hit := FirstMatch(regexPatterns, email);
      if hit.Some? {
        var r := NewRoute(email, hit.value.host, hit.value.port);
        routes := routes[email := r];
        return Some(r);
      }
      return None;
    }

    /** Registers an exact email and rewrites the file. */
    method UpdateRoute(email: string, hostOrUrl: string, port: Port, writable: bool)
      requires Valid()
      modifies this`routes, this`file
      ensures Valid()
      ensures Contents() == Changed(old(Contents()), Update(email, hostOrUrl, port))
      ensures file == if writable then Some(FileText(routes)) else old(file)
    {
      var route := if '/' in hostOrUrl then FromUrl(email, hostOrUrl) else NewRoute(email, hostOrUrl, port);
      routes := routes[email := route];
      hide FromUrl;
      WriteCurrentRoutes(writable);
    }

    /** Removes an exact email and rewrites the file. */
    method RemoveRoute(email: string, writable: bool)
      requires Valid()
      modifies this`routes, this`file
      ensures Valid()
      ensures Contents() == Changed(old(Contents()), Remove(email))
      ensures file == if writable then Some(FileText(routes)) else old(file)
    {
      routes := routes - {email};
      WriteCurrentRoutes(writable);
    }

    /** The keys of the table, in whatever order the map yields them. */
    method CollectKeys() returns (keys: seq<string>)
      ensures Enumerates(keys, routes.Keys)
    {
      keys := [];
      var rest := routes.Keys;
      while rest != {}
        invariant rest <= routes.Keys
        invariant Enumerates(keys, routes.Keys - rest)
      {
        var key :| key in rest;
        keys := keys + [key];
        rest := rest - {key};
      }
    }

    /** Prints the lines of the listed keys after `header`. */
    method PrintLines(header: string, keys: seq<string>) returns (out: string)
      ensures out == header + Lines(keys, ValuesOf(routes))
    {
      out := header;
      var i := 0;
      ghost var values := ValuesOf(routes);
      while i < |keys|
        invariant i <= |keys|
        invariant out + Lines(keys[i..], values) == header + Lines(keys, values)
      {
        var next := if keys[i] in routes then Line(keys[i], WrittenValue(routes[keys[i]])) else "";
        LinesUnfold(keys, i, values);
        Regroup(out, next, Lines(keys[i + 1..], values));
        out := out + next;
        i := i + 1;
      }
    }

    /** Rewrites the file from the table; a failed write (`writable` false) leaves it as it was. */
    method WriteCurrentRoutes(writable: bool)
      modifies this`file
      ensures file == if writable then Some(FileText(routes)) else old(file)
    {
      var keys := CollectKeys();
      FileIsCanonical(keys, routes);
      var out := PrintLines(HEADER, SortKeys(keys));
      if writable { file := Some(out); }
    }
  }

  lemma LinesUnfold(keys: seq<string>, i: nat, values: map<string, string>)
    requires i < |keys|
    ensures Lines(keys[i..], values)
            == (if keys[i] in values then Line(keys[i], values[keys[i]]) else "") + Lines(keys[i + 1..], values)
  {
    assert keys[i..][1..] == keys[i + 1..];
  }
}
