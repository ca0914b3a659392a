/** The route table as a value: exact entries first, then patterns, with pattern hits written back
    into the exact entries. The plain table, which never writes a hit back, is its specification. */
module RouteTable {
  import opened Options
  import opened Text
  import opened Route
  import opened KeyOrder
  import opened RoutesFile

  /** A compiled regular expression, known only by the emails it matches. */
  type Matcher = string -> bool
  type Compiler = string -> Option<Matcher>

  datatype Pattern = Pattern(re: Matcher, key: string, host: string, port: Port)

  ghost predicate Selects(ps: seq<Pattern>, email: string, i: int) {
    0 <= i < |ps| && ps[i].re(email) && forall j :: 0 <= j < i ==> !ps[j].re(email)
  }

  /** The first pattern, in table order, that matches. */
  function FirstMatch(ps: seq<Pattern>, email: string): (r: Option<Pattern>)
    ensures r.Some? ==> exists i :: Selects(ps, email, i) && r.value == ps[i]
    ensures r.None? ==> forall i :: 0 <= i < |ps| ==> !ps[i].re(email)
  {
    if ps == [] then None
    else if ps[0].re(email) then
      assert Selects(ps, email, 0);
      Some(ps[0])
    else
      var r := FirstMatch(ps[1..], email);
      assert r.Some? ==> exists i :: Selects(ps, email, i) && r.value == ps[i] by {
        if r.Some? {
          var i :| Selects(ps[1..], email, i) && r.value == ps[1..][i];
          assert Selects(ps, email, i + 1);
        }
      }
      r
  }

  datatype Table = Table(routes: map<string, ProfileRoute>, patterns: seq<Pattern>)

  /** Every entry is filed under its own email and was built by a constructor. */
  ghost predicate WellFormed(t: Table) {
    && (forall k :: k in t.routes ==> t.routes[k].email == k && Constructed(t.routes[k]))
    && forall i :: 0 <= i < |t.patterns| ==> '/' !in t.patterns[i].host
  }

  /** The route a pattern gives an email: the pattern's host and port with the default path. */
  function PatternRoute(p: Pattern, email: string): ProfileRoute {
    NewRoute(email, p.host, p.port)
  }

  function Answer(t: Table, email: string): Option<ProfileRoute> {
    if email in t.routes then Some(t.routes[email])
    else match FirstMatch(t.patterns, email)
      case Some(p) => Some(PatternRoute(p, email))
      case None => None
  }

  /** `lookup` leaves a pattern hit behind as an exact entry. */
  function AfterLookup(t: Table, email: string): Table {
    match Answer(t, email)
    case Some(r) => t.(routes := t.routes[email := r])
    case None => t
  }

  function RegisteredRoute(email: string, hostOrUrl: string, port: Port): ProfileRoute {
    if '/' in hostOrUrl then FromUrl(email, hostOrUrl) else NewRoute(email, hostOrUrl, port)
  }

  // ---------- loading ----------

  predicate IsRegexChar(c: char) {
    c in "*+?[]()^$|\\"
  }

  predicate IsRegexPattern(key: string) {
    exists c :: c in key && IsRegexChar(c)
  }

  function Overrides(parsed: map<string, string>): map<string, ProfileRoute> {
    map k | k in parsed && ReadValue(k, parsed[k]).Some? :: ReadValue(k, parsed[k]).value
  }

  /** What `load_routes_file` makes of the file; missing or unreadable, it is empty. */
  function FileOverrides(file: Option<string>): map<string, ProfileRoute> {
    match file
    case None => map[]
    case Some(text) =>
      match ParseDocument(text)
      case None => map[]
      case Some(parsed) => Overrides(parsed)
  }

  function ExactPart(overrides: map<string, ProfileRoute>): map<string, ProfileRoute> {
    map k | k in overrides && !IsRegexPattern(k) :: overrides[k]
  }

  /** The patterns, in the order the keys are iterated; keys that do not compile are dropped. */
  function PatternsIn(order: seq<string>, overrides: map<string, ProfileRoute>, compile: Compiler): seq<Pattern> {
    if order == [] then []
    else
      var k := order[0];
      (if k in overrides && IsRegexPattern(k) && compile(k).Some?
       then [Pattern(compile(k).value, k, overrides[k].host, overrides[k].port)] else [])
      + PatternsIn(order[1..], overrides, compile)
  }

  function Loaded(overrides: map<string, ProfileRoute>, order: seq<string>, compile: Compiler): Table {
    Table(ExactPart(overrides), PatternsIn(order, overrides, compile))
  }

  lemma OverridesConstructed(parsed: map<string, string>)
    ensures forall k :: k in Overrides(parsed) ==>
              Overrides(parsed)[k].email == k && Constructed(Overrides(parsed)[k]) && '/' !in Overrides(parsed)[k].host
  {
    forall k | k in Overrides(parsed)
      ensures Overrides(parsed)[k].email == k && Constructed(Overrides(parsed)[k]) && '/' !in Overrides(parsed)[k].host
    {
      ReadValueConstructed(k, parsed[k]);
      HostHasNoSlash(Overrides(parsed)[k]);
    }
  }

  lemma {:induction false} PatternsAppend(
      order: seq<string>, k: string, overrides: map<string, ProfileRoute>, compile: Compiler)
    ensures PatternsIn(order + [k], overrides, compile)
            == PatternsIn(order, overrides, compile) + PatternsIn([k], overrides, compile)
  {
    var more := order + [k];
    if order == [] {
      assert more == [k];
    } else {
      assert more[0] == order[0] && more[1..] == order[1..] + [k];
      PatternsAppend(order[1..], k, overrides, compile);
    }
  }

  lemma PatternHosts(order: seq<string>, overrides: map<string, ProfileRoute>, compile: Compiler)
    requires forall k :: k in overrides ==> '/' !in overrides[k].host
    ensures forall p :: p in PatternsIn(order, overrides, compile) ==> '/' !in p.host
  {
  }

  /** Loading establishes the table's invariant, whatever the file held before. */
  lemma LoadedWellFormed(file: Option<string>, order: seq<string>, compile: Compiler)
    ensures WellFormed(Loaded(FileOverrides(file), order, compile))
  {
    var overrides := FileOverrides(file);
    match file {
      case None =>
      case Some(text) =>
        match ParseDocument(text)
        case None =>
        case Some(parsed) => OverridesConstructed(parsed);
    }
    PatternHosts(order, overrides, compile);
  }

  // ---------- the memo refines the plain table ----------

  /** `t` is `p` with some pattern hits written back. */
  ghost predicate Memoises(t: Table, p: Table) {
    && t.patterns == p.patterns
    && (forall e :: e in p.routes ==> e in t.routes && t.routes[e] == p.routes[e])
    && forall e :: e in t.routes && e !in p.routes ==> Answer(p, e) == Some(t.routes[e])
  }

  /** A memo answers every email as the plain table does. */
  lemma MemoAnswers(t: Table, p: Table, email: string)
    requires Memoises(t, p)
    ensures Answer(t, email) == Answer(p, email)
  {
  }

  lemma LookupMemoises(t: Table, p: Table, email: string)
    requires Memoises(t, p)
    ensures Memoises(AfterLookup(t, email), p)
  {
    MemoAnswers(t, p, email);
  }

  /** A lookup changes no answer, for its own email or any other. */
  lemma LookupKeepsAnswers(t: Table, email: string, other: string)
    ensures Answer(AfterLookup(t, email), other) == Answer(t, other)
  {
  }

  /** Two tables that route every email alike. */
  ghost predicate SameAnswers(a: Table, b: Table) {
    forall e :: Answer(a, e) == Answer(b, e)
  }

  lemma LookupKeepsSame(a: Table, email: string, b: Table)
    requires SameAnswers(a, b)
    ensures SameAnswers(AfterLookup(a, email), b)
  {
    forall e ensures Answer(AfterLookup(a, email), e) == Answer(b, e) {
      LookupKeepsAnswers(a, email, e);
    }
  }

  datatype Operation =
    | Lookup(email: string)
    | Update(email: string, hostOrUrl: string, port: Port)
    | Remove(email: string)
    | Load(overrides: map<string, ProfileRoute>, order: seq<string>, compile: Compiler)

  /** What every operation but a lookup does, to either table. */
  function Changed(t: Table, op: Operation): Table {
    match op
    case Lookup(_) => t
    case Update(email, hostOrUrl, port) => t.(routes := t.routes[email := RegisteredRoute(email, hostOrUrl, port)])
    case Remove(email) => t.(routes := t.routes - {email})
    case Load(overrides, order, compile) => Loaded(overrides, order, compile)
  }

  function MemoStep(t: Table, op: Operation): Table {
    if op.Lookup? then AfterLookup(t, op.email) else Changed(t, op)
  }

  /** The answers a run's lookups return, in order. */
  function MemoAnswersOf(t: Table, ops: seq<Operation>): seq<Option<ProfileRoute>>
    decreases |ops|
  {
    if ops == [] then []
    else (if ops[0].Lookup? then [Answer(t, ops[0].email)] else []) + MemoAnswersOf(MemoStep(t, ops[0]), ops[1..])
  }

  function PlainAnswersOf(p: Table, ops: seq<Operation>): seq<Option<ProfileRoute>>
    decreases |ops|
  {
    if ops == [] then []
    else (if ops[0].Lookup? then [Answer(p, ops[0].email)] else []) + PlainAnswersOf(Changed(p, ops[0]), ops[1..])
  }

  lemma StepMemoises(t: Table, p: Table, op: Operation)
    requires Memoises(t, p)
    ensures Memoises(MemoStep(t, op), Changed(p, op))
  {
    if op.Lookup? { LookupMemoises(t, p, op.email); }
  }

  /** Over every sequence of lookups, updates, removals and loads, the memoised table returns what
      the plain one does: a cached pattern hit never changes a later answer. */
  lemma {:induction false} MemoRefinesPlain(t: Table, p: Table, ops: seq<Operation>)
    requires Memoises(t, p)
    ensures MemoAnswersOf(t, ops) == PlainAnswersOf(p, ops)
    decreases |ops|
  {
    if ops != [] {
      if ops[0].Lookup? { MemoAnswers(t, p, ops[0].email); }
      StepMemoises(t, p, ops[0]);
      MemoRefinesPlain(MemoStep(t, ops[0]), Changed(p, ops[0]), ops[1..]);
    }
  }
}
