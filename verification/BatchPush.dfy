/** Fan-out of a push payload with several recipients: one POST per `signatures` entry that has an
    email and a route, all with the payload minus `signatures` as body. */
module BatchPush {
  import opened Options
  import opened Text
  import opened Route
  import opened RouteTable
  import opened Router
  import opened Lookups
  import opened Ranks
  import opened Pull
  import opened PullCycle

  // ---------- JSON values ----------

  datatype Json =
    | Null
    | Bool(b: bool)
    | Number(n: real)
    | Str(s: string)
    | Arr(items: seq<Json>)
    | Obj(fields: map<string, Json>)

  /** `value[key]`, which is null for anything but an object that has the key. */
  function Index(v: Json, key: string): Json {
    if v.Obj? && key in v.fields then v.fields[key] else Null
  }

  function AsStr(v: Json): Option<string> {
    match v
    case Str(s) => Some(s)
    case _ => None
  }

  function StrOrEmpty(v: Json): string {
    match v
    case Str(s) => s
    case _ => ""
  }

  function WithoutField(v: Json, key: string): Json {
    match v
    case Obj(fields) => Obj(fields - {key})
    case _ => v
  }

  const SIGNATURES := "signatures"

  // ---------- headers ----------

  function BatchHeaderValue(name: string, email: string, sig: string, ts: string): Option<(string, string)> {
    if name == "X-AIMail-Email" || name == "X-Amail-Email" then Some(("X-AIMail-Email", email))
    else if name == "X-Webhook-Signature" then Some(("X-Webhook-Signature", sig))
    else if name == "X-AIMail-Timestamp" || name == "X-Mailrelay-Timestamp" then Some(("X-AIMail-Timestamp", ts))
    else if name == "content-type" then Some(("content-type", "application/json"))
    else None
  }

  function Emitted(headers: seq<(string, string)>): set<string> {
    set h | h in headers :: h.0
  }

  /** What each configured name stands for. */
  function HeaderValues(names: seq<string>, email: string, sig: string, ts: string): seq<Option<(string, string)>> {
    seq(|names|, i requires 0 <= i < |names| => BatchHeaderValue(names[i], email, sig, ts))
  }

  /** The headers, in order, each output name set once. */
  function FirstOfEach(values: seq<Option<(string, string)>>): seq<(string, string)> {
    if values == [] then []
    else
      var front := FirstOfEach(values[..|values| - 1]);
      match values[|values| - 1]
      case None => front
      case Some(h) => if h.0 in Emitted(front) then front else front + [h]
  }

  /** The headers of one POST for the configured names. */
  function HeadersFor(names: seq<string>, email: string, sig: string, ts: string): seq<(string, string)> {
    FirstOfEach(HeaderValues(names, email, sig, ts))
  }

  method BuildHeaders(names: seq<string>, email: string, sig: string, ts: string)
    returns (headers: seq<(string, string)>)
    ensures headers == HeadersFor(names, email, sig, ts)
  {
    headers := [];
    var emitted: set<string> := {};
    ghost var values := HeaderValues(names, email, sig, ts);
    var i := 0;
    while i < |names|
      invariant i <= |names|
      invariant headers == FirstOfEach(values[..i])
      invariant emitted == Emitted(headers)
    {
      assert values[..i + 1][..i] == values[..i];
      var value := BatchHeaderValue(names[i], email, sig, ts);
      assert value == values[i];
      if value.Some? && value.value.0 !in emitted {
        EmittedSnoc(headers, value.value);
        emitted := emitted + {value.value.0};
        headers := headers + [value.value];
      }
      i := i + 1;
    }
    assert values[..i] == values;
  }

  lemma EmittedSnoc(headers: seq<(string, string)>, h: (string, string))
    ensures Emitted(headers + [h]) == Emitted(headers) + {h.0}
  {
    var all := headers + [h];
    assert all[|headers|] == h;
    forall n | n in Emitted(headers) ensures n in Emitted(all) {
      var g :| g in headers && g.0 == n;
      assert g in all;
    }
  }

  /** Equal output names have equal values. */
  ghost predicate Consistent(values: seq<Option<(string, string)>>) {
    forall i, j | 0 <= i < |values| && 0 <= j < |values| && values[i].Some? && values[j].Some? ::
      values[i].value.0 == values[j].value.0 ==> values[i] == values[j]
  }

  lemma {:induction false} FirstOfEachExact(values: seq<Option<(string, string)>>)
    requires Consistent(values)
    ensures var headers := FirstOfEach(values);
            && (forall i, j :: 0 <= i < j < |headers| ==> headers[i].0 != headers[j].0)
            && forall h :: h in headers <==> Some(h) in values
  {
    if values != [] {
      var front, last := values[..|values| - 1], values[|values| - 1];
      var headers, before := FirstOfEach(values), FirstOfEach(front);
      FirstOfEachExact(front);
      assert values == front + [last];
      if last.Some? && last.value.0 in Emitted(before) {
        var g :| g in before && g.0 == last.value.0;
        assert Some(g) in front;
      }
      forall i | 0 <= i < |before| ensures before[i].0 in Emitted(before) {
        assert before[i] in before;
      }
    }
  }

  lemma OneValuePerName(a: string, b: string, email: string, sig: string, ts: string)
    ensures var x, y := BatchHeaderValue(a, email, sig, ts), BatchHeaderValue(b, email, sig, ts);
            x.Some? && y.Some? && x.value.0 == y.value.0 ==> x == y
  {
    assert "X-AIMail-Email"[2] == 'A' && "X-Webhook-Signature"[2] == 'W';
    assert |"X-AIMail-Email"| != |"X-AIMail-Timestamp"|;
    assert "content-type"[0] == 'c';
  }

  /** Whatever names are configured, no POST carries an output header twice, and it carries exactly
      the headers that some configured name stands for. */
  lemma HeadersOnceEach(names: seq<string>, email: string, sig: string, ts: string)
    ensures var headers := HeadersFor(names, email, sig, ts);
            && (forall i, j :: 0 <= i < j < |headers| ==> headers[i].0 != headers[j].0)
            && forall h :: h in headers <==> Some(h) in HeaderValues(names, email, sig, ts)
  {
    var values := HeaderValues(names, email, sig, ts);
    forall i, j | 0 <= i < |values| && 0 <= j < |values| && values[i].Some? && values[j].Some?
                  && values[i].value.0 == values[j].value.0
      ensures values[i] == values[j]
    {
      OneValuePerName(names[i], names[j], email, sig, ts);
    }
    FirstOfEachExact(values);
  }

  // ---------- the configured names ----------

  /** What the headers are: whatever names are configured, in either spelling, they give the recipient's
      email, signature and timestamp and the content type, and nothing else. */
  lemma HeadersMean(names: seq<string>, email: string, sig: string, ts: string)
    ensures var headers := HeadersFor(names, email, sig, ts);
            forall h :: h in headers <==>
              || (h == ("X-AIMail-Email", email) && ("X-AIMail-Email" in names || "X-Amail-Email" in names))
              || (h == ("X-Webhook-Signature", sig) && "X-Webhook-Signature" in names)
              || (h == ("X-AIMail-Timestamp", ts)
                  && ("X-AIMail-Timestamp" in names || "X-Mailrelay-Timestamp" in names))
              || (h == ("content-type", "application/json") && "content-type" in names)
  {
    HeadersOnceEach(names, email, sig, ts);
    var values := HeaderValues(names, email, sig, ts);
    forall h: (string, string) ensures Some(h) in values <==> NamesHeader(names, h, email, sig, ts) {
      if NamesHeader(names, h, email, sig, ts) {
        var i :| 0 <= i < |names| && BatchHeaderValue(names[i], email, sig, ts) == Some(h);
        assert values[i] == Some(h);
      }
    }
  }

  ghost predicate NamesHeader(names: seq<string>, h: (string, string), email: string, sig: string, ts: string) {
    exists i :: 0 <= i < |names| && BatchHeaderValue(names[i], email, sig, ts) == Some(h)
  }

  predicate IsTokenChar(c: char) {
    'a' <= c <= 'z' || 'A' <= c <= 'Z' || IsDigit(c) || c in "!#$%&'*+-.^_`|~"
  }

  /** A field name of section 5.1 of RFC 9110, of a length the HTTP library takes. */
  predicate IsFieldName(s: string) {
    0 < |s| < 0x1_0000 && forall c :: c in s ==> IsTokenChar(c)
  }

  function Lower(c: char): char {
    if 'A' <= c <= 'Z' then c - 'A' + 'a' else c
  }

  function LowerCase(s: string): string {
    seq(|s|, i requires 0 <= i < |s| => Lower(s[i]))
  }

  /** `HeaderName`: field names are held in lower case. */
  type HeaderName = s: string | forall c :: c in s ==> !('A' <= c <= 'Z')

  /** The names that are matched: the configured ones that are field names, in lower case. */
  function HeaderNames(config: seq<string>): seq<HeaderName> {
    if config == [] then []
    else
      var last := config[|config| - 1];
      HeaderNames(config[..|config| - 1]) + (if IsFieldName(last) then [LowerCase(last)] else [])
  }

  const CONTENT_TYPE := ("content-type", "application/json")

  predicate NamesContentType(config: seq<string>) {
    exists i :: 0 <= i < |config| && LowerCase(config[i]) == CONTENT_TYPE.0
  }

  /** What the configured names put on a POST: nothing of the recipient. */
  function SentHeaders(config: seq<string>): seq<(string, string)> {
    if NamesContentType(config) then [CONTENT_TYPE] else []
  }

  lemma LowerCaseName(name: HeaderName, email: string, sig: string, ts: string)
    ensures BatchHeaderValue(name, email, sig, ts) == if name == CONTENT_TYPE.0 then Some(CONTENT_TYPE) else None
  {
    assert name != [] ==> name[0] in name;
    assert "X-AIMail-Email"[0] == "X-Amail-Email"[0] == "X-Webhook-Signature"[0] == 'X';
    assert "X-AIMail-Timestamp"[0] == "X-Mailrelay-Timestamp"[0] == 'X';
  }

  /** Every spelling of the content type is a field name. */
  lemma ContentTypeIsFieldName(s: string)
    requires LowerCase(s) == CONTENT_TYPE.0
    ensures IsFieldName(s)
  {
    assert forall d :: d in CONTENT_TYPE.0 ==> 'a' <= d <= 'z' || d == '-';
    forall c | c in s ensures IsTokenChar(c) {
      var i :| 0 <= i < |s| && s[i] == c;
      assert LowerCase(s)[i] in CONTENT_TYPE.0;
    }
    assert |s| == |LowerCase(s)|;
  }

  lemma NamesContentTypeSnoc(config: seq<string>)
    requires config != []
    ensures NamesContentType(config)
            <==> NamesContentType(config[..|config| - 1]) || LowerCase(config[|config| - 1]) == CONTENT_TYPE.0
  {
    var front := config[..|config| - 1];
    if NamesContentType(front) {
      var i :| 0 <= i < |front| && LowerCase(front[i]) == CONTENT_TYPE.0;
      assert config[i] == front[i];
    }
    if NamesContentType(config) {
      var i :| 0 <= i < |config| && LowerCase(config[i]) == CONTENT_TYPE.0;
      assert i < |front| ==> front[i] == config[i];
    }
  }

  lemma HeadersSnoc(names: seq<string>, name: string, email: string, sig: string, ts: string)
    ensures var headers := HeadersFor(names, email, sig, ts);
            HeadersFor(names + [name], email, sig, ts)
            == match BatchHeaderValue(name, email, sig, ts)
               case None => headers
               case Some(h) => if h.0 in Emitted(headers) then headers else headers + [h]
  {
    var all := names + [name];
    assert HeaderValues(all, email, sig, ts)[..|names|] == HeaderValues(names, email, sig, ts);
  }

  /** Names are matched in lower case, so of the recipient headers none is ever set: a POST has the
      content type when some configured name spells it, in whatever case, and nothing else. */
  lemma {:induction false} OnlyContentTypeIsSent(config: seq<string>, email: string, sig: string, ts: string)
    ensures HeadersFor(HeaderNames(config), email, sig, ts) == SentHeaders(config)
  {
    if config != [] {
      var front, last := config[..|config| - 1], config[|config| - 1];
      OnlyContentTypeIsSent(front, email, sig, ts);
      NamesContentTypeSnoc(config);
      if LowerCase(last) == CONTENT_TYPE.0 { ContentTypeIsFieldName(last); }
      if IsFieldName(last) {
        var name: HeaderName := LowerCase(last);
        LowerCaseName(name, email, sig, ts);
        HeadersSnoc(HeaderNames(front), name, email, sig, ts);
        assert CONTENT_TYPE in [CONTENT_TYPE];
      } else {
        assert HeaderNames(config) == HeaderNames(front);
      }
    }
  }

  // ---------- the fan-out ----------

  datatype Delivery = Delivery(target: string, headers: seq<(string, string)>, body: string)

  datatype Response =
    | BadRequest
    | SerializationFailed
    | Fanned(status: nat, delivered: nat, total: nat)

  /** The POST one entry causes: none without an email or without a route. */
  function EntryPost(t: Table, names: seq<string>, body: string, entry: Json): Option<Delivery> {
    match AsStr(Index(entry, "email"))
    case None => None
    case Some(email) =>
      match Target(t, email)
      case None => None
      case Some(target) =>
        var sig := StrOrEmpty(Index(entry, "signature"));
        var ts := StrOrEmpty(Index(entry, "timestamp"));
        Some(Delivery(target, HeadersFor(names, email, sig, ts), body))
  }

  function PostsFor(t: Table, names: seq<string>, body: string, entries: seq<Json>): seq<Delivery> {
    if entries == [] then []
    else
      PostsFor(t, names, body, entries[..|entries| - 1])
      + (match EntryPost(t, names, body, entries[|entries| - 1])
         case None => []
         case Some(p) => [p])
  }

  /** The target of the entry's email, if it has an email and that has a route. */
  function EntryTarget(t: Table, entry: Json): Option<string> {
    match AsStr(Index(entry, "email"))
    case None => None
    case Some(email) => Target(t, email)
  }

  /** For every entry and every configured list: an entry with a routed email is posted to the route's
      target, with the shared body and the shared headers; its signature and timestamp are not sent. */
  lemma EntryPosted(t: Table, config: seq<string>, body: string, entry: Json)
    ensures EntryPost(t, HeaderNames(config), body, entry)
            == if entry.Obj? && "email" in entry.fields && entry.fields["email"].Str?
                  && Answer(t, entry.fields["email"].s).Some?
               then Some(Delivery(Answer(t, entry.fields["email"].s).value.targetUrl, SentHeaders(config), body))
               else None
  {
    hide HeadersFor, Answer;
    var email := AsStr(Index(entry, "email"));
    if email.Some? {
      OnlyContentTypeIsSent(config, email.value, StrOrEmpty(Index(entry, "signature")),
                            StrOrEmpty(Index(entry, "timestamp")));
    }
  }

  /** An entry whose email was registered is posted to the registered destination, through every run of
      lookups and operations on other emails. */
  lemma RegisteredEntryGoes(t: Table, hostOrUrl: string, port: Port, ops: seq<Operation>,
                            config: seq<string>, body: string, entry: Json)
    requires entry.Obj? && "email" in entry.fields && entry.fields["email"].Str?
    requires LeavesAlone(ops, entry.fields["email"].s)
    ensures var now := AfterAll(Changed(t, Update(entry.fields["email"].s, hostOrUrl, port)), ops);
            EntryPost(now, HeaderNames(config), body, entry)
            == Some(Delivery(Destination(hostOrUrl, port), SentHeaders(config), body))
  {
    RegistrationHolds(t, entry.fields["email"].s, hostOrUrl, port, ops);
    EntryPosted(AfterAll(Changed(t, Update(entry.fields["email"].s, hostOrUrl, port)), ops), config, body, entry);
  }

  /** An entry is delivered when it is posted and answered 2xx. */
  predicate EntryDelivered(t: Table, entry: Json, reply: Reply) {
    EntryTarget(t, entry).Some? && reply.Success?
  }

  function Verdicts(t: Table, entries: seq<Json>, reply: nat -> Reply): seq<bool> {
    seq(|entries|, i requires 0 <= i < |entries| => EntryDelivered(t, entries[i], reply(i)))
  }

  function CountTrue(s: seq<bool>): nat {
    if s == [] then 0 else CountTrue(s[..|s| - 1]) + (if s[|s| - 1] then 1 else 0)
  }

  function DeliveredCount(t: Table, entries: seq<Json>, reply: nat -> Reply): nat {
    CountTrue(Verdicts(t, entries, reply))
  }

  lemma {:induction false} AllTrueIff(s: seq<bool>)
    ensures CountTrue(s) <= |s|
    ensures CountTrue(s) == |s| <==> forall i :: 0 <= i < |s| ==> s[i]
  {
    if s != [] { AllTrueIff(s[..|s| - 1]); }
  }

  lemma {:induction false} CountIsTrues(s: seq<bool>)
    ensures CountTrue(s) == Trues(s)
  {
    if s == [] {
      TruesNone();
    } else {
      CountIsTrues(s[..|s| - 1]);
      TruesSnoc(s[..|s| - 1], s[|s| - 1]);
      assert s == s[..|s| - 1] + [s[|s| - 1]];
    }
  }

  /** The entry is an object with a routed email, and its POST was answered 2xx. */
  predicate AcceptedEntry(t: Table, entry: Json, reply: Reply) {
    && entry.Obj? && "email" in entry.fields && entry.fields["email"].Str?
    && Answer(t, entry.fields["email"].s).Some? && reply.Success?
  }

  /** The delivered count is the number of entries that were accepted. */
  lemma DeliveredMeans(t: Table, entries: seq<Json>, reply: nat -> Reply)
    ensures DeliveredCount(t, entries, reply) == |set i: nat | i < |entries| && AcceptedEntry(t, entries[i], reply(i))|
  {
    var verdicts := Verdicts(t, entries, reply);
    CountIsTrues(verdicts);
    assert (set i: nat | i < |verdicts| && verdicts[i])
        == (set i: nat | i < |entries| && AcceptedEntry(t, entries[i], reply(i)));
  }

  /** The count reaches the number of entries exactly when every entry was delivered. */
  lemma AllDeliveredIff(t: Table, entries: seq<Json>, reply: nat -> Reply)
    ensures DeliveredCount(t, entries, reply) == |entries|
            <==> forall i :: 0 <= i < |entries| ==> EntryDelivered(t, entries[i], reply(i))
  {
    var verdicts := Verdicts(t, entries, reply);
    AllTrueIff(verdicts);
    forall i | 0 <= i < |entries| ensures verdicts[i] == EntryDelivered(t, entries[i], reply(i)) {}
  }

  function RoutedFlags(t: Table, entries: seq<Json>): seq<bool> {
    seq(|entries|, i requires 0 <= i < |entries| => AcceptedEntry(t, entries[i], Success))
  }

  ghost predicate DeliveryFits(t: Table, config: seq<string>, body: string, entry: Json, d: Delivery) {
    && AcceptedEntry(t, entry, Success)
    && d == Delivery(Answer(t, entry.fields["email"].s).value.targetUrl, SentHeaders(config), body)
  }

  /** Each routed entry causes one POST, to its email's route, in the order of the entries, and no other
      entry causes one; all POSTs of a payload have the same headers and the same body. */
  lemma {:induction false} PostsFollowEntries(t: Table, config: seq<string>, body: string, entries: seq<Json>)
    ensures Keeps(PostsFor(t, HeaderNames(config), body, entries), entries, RoutedFlags(t, entries),
                  (entry: Json, d: Delivery) => DeliveryFits(t, config, body, entry, d))
  {
    var fits := (entry: Json, d: Delivery) => DeliveryFits(t, config, body, entry, d);
    if entries == [] {
      KeepsNothing(fits);
      assert RoutedFlags(t, entries) == [];
    } else {
      var front, last := entries[..|entries| - 1], entries[|entries| - 1];
      PostsFollowEntries(t, config, body, front);
      var more := MoreFits(t, config, body, last);
      assert PostsFor(t, HeaderNames(config), body, entries) == PostsFor(t, HeaderNames(config), body, front) + more;
      var flag := AcceptedEntry(t, last, Success);
      assert RoutedFlags(t, entries) == RoutedFlags(t, front) + [flag] && front + [last] == entries;
      hide PostsFor, RoutedFlags, AcceptedEntry, DeliveryFits, Keeps;
      KeepsSnoc(PostsFor(t, HeaderNames(config), body, front), front, RoutedFlags(t, front), fits, more, last, flag);
    }
  }

  lemma MoreFits(t: Table, config: seq<string>, body: string, entry: Json) returns (more: seq<Delivery>)
    ensures more == match EntryPost(t, HeaderNames(config), body, entry) case None => [] case Some(p) => [p]
    ensures |more| == if AcceptedEntry(t, entry, Success) then 1 else 0
    ensures AcceptedEntry(t, entry, Success) ==> DeliveryFits(t, config, body, entry, more[0])
  {
    EntryPosted(t, config, body, entry);
    hide EntryPost;
    var post := EntryPost(t, HeaderNames(config), body, entry);
    more := if post.Some? then [post.value] else [];
  }

  lemma FanOutSnoc(t: Table, names: seq<string>, body: string, entries: seq<Json>, reply: nat -> Reply, i: nat)
    requires i < |entries|
    ensures var post := EntryPost(t, names, body, entries[i]);
            && PostsFor(t, names, body, entries[..i + 1])
               == PostsFor(t, names, body, entries[..i]) + (if post.Some? then [post.value] else [])
            && DeliveredCount(t, entries[..i + 1], reply)
               == DeliveredCount(t, entries[..i], reply) + (if post.Some? && reply(i).Success? then 1 else 0)
  {
    assert entries[..i + 1][..i] == entries[..i];
    var verdicts := Verdicts(t, entries[..i + 1], reply);
    assert verdicts[..i] == Verdicts(t, entries[..i], reply);
    assert verdicts[i] == EntryDelivered(t, entries[i], reply(i));
  }

  method FanOut(router: ProfileRouter, names: seq<HeaderName>, body: string, entries: seq<Json>, reply: nat -> Reply)
    returns (posts: seq<Delivery>, delivered: nat)
    requires router.Valid()
    modifies router`routes
    ensures router.Valid() && SameAnswers(router.Contents(), old(router.Contents()))
    ensures posts == PostsFor(old(router.Contents()), names, body, entries)
    ensures delivered == DeliveredCount(old(router.Contents()), entries, reply)
  {
    ghost var t := router.Contents();
    posts, delivered := [], 0;
    var i := 0;
    hide EntryPost, HeadersFor, Target;
    while i < |entries|
      invariant i <= |entries|
      invariant router.Valid() && SameAnswers(router.Contents(), t)
      invariant posts == PostsFor(t, names, body, entries[..i])
      invariant delivered == DeliveredCount(t, entries[..i], reply)
    {
      var post := PostEntry(router, names, body, entries[i], t);
      FanOutSnoc(t, names, body, entries, reply, i);
      if post.Some? {
        posts := posts + [post.value];
        if reply(i) == Success { delivered := delivered + 1; }
      }
      i := i + 1;
    }
    assert entries[..i] == entries;
  }

  method PostEntry(router: ProfileRouter, names: seq<HeaderName>, body: string, entry: Json, ghost t: Table)
    returns (post: Option<Delivery>)
    requires router.Valid() && SameAnswers(router.Contents(), t)
    modifies router`routes
    ensures router.Valid() && SameAnswers(router.Contents(), t)
    ensures post == EntryPost(t, names, body, entry)
  {
    var email := AsStr(Index(entry, "email"));
    if email == None { return None; }
    var route := router.Lookup(email.value);
    LookupKeepsSame(old(router.Contents()), email.value, t);
    if route == None { return None; }
    var sig := StrOrEmpty(Index(entry, "signature"));
    var ts := StrOrEmpty(Index(entry, "timestamp"));
    var headers := BuildHeaders(names, email.value, sig, ts);
    post := Some(Delivery(route.value.targetUrl, headers, body));
  }

  /** An object whose `signatures` is a list. */
  predicate IsBatch(v: Json) {
    v.Obj? && "signatures" in v.fields && v.fields["signatures"].Arr?
  }

  /** The whole handler, with the JSON library's parser and printer as parameters. */
  method HandleBatch(router: ProfileRouter, names: seq<HeaderName>, payload: string, reply: nat -> Reply,
                     parse: string -> Option<Json>, serialize: Json -> Option<string>)
    returns (response: Response, posts: seq<Delivery>)
    requires router.Valid()
    modifies router`routes
    ensures router.Valid() && SameAnswers(router.Contents(), old(router.Contents()))
    ensures response == BadRequest <==> !(parse(payload).Some? && IsBatch(parse(payload).value))
    ensures response == SerializationFailed
            <==> response != BadRequest && serialize(Obj(parse(payload).value.fields - {"signatures"})) == None
    ensures !response.Fanned? ==> posts == []
    ensures response.Fanned? ==>
              var fields := parse(payload).value.fields;
              var entries, body := fields["signatures"].items, serialize(Obj(fields - {"signatures"})).value;
              var t := old(router.Contents());
              && posts == PostsFor(t, names, body, entries)
              && response.delivered == |set i: nat | i < |entries| && AcceptedEntry(t, entries[i], reply(i))|
              && response.total == |entries|
              && response.status == (if forall i :: 0 <= i < |entries| ==> AcceptedEntry(t, entries[i], reply(i))
                                     then 200 else 207)
  {
    var batch := parse(payload);
    if batch == None { return BadRequest, []; }
    var sigs := Index(batch.value, SIGNATURES);
    if !sigs.Arr? { return BadRequest, []; }
    var body := serialize(WithoutField(batch.value, SIGNATURES));
    if body == None { return SerializationFailed, []; }
    AllDeliveredIff(router.Contents(), sigs.items, reply);
    DeliveredMeans(router.Contents(), sigs.items, reply);
    ghost var t := router.Contents();
    assert forall i :: 0 <= i < |sigs.items| ==>
        EntryDelivered(t, sigs.items[i], reply(i)) == AcceptedEntry(t, sigs.items[i], reply(i));
    var delivered: nat;
    posts, delivered := FanOut(router, names, body.value, sigs.items, reply);
    var total := |sigs.items|;
    response := Fanned(if delivered == total then 200 else 207, delivered, total);
  }
}
