# Verified model of aimail-bridge

This project models the parts of aimail-bridge that hold state or arithmetic, and proves what they
promise. `dafny verify dfyconfig.toml` checks everything (Dafny 4.11).

| file | models |
|---|---|
| `Pull.dfy` | the pull protocol as a step system: one loop and its relay, with lost fetches, ACKs and ACK replies |
| `PullCycle.dfy` | one iteration of the loop, the loop object, and draining |
| `Deliveries.dfy`, `Ranks.dfy` | where mail goes and what an iteration posts and acknowledges, in terms of what was registered and offered |
| `MultiSystem.dfy` | several loops interleaved step by step over one shared route table |
| `Route.dfy` | a route, the URL and address parsing it is built by, and what a write and a reload keep of it |
| `RoutesFile.dfy`, `KeyOrder.dfy` | the text of the routes file and its reader; the key order |
| `FileEscapes.dfy`, `Unescape.dfy` | what the reader makes of a file whose keys or values needed an escape |
| `Quoting.dfy` | the escapes the writer leaves out: with them every text reads back as itself |
| `RouteTable.dfy`, `Router.dfy` | the route table as a value with its plain specification, and the object that mutates it |
| `Lookups.dfy` | what registering, removing and loading mean for the emails looked up later |
| `Reload.dfy`, `QuotedKeys.dfy` | writing the table and loading it back: when that changes nothing, and what one odd key does |
| `Endpoint.dfy`, `Posting.dfy` | the endpoint probed for a route, and the endpoint its mail is posted to |
| `Health.dfy`, `Streak.dfy` | rounds of probes, counters and eviction |
| `RateLimiter.dfy`, `SharedLimit.dfy` | the per-IP limiter, and the exact number of one IP's requests a time span can see |
| `Cidr.dfy`, `Arith.dfy` | address masks against address blocks; the two IP lists |
| `BatchPush.dfy` | fan-out of a push payload to several recipients |
| `Text.dfy` | the string operations of the Rust standard library that are used |

Code that mutates fields is a class whose methods are proved against a function of the old state;
the promises are then lemmas about those functions. Maps of the source that are visited in hash
order are visited in an arbitrary order here, so no result depends on one.

## Findings

- "Zero message loss, zero duplicates" (README.md:34-36). Loss is excluded in every run
  (`Pull.ZeroLoss`). Duplicates are not: `Pull.DuplicateAfterLifetime` forwards an id twice after a
  lost ACK and two hours. `Pull.ForwardedOnceIff` gives the exact condition. Only a 2xx counts as
  a forward; a request that ended in an error may still have reached its agent, and the retry is
  then a duplicate that the agent sees and this model does not.
- The comment "idempotent reload of identical content" (src/router.rs:321-325) holds exactly for
  tables without patterns, whose keys and routes survive, and in which nothing printed needs an
  escape (`Reload.ReloadIsIdempotent`). Patterns are not written, keys with regex characters come
  back as patterns, and a custom path that ends in the default suffix is cut off
  (`Route.CustomPathLost`). Keys and values are printed unescaped. Among entries that need no
  escape, one registered email with a quote in it, behind which no equals sign comes, makes the
  reader reject the file, and every route is lost (`QuotedKeys.QuotedKeyLosesTable`). A key that
  spells an entry with a comment behind it, like `a"="h:1"#`, comes back as a route for `a`
  (`QuotedKeys.SpelledKeyComesBackAsOther`).
- A cached pattern hit changes no later answer (`RouteTable.MemoRefinesPlain`), unless the bridge
  reloads its own file, which holds the hit but not the pattern (`Reload.ReloadHidesMemo`).
- The rate limiter is documented as a sliding window but is a fixed window opened by the first
  request. A second can see `2 * max - 1` requests, so the configured cap holds in every second
  exactly when it is 1 (`SharedLimit.PerSecondCapIff`).
- A route whose key has a host with a colon, as every IPv6 literal has, is never probed, and no run
  of rounds evicts it, however long its endpoint is down (`Health.OutlivesEveryRunIff`). The eviction
  of a cached pattern hit does not last either: the next lookup writes it back
  (`Health.EvictionLastsIff`).
- The checker cuts the authority of a URL at the first slash only. A host in front of a `?`, a `#` or
  a backslash, or behind an `@`, or not written in the client's normal form, is probed under another
  name than its mail is posted to (`Posting.QueryProbedElsewhere`); an IP literal without a port is
  keyed as 443 even over http. `Posting.KeyIsEndpoint` and `Posting.ProbedWherePosted` are exact.
- Configured header names are lower case by the time they are matched against mixed-case literals,
  so a batch POST carries no recipient header, whatever is configured (`BatchPush.EntryPosted`).

## Assumptions

The clock is monotone, and readings are nondecreasing in the order of the steps that take them (in
lock order, for the limiter). Relay ids name one message to one email. A process run keeps one
`seen` map per loop. Each operation on the route table is atomic, and a health round is atomic with
respect to the admin API. Agents' replies, ACK outcomes, probe results and the relay's offers are
arbitrary inputs. Regular expressions are arbitrary predicates on emails. The parsers of JSON and of
IP addresses are arbitrary functions. The IP parser reads texts with a colon as IPv6 and others as
IPv4. The HTTP client's host parser is arbitrary too, except that a host it gives is a bracketed
literal or has no colon, and holds no character that would end it.

## Model

| member | source | states |
|---|---|---|
| `Pull.ZeroLoss` | src/pull.rs:51-176 | in every run with lost fetches, ACKs and replies, failing agents and missing routes, an id dropped on an ACK was forwarded with a 2xx, and an accepted message the relay did not expire itself is pending or was forwarded |
| `Pull.StepKeepsInv` | src/pull.rs:51-176 | every single step keeps the invariant of log, cache and relay that the run results rest on |
| `Pull.ForwardsAreSpaced` | src/pull.rs:59-82 | two 2xx forwards of one id are at least 7200 s apart, with nothing assumed of the relay |
| `Pull.SkipsAgree` | src/pull.rs:75-82 | in every reachable state the evicting cache skips a delivery exactly when the full history has a success younger than 7200 s |
| `Pull.EvictionIsInvisible` | src/pull.rs:59-120 | over whole runs the loop with eviction forwards, skips, lists and acknowledges exactly as a loop that never forgets a success |
| `Pull.ForwardedOnceIff` | src/pull.rs:74-120 | an id is forwarded at most once if and only if each later processing its agent would accept starts within 7200 s of its first success; it is forwarded at all iff some processing would succeed |
| `Pull.DuplicateAfterLifetime` | src/pull.rs:136-157 | the run that forwards one id twice: its ACK is lost and it is offered again after 7200 s |
| `Pull.CountersAreStreaks` | src/pull.rs:137-162 | both failure counters equal the number of failures in a row that the run's fetches, respectively its sent ACKs, end with |
| `Pull.WorldFollowsLoop` | src/pull.rs:68-120 | the log of the protocol model is the list of the loop's POSTs that were answered 2xx |
| `PullCycle.HealthyCycleShrinks` | src/pull.rs:62-159 | a cycle in which routes, agents and the ACK work strictly shrinks a nonempty pending set |
| `PullCycle.HealthyCyclesDrain` | src/pull.rs:51-176 | healthy cycles empty the relay in at most as many cycles as messages were pending |
| `PullCycle.PullLoop.Forward` | src/pull.rs:73-132 | handling one delivery against the shared table is the protocol's deliver step (`Deliveries.DeliveryMeans`), causes its POST or none, and changes no lookup answer |
| `PullCycle.PullLoop.Cycle` | src/pull.rs:51-176 | one iteration is the run of its protocol steps: eviction, fetch result, deliveries in order, ACK; with the POSTs, the acknowledged ids and the sleep time |
| `Deliveries.DeliveryMeans` | src/pull.rs:73-132 | a delivery is posted exactly when its id has no success younger than 7200 s and its email has a route: to the route's target, with its own id and email and the batch's body; it is listed for the ACK when remembered or accepted, and remembered from its success on |
| `Deliveries.RegisteredMailGoes` | src/pull.rs:86-114 | mail for an email registered with a URL goes to that URL, trimmed and with `http://` when it has no scheme, and with host and port to `http://host:port/webhooks/amail-inbound`, through every run of lookups and operations on other emails |
| `Deliveries.PatternMailGoes` | src/pull.rs:86-114 | after a load, mail for an email the file does not spell out is posted iff a pattern of the file matches, to the host and port of the first one that does, with the default path |
| `Deliveries.NoDeliveryMore` | src/pull.rs:70-133 | an iteration takes exactly as many delivery steps as deliveries were offered |
| `Deliveries.EachDeliveryOnce` | src/pull.rs:70-133 | each offered delivery has its own step, in the order of the batches and within them, with its own batch's body and its route's target |
| `Deliveries.CycleMeans` | src/pull.rs:59-159 | an iteration posts, in order and no others, the deliveries that are routed and not remembered when their turn comes; asks to drop, in order and no others, those remembered or accepted; forgets successes of 7200 s and more first; and counts a failed ACK |
| `Deliveries.FailedCycle` | src/pull.rs:59-172 | an iteration whose fetch failed posts and acknowledges nothing and counts the failure |
| `Deliveries.BackoffMeans` | src/pull.rs:161-172 | the wait doubles with each of the first six failed fetches in a row and never exceeds 300 s |
| `MultiSystem.LoopRunsAlone` | src/main.rs:353-365 | under every interleaving each loop's state is the run of its own steps over a table only the admin operations change |
| `MultiSystem.LoopsAreIndependent` | src/main.rs:347-365 | a loop ends in the same state when all the other loops stand still, so equal ids of two systems never suppress each other |
| `MultiSystem.EachLoopKeepsItsGuarantees` | src/main.rs:353-365 | no loss and the exactly-once condition hold for each loop of any interleaving |
| `Route.FromUrlNormalForm` | src/router.rs:49-75 | rebuilding a route from the target it produced changes nothing, for every string |
| `Route.TargetIsTrimmedUrl` | src/router.rs:49-75 | the target is the trimmed URL verbatim, with `http://` in front if it has no scheme |
| `Route.FullUrlRoute` | src/router.rs:49-75 | a trimmed http URL with host, port and path yields exactly these |
| `Route.AddrReloads` | src/router.rs:160-183 | `host:port` parses back to the pair exactly for hosts without leading white space whose leading bracket is properly closed |
| `Route.RouteReloads` | src/router.rs:202-312 | a route is read back as itself if and only if it was written in full, or its target is the default URL of a host that survives |
| `Route.CustomPathLost` | src/router.rs:305-314 | a custom path that ends in the default suffix comes back as the default URL, for every host, port and path |
| `RoutesFile.QuotedReadsBack` | src/router.rs:190-315 | a printed key or value is read back as itself exactly when TOML requires no escape in it |
| `RoutesFile.FileIsCanonical` | src/router.rs:296-317 | the text depends on the table alone, not on the order its keys were iterated in |
| `RoutesFile.FileListsKeys` | src/router.rs:296-317 | the file lists each email once, in ascending order |
| `KeyOrder.LeqMeans` | src/router.rs:302 | that order is by first difference, a text before those it begins |
| `Quoting.QuotedReads` | src/router.rs:190-315 | printed with TOML's escapes, every text would be read back as itself |
| `FileEscapes.WrittenFileParsesIff` | src/router.rs:186-317 | the reader gives each key of the written file once, with its value, if and only if no key and no value needs an escape |
| `RouteTable.MemoRefinesPlain` | src/router.rs:224-272 | over every sequence of lookups, updates, removals and loads the memoised table answers as the plain table: explicit entry first, else the first matching pattern with the default path |
| `RouteTable.FirstMatch` | src/router.rs:232-236 | the pattern returned is the first one in table order that matches, and none only if none matches |
| `RouteTable.LookupKeepsAnswers` | src/router.rs:224-248 | a lookup changes the answer of no email |
| `Lookups.UpdateAnswers` | src/router.rs:254-264 | after a registration the email is routed to the registered URL, or host and port with the default path; every other answer and the patterns stay |
| `Lookups.RegistrationHolds` | src/router.rs:224-272 | a registration holds through every run of lookups and operations on other emails |
| `Lookups.RemoveAnswers` | src/router.rs:267-272 | after a removal the email has an answer iff a pattern matches it; every other answer stays |
| `Lookups.PatternKeys` | src/router.rs:218-220 | a key is a pattern iff it holds one of eleven characters |
| `Lookups.PatternsLoaded` | src/router.rs:122-150 | the loaded patterns are, in iteration order, one for each key of the file that is a pattern and compiles, with its matcher and the host and port of its value, and no others |
| `Lookups.LoadedAnswer` | src/router.rs:104-248 | after a load an email the file spells out has exactly that route; any other has an answer iff a pattern of the file matches, and then the first one's host and port with the default path |
| `Lookups.UrlValue` | src/router.rs:200-204 | white space around a value is ignored, and a value with a slash is a URL, kept verbatim |
| `Lookups.HostPortValue` | src/router.rs:160-212 | `host:port` is read as that host and port with the default path, for every host that survives; an empty value as nothing |
| `Lookups.HostValue` | src/router.rs:160-183 | a host with no valid port behind its last colon is read whole, with port 8645 |
| `Lookups.LiteralValue` | src/router.rs:160-183 | an IP literal is read with the port behind it, and not at all when that is no port |
| `Text.NumbersRead` | src/router.rs:160-183 | ports are decimal, with or without sign or leading zeros, up to the maximum |
| `Lookups.PortValue` | src/router.rs:160-183 | a bare port is read as the local host at that port |
| `Reload.EntriesKeptIff` | src/router.rs:186-327 | for every table, a write and a reload keep every entry if and only if each entry survives and nothing printed needs an escape |
| `Reload.ReloadIsIdempotent` | src/router.rs:321-325 | for every table, writing and loading restores it if and only if it has no pattern, nothing printed needs an escape and every entry survives |
| `Reload.ReloadKeepsAnswers` | src/router.rs:293-327 | for every table, the reload changes no entry and no answer iff every entry survives, nothing needs an escape, and every email a pattern matches has an entry of its own; when the file gives back no pattern, unchanged answers alone need all of that |
| `Reload.ReloadHidesMemo` | src/router.rs:238-317 | for every memoised table and its plain table, the reload keeps all entries and leaves them giving the same answers iff every entry survives, nothing needs an escape, and no hit had been written back |
| `QuotedKeys.QuotedKeyLosesTable` | src/router.rs:190-315 | among entries that need no escape, one key with a quote in it, behind which no equals sign comes, makes the reader reject the file, and the reload leaves no route at all |
| `QuotedKeys.SpelledKeyReadsAsEntry` | src/router.rs:190-315 | a key that spells an entry with a comment behind it is read as that entry; if its name is registered as well, the file is unreadable |
| `QuotedKeys.SpelledKeyComesBackAsOther` | src/router.rs:190-315 | if that name is not registered, the reload loses the key, holds the route that name and value read as (unless the name is a pattern or the value no address), and keeps each other entry iff that one survives |
| `RouteTable.LoadedWellFormed` | src/router.rs:104-216 | whatever the file holds, every loaded entry is filed under its own email and built by a constructor |
| `Router.ProfileRouter.LoadFromFile` | src/router.rs:104-157 | the new table is the file's exact keys and, in iteration order, its compiled patterns, as `Lookups.LoadedAnswer` describes them: the expansion pass adds nothing |
| `Router.ProfileRouter.ExpandPattern` | src/router.rs:137-147 | expansion adds the matching emails that have no entry and overwrites none |
| `Router.ProfileRouter.Lookup` | src/router.rs:224-248 | returns the table's answer and writes a pattern hit back |
| `Router.ProfileRouter.UpdateRoute` | src/router.rs:254-264 | the table becomes the one `Lookups.UpdateAnswers` describes, and the file becomes the text of the new table unless the write fails |
| `Router.ProfileRouter.RemoveRoute` | src/router.rs:267-272 | the table loses exactly that email, and the file follows |
| `Router.ProfileRouter.WriteCurrentRoutes` | src/router.rs:293-320 | the file becomes the canonical text of the table |
| `Posting.KeyIsEndpoint` | src/health.rs:131-158 | for every http or https URL the client accepts and whatever its host parser does, the key is the endpoint it posts to if and only if the text before the first slash is not empty, holds no `?`, `#`, `@`, backslash, space or control character, does not end in a colon, is no IP literal without port over http, and writes the host as the client normalises it |
| `Posting.ProbedWherePosted` | src/health.rs:70-158 | for every such URL, the endpoint probed is the one posted to if and only if the key is, and the posted host has no colon |
| `Posting.QueryProbedElsewhere` | src/health.rs:131-158 | `http://h?x/p` is posted to `h` and probed as `h?x` |
| `Endpoint.KeyOfUrlRoute` | src/health.rs:131-158 | for every URL with a valid written port the key is the route's own host and port |
| `Endpoint.KeyOfNewRoute` | src/health.rs:131-158 | a route registered by host and port is keyed by them if and only if a leading bracket in the host is properly closed |
| `Endpoint.ProbedIffNoColon` | src/health.rs:70-77 | splitting a key gives back host and port when the host has no colon, and nothing at all when it has one |
| `Posting.NewRouteProbedWherePosted` | src/router.rs:77-80 | a route registered by host and port is probed where its mail is posted if and only if the host holds no colon, `?`, `#`, `@`, backslash, space or control character, and is written as the client normalises it |
| `Endpoint.UrlRouteFields` | src/router.rs:49-75 | a URL route carries the written host and port, and port 80 when none is written, also for https |
| `Endpoint.BadPortFields` | src/router.rs:49-75 | a URL route whose written port cannot be read carries the written host and port 80, and keeps its target verbatim |
| `Health.HealthChecker.GroupByTarget` | src/health.rs:61-65 | the groups partition the emails by key, whatever order the routes are visited in |
| `Health.HealthChecker.CheckRoutes` | src/health.rs:52-127 | one round makes exactly the change of table and counters that `Health.RoundRemovesIff` and `Health.CounterFollowsProbes` describe, for every visiting order, and counters stay below the threshold |
| `Health.CounterIsFailureRun` | src/health.rs:69-117 | over every run a counter is the length of the key's final run of failed probes modulo the threshold, and a round evicts exactly when that run reaches a multiple of it |
| `Health.EvictedOnlyAfterRun` | src/health.rs:86-117 | an eviction is preceded by threshold-many failed probes in a row, the last one in this round |
| `Health.RoundRemovesIff` | src/health.rs:52-121 | over every run of rounds, lookups and edits: a round takes an email's route away iff the probe of the route's own key fails and makes the failed probes of that key in a row a multiple of the threshold; it changes no other entry, adds none and leaves the patterns alone |
| `Health.CounterFollowsProbes` | src/health.rs:69-121 | the counter of a key is the length of its final run of failed probes, modulo the threshold, in every such run |
| `Health.OutlivesEveryRunIff` | src/health.rs:69-117 | a route outlives every run of rounds, lookups and table edits that leave it alone if and only if the host of its key has a colon; otherwise threshold-many failing rounds remove it |
| `Health.EvictionLastsIff` | src/health.rs:105-117 | once its route is evicted, an email has no answer through every run of rounds and lookups if and only if no loaded pattern matches it; else the pattern answers as before and a lookup writes the route back |
| `RateLimiter.IpRateLimiter.CheckAt` | src/push.rs:117-135 | the window and the verdict are the specified ones, and counts never exceed the maximum |
| `SharedLimit.CleanupIsInvisible` | src/push.rs:117-135 | on every interleaving the verdicts for one IP are those of a limiter without cleanup that sees only that IP |
| `SharedLimit.AdmittedWithinCap` | src/push.rs:117-135 | on every interleaving of requests from all addresses, no closed span of L ns admits more than `Cap(max, L)` requests of one IP |
| `SharedLimit.CapIsAttained` | src/push.rs:117-135 | for every IP and every L some run admits exactly `Cap(max, L)`, so the bound is exact |
| `SharedLimit.PerSecondCapIff` | src/push.rs:103-135 | a second admits up to `2 * max - 1` requests of an IP, and never more than `max` if and only if `max` is 1 |
| `SharedLimit.RefusedIffFull` | src/push.rs:124-132 | in every interleaving a request is refused if and only if its IP has a window that began less than 1001 ms ago and exactly `max` requests of that IP were admitted since |
| `SharedLimit.WindowHolds` | src/push.rs:117-123 | after a request the window holds its IP, and of the others exactly those whose window began less than 2001 ms ago, unchanged |
| `Cidr.MatchesIsBlock` | src/security.rs:24-36 | the mask comparison is membership in the aligned interval of 2^(W - prefix) addresses, for both families and every prefix |
| `Cidr.BlocksNestOrAreDisjoint` | src/security.rs:24-36 | two blocks that share an address are nested |
| `Cidr.ListsDecideByLines` | src/push.rs:50-101 | an allowlist admits exactly the addresses its lines name, or all when no line names any; a blacklist refuses exactly the addresses its lines name |
| `Cidr.LineMeans` | src/security.rs:40-50 | a bare address names itself alone; `text/prefix` names the addresses of its family that share the first `prefix` bits, if the prefix is a number of at most 32, respectively 128; any other line names nothing |
| `BatchPush.HandleBatch` | src/push.rs:325-414 | the error responses; the POSTs of the `signatures` entries with every other field as their body; the number delivered; and status 200 exactly when every entry had an email, a route and a 2xx, else 207 |
| `BatchPush.PostsFollowEntries` | src/push.rs:356-407 | each entry with a routed email, and no other, causes one POST, to its route's target, in order, all with the same headers and body |
| `BatchPush.AllDeliveredIff` | src/push.rs:353-413 | the delivered count reaches the total exactly when every entry was delivered |
| `BatchPush.HeadersOnceEach` | src/push.rs:306-393 | for every configured list no output header is set twice |
| `BatchPush.HeadersMean` | src/push.rs:306-393 | matched as written, exactly the recipient's email, signature, timestamp and the content type are set, each iff one of its names is listed |
| `BatchPush.EntryPosted` | src/push.rs:356-393 | for every entry and every configured list: an entry whose `email` is a routed text is posted to the route's target with the shared body and the shared headers, without its signature and timestamp; any other entry is not posted |
| `BatchPush.RegisteredEntryGoes` | src/push.rs:356-393 | an entry for an email registered with a URL, or host and port, is posted to that URL, or to the default path there |
| `BatchPush.DeliveredMeans` | src/push.rs:353-413 | the delivered count is the number of entries with a routed email whose POST was answered 2xx |
| `BatchPush.OnlyContentTypeIsSent` | src/main.rs:284-286 | for every configured list, valid names or not, a POST carries the content type iff some configured name spells it in any letter case, and no other header |

## Left out

- src/acme.rs, TLS, daemon, signals, tracing, CLI and configuration loading: plumbing around libraries.
- src/admin.rs and the middleware: thin wrappers over the router and the IP lists. src/vhost.rs: file serving and proxying.
- The single-recipient push handler: one lookup and one POST.
- `api_sign`: hashing from libraries. The backoff value appears only as the sleep time of a cycle.
- The query of `fetch_pending` (email domains, limit of 50) and the extra headers of a relayed delivery: the relay's offer is arbitrary here.
- Serialising a relayed batch's body in the pull loop cannot fail for a parsed JSON value, so the early exit it guards there is not modelled (the push handler's is).
- The loop's failure counters are unbounded here; as `u32` they would need 2^32 failures in a row to wrap.
- The `writing_routes` flag and the file watcher: a load may happen between any two operations, also of the bridge's own file.
- Partial file writes: a failed write leaves the file as it was.
- The TOML reader models what the bridge writes, with optional blanks, indentation and comments; bare, literal and dotted keys, literal and multi-line strings and tables count as unreadable.
- Which hosts the HTTP client normalises (percent-encoding, international names, number forms) or refuses: its host parser is an arbitrary function of the written host.
- MultiSystem.LoopsAreIndependent: a load's content and the relay's offers are inputs of the run. A reload of the file the bridge wrote itself can carry another loop's cached hit, which Reload.ReloadHidesMemo makes exact; and `fetch_pending` filters by the domains of all keys of the table (src/pull.rs:227-247), which another loop's cached hits extend, so a relay may offer more.
