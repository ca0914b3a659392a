/** Keys with a quote in them. The writer prints keys unescaped, so what stands behind the quote is
    read as the rest of the line: mostly the line is malformed and the file unreadable; but a key
    can also spell another entry. */
module QuotedKeys {
  import opened Options
  import opened Text
  import opened KeyOrder
  import opened Route
  import opened RoutesFile
  import opened FileEscapes
  import opened RouteTable
  import opened Reload

  // ---------- one line that is not read as it was printed ----------

  /** The other lines of the file are read as they were printed. */
  predicate OthersPlain(values: map<string, string>, key: string) {
    forall k :: k in values && k != key ==> Plain(k) && Plain(values[k])
  }

  /** The line printed for key and value is read as `entry`, or makes the document unreadable. */
  ghost predicate ReadsAs(key: string, value: string, entry: Option<(string, string)>) {
    forall after :: var s := Line(key, value) + after;
      && AfterChar(s, '"') == Some(s[1..])
      && ParseEntry(s[1..]) == if entry == None then None else Some((entry.value, after))
  }

  /** The document that `others` and one line more are read as. */
  function WithLine(entry: Option<(string, string)>, others: Option<map<string, string>>)
    : Option<map<string, string>>
  {
    if entry == None then None else AddEntry(entry.value, others)
  }

  lemma LineThenRest(key: string, value: string, entry: Option<(string, string)>, after: string)
    requires ReadsAs(key, value, entry)
    ensures ParseDocument(Line(key, value) + after) == WithLine(entry, ParseDocument(after))
  {
    var s := Line(key, value) + after;
    assert AfterChar(s, '"') == Some(s[1..]);
  }

  lemma PlainLineReads(key: string, value: string)
    requires Plain(key) && Plain(value)
    ensures ReadsAs(key, value, Some((key, value)))
  {
    forall after
      ensures var s := Line(key, value) + after;
              AfterChar(s, '"') == Some(s[1..]) && ParseEntry(s[1..]) == Some(((key, value), after))
    {
      LineParses(key, value, after);
    }
  }

  lemma WithLineCommutes(key: string, entry: Option<(string, string)>, values: map<string, string>, k: string)
    requires k in values && key in values && k != key
    ensures AddEntry((k, values[k]), WithLine(entry, Some((values - {k}) - {key})))
            == WithLine(entry, Some(values - {key}))
  {
    assert ((values - {k}) - {key})[k := values[k]] == values - {key};
    if entry.Some? {
      var (e, v) := entry.value;
      assert e != k ==> ((values - {k}) - {key})[e := v][k := values[k]] == (values - {key})[e := v];
    }
  }

  /** Among lines that are read as they were printed, one that is read as `entry`, or as nothing. */
  lemma {:induction false} LinesAround(keys: seq<string>, values: map<string, string>, key: string,
                                       entry: Option<(string, string)>)
    requires Enumerates(keys, values.Keys) && key in values && OthersPlain(values, key)
    requires ReadsAs(key, values[key], entry)
    ensures ParseDocument(Lines(keys, values)) == WithLine(entry, Some(values - {key}))
  {
    var k := keys[0];
    var others := values - {k};
    var after := Lines(keys[1..], values);
    EnumerationTail(keys, values.Keys);
    assert others.Keys == values.Keys - {k};
    LinesIgnoreOthers(keys[1..], values, others);
    assert k in values && Lines(keys, values) == Line(k, values[k]) + after;
    hide ParseDocument, Lines, Line, ReadsAs, Enumerates;
    if k == key {
      LinesParse(keys[1..], others);
      LineThenRest(k, values[k], entry, after);
    } else {
      PlainLineReads(k, values[k]);
      LineThenRest(k, values[k], Some((k, values[k])), after);
      LinesAround(keys[1..], others, key, entry);
      WithLineCommutes(key, entry, values, k);
    }
  }

  lemma OneOddLine(routes: map<string, ProfileRoute>, key: string, entry: Option<(string, string)>)
    requires key in routes && OthersPlain(ValuesOf(routes), key) && ReadsAs(key, WrittenValue(routes[key]), entry)
    ensures ParseDocument(FileText(routes)) == WithLine(entry, Some(ValuesOf(routes) - {key}))
  {
    var keys := BodyParses(routes);
    hide ParseDocument, FileText, Lines, WrittenValue, ReadsAs, OthersPlain;
    LinesAround(keys, ValuesOf(routes), key, entry);
  }

  // ---------- a malformed line ----------

  lemma {:induction false} AfterBlanksAdd(a: string, b: string)
    ensures AfterBlanks(a + b) == if AfterBlanks(a) == [] then AfterBlanks(b) else AfterBlanks(a) + b
  {
    if a == [] {
      assert a + b == b;
    } else {
      assert (a + b)[1..] == a[1..] + b;
      if IsBlank(a[0]) { AfterBlanksAdd(a[1..], b); }
    }
  }

  /** A key with a quote in it, behind which no equals sign comes, with or without blanks before it. */
  predicate BreaksLine(key: string, before: string, behind: string) {
    && key == before + ['"'] + behind && Plain(before)
    && (AfterBlanks(behind) != [] ==> AfterBlanks(behind)[0] != '=')
  }

  lemma BrokenLine(key: string, before: string, behind: string, value: string, after: string)
    requires BreaksLine(key, before, behind)
    ensures var s := Line(key, value) + after; AfterChar(s, '"') == Some(s[1..]) && ParseEntry(s[1..]) == None
  {
    var s := Line(key, value) + after;
    var end := "\" = \"" + (value + "\"\n") + after;
    assert s[1..] == before + ['"'] + (behind + end);
    UnquotePlain(before, behind + end);
    AfterBlanksAdd(behind, end);
    assert AfterBlanks(end) == end;
  }

  /** Among entries that need no escape, a single registered email with a quote in it, behind which
      no equals sign comes, makes the reader reject the whole file: every route is lost. */
  lemma QuotedKeyLosesTable(t: Table, order: seq<string>, compile: Compiler,
                            key: string, before: string, behind: string)
    requires key in t.routes && BreaksLine(key, before, behind) && OthersPlain(ValuesOf(t.routes), key)
    ensures Reloaded(t, order, compile) == Table(map[], [])
  {
    var value := WrittenValue(t.routes[key]);
    forall after
      ensures var s := Line(key, value) + after; AfterChar(s, '"') == Some(s[1..]) && ParseEntry(s[1..]) == None
    {
      BrokenLine(key, before, behind, value, after);
    }
    OneOddLine(t.routes, key, None);
    NoPatterns(order, map[], compile);
  }

  // ---------- a key that is read as another entry ----------

  predicate Blanks(s: string) {
    forall c :: c in s ==> IsBlank(c)
  }

  /** The parts of a key that, printed between quotes, spells a whole entry with a comment behind. */
  datatype Spelling = Spelling(name: string, gap1: string, gap2: string, value: string, gap3: string, comment: string)
  {
    function RightOfName(end: string): string {
      gap1 + (['='] + (gap2 + (['"'] + (value + ['"'] + (gap3 + (['#'] + (comment + end)))))))
    }

    function Key(): string {
      name + ['"'] + RightOfName("")
    }

    predicate Valid() {
      Plain(name) && Plain(value) && Blanks(gap1) && Blanks(gap2) && Blanks(gap3) && AllInComment(comment)
    }
  }

  lemma {:induction false} BlanksSkipped(gap: string, rest: string)
    requires Blanks(gap) && rest != [] && !IsBlank(rest[0])
    ensures AfterBlanks(gap + rest) == rest
  {
    if gap == [] {
      assert gap + rest == rest;
    } else {
      assert gap[0] in gap && (gap + rest)[1..] == gap[1..] + rest;
      BlanksSkipped(gap[1..], rest);
    }
  }

  lemma CharAfterGap(gap: string, c: char, rest: string)
    requires Blanks(gap) && !IsBlank(c)
    ensures AfterChar(gap + ([c] + rest), c) == Some(rest)
  {
    BlanksSkipped(gap, [c] + rest);
    assert ([c] + rest)[1..] == rest;
  }

  lemma CommentEndsLine(gap: string, comment: string, after: string)
    requires Blanks(gap) && AllInComment(comment)
    ensures AfterLine(gap + (['#'] + (comment + ("\n" + after)))) == Some(after)
  {
    var line := ['#'] + (comment + ("\n" + after));
    BlanksSkipped(gap, line);
    assert line[1..] == comment + ("\n" + after);
    AfterCommentAt(comment, after);
  }

  lemma SpelledValueParses(e: Spelling, end: string, after: string)
    requires e.Valid() && AllInComment(end)
    ensures ParseValue(e.RightOfName(end + ("\n" + after))) == Some((e.value, after))
  {
    var line := e.gap3 + (['#'] + (e.comment + (end + ("\n" + after))));
    assert e.comment + (end + ("\n" + after)) == (e.comment + end) + ("\n" + after);
    CommentEndsLine(e.gap3, e.comment + end, after);
    UnquotePlain(e.value, line);
    hide Unquote, AfterLine, AfterChar;
    CharAfterGap(e.gap2, '"', e.value + ['"'] + line);
    CharAfterGap(e.gap1, '=', e.gap2 + (['"'] + (e.value + ['"'] + line)));
  }

  lemma RightOfNameExtends(e: Spelling, end: string)
    ensures e.RightOfName("") + end == e.RightOfName(end)
  {
    assert e.comment + "" == e.comment;
    assert (['#'] + e.comment) + end == ['#'] + (e.comment + end);
  }

  lemma SpelledLine(e: Spelling, value: string, after: string)
    ensures Line(e.Key(), value) + after
            == ['"'] + (e.name + ['"'] + e.RightOfName(("\" = \"" + (value + "\"")) + ("\n" + after)))
  {
    var end := ("\" = \"" + (value + "\"")) + ("\n" + after);
    RightOfNameExtends(e, end);
    var right := e.RightOfName("");
    assert Line(e.Key(), value) + after == ['"'] + (e.name + ['"'] + right + end);
  }

  lemma SpelledLineReads(e: Spelling, value: string)
    requires e.Valid() && AllInComment(value)
    ensures ReadsAs(e.Key(), value, Some((e.name, e.value)))
  {
    var end := "\" = \"" + (value + "\"");
    assert AllInComment(end);
    forall after
      ensures var s := Line(e.Key(), value) + after;
              AfterChar(s, '"') == Some(s[1..]) && ParseEntry(s[1..]) == Some(((e.name, e.value), after))
    {
      var right := e.RightOfName(end + ("\n" + after));
      SpelledLine(e, value, after);
      SpelledValueParses(e, end, after);
      UnquotePlain(e.name, right);
      hide ParseValue, Unquote, Line;
      assert (['"'] + (e.name + ['"'] + right))[1..] == e.name + ['"'] + right;
    }
  }

  /** Among entries that need no escape, a key that spells an entry is read as that entry, unless its
      name is registered too: then the name is there twice and the reader rejects the whole file. */
  lemma SpelledKeyReadsAsEntry(routes: map<string, ProfileRoute>, e: Spelling)
    requires e.Valid() && e.Key() in routes && AllInComment(WrittenValue(routes[e.Key()]))
    requires OthersPlain(ValuesOf(routes), e.Key())
    ensures ParseDocument(FileText(routes))
            == if e.name in routes then None
               else Some((ValuesOf(routes) - {e.Key()})[e.name := e.value])
  {
    NameIsNotKey(e);
    SpelledLineReads(e, WrittenValue(routes[e.Key()]));
    hide ParseDocument, FileText, WrittenValue, ReadsAs, OthersPlain;
    OneOddLine(routes, e.Key(), Some((e.name, e.value)));
  }

  lemma NameIsNotKey(e: Spelling)
    ensures e.name != e.Key()
  {
    assert |e.name| < |e.Key()|;
  }

  /** What the reload makes of one entry of the document. */
  lemma ReloadedEntry(t: Table, order: seq<string>, compile: Compiler, parsed: map<string, string>, key: string)
    requires ParseDocument(FileText(t.routes)) == Some(parsed)
    ensures var after := Reloaded(t, order, compile).routes;
            && (key in after <==> key in parsed && !IsRegexPattern(key) && ReadValue(key, parsed[key]).Some?)
            && (key in after ==> after[key] == ReadValue(key, parsed[key]).value)
  {
  }

  /** The entry filed under a key that spells another entry is lost, and a route for that other email
      is there after the reload, although nobody registered it. */
  lemma SpelledKeyComesBackAsOther(t: Table, order: seq<string>, compile: Compiler, e: Spelling)
    requires WellFormed(t) && e.Valid() && e.Key() in t.routes && e.name !in t.routes
    requires AllInComment(WrittenValue(t.routes[e.Key()])) && OthersPlain(ValuesOf(t.routes), e.Key())
    ensures var after := Reloaded(t, order, compile).routes;
            && e.Key() !in after
            && (!IsRegexPattern(e.name) && ReadValue(e.name, e.value).Some? ==>
                  e.name in after && after[e.name] == ReadValue(e.name, e.value).value)
            && forall k :: k in t.routes && k != e.Key() ==>
                 (EntryKept(t.routes, after, k) <==> EntrySurvives(k, t.routes[k]))
  {
    SpelledKeyReadsAsEntry(t.routes, e);
    NameIsNotKey(e);
    var parsed := (ValuesOf(t.routes) - {e.Key()})[e.name := e.value];
    var after := Reloaded(t, order, compile).routes;
    hide Reloaded, ParseDocument, FileText, ReadValue, OthersPlain;
    ReloadedEntry(t, order, compile, parsed, e.Key());
    ReloadedEntry(t, order, compile, parsed, e.name);
    forall k | k in t.routes && k != e.Key()
      ensures EntryKept(t.routes, after, k) <==> EntrySurvives(k, t.routes[k])
    {
      ReloadedEntry(t, order, compile, parsed, k);
      RouteReloads(t.routes[k]);
    }
  }
}
