/** What a reader can make of a written file whose keys or values hold characters that TOML requires
    to be escaped. The writer escapes nothing, so escapes in the text are accidents: each one costs
    a backslash and shortens what is read. */
module FileEscapes {
  import opened Options
  import opened Text
  import opened KeyOrder
  import opened Route
  import opened RoutesFile

  // ---------- counting ----------

  function Backslashes(s: string): nat {
    if s == [] then 0 else (if s[0] == '\\' then 1 else 0) + Backslashes(s[1..])
  }

  function Escapes(s: string): nat {
    if s == [] then 0 else (if NeedsEscape(s[0]) then 1 else 0) + Escapes(s[1..])
  }

  /** The characters other than blanks and line breaks, of which a reader may skip any number. */
  function Visible(s: string): nat {
    if s == [] then 0 else (if IsBlank(s[0]) || s[0] == '\n' then 0 else 1) + Visible(s[1..])
  }

  lemma {:induction false} CountsAdd(a: string, b: string)
    ensures Backslashes(a + b) == Backslashes(a) + Backslashes(b)
    ensures Escapes(a + b) == Escapes(a) + Escapes(b)
    ensures Visible(a + b) == Visible(a) + Visible(b)
  {
    if a == [] {
      assert a + b == b;
    } else {
      assert (a + b)[1..] == a[1..] + b;
      CountsAdd(a[1..], b);
    }
  }

  lemma {:induction false} CountsOf(s: string)
    ensures Backslashes(s) <= Escapes(s)
    ensures Escapes(s) == 0 <==> Plain(s)
    ensures Backslashes(s) == 0 <==> '\\' !in s
  {
    if s != [] {
      assert s == [s[0]] + s[1..];
      CountsOf(s[1..]);
    }
  }

  /** `b` holds no more than `a` of what the reader pays with. */
  predicate Within(b: string, a: string) {
    Backslashes(b) <= Backslashes(a) && Visible(b) <= Visible(a)
  }

  lemma SuffixCounts(s: string, n: nat)
    requires n <= |s|
    ensures Within(s[n..], s) && Escapes(s[n..]) <= Escapes(s)
  {
    assert s == s[..n] + s[n..];
    CountsAdd(s[..n], s[n..]);
  }

  lemma PrefixCounts(p: string, s: string)
    requires p <= s
    ensures Escapes(p) <= Escapes(s)
  {
    assert s == p + s[|p|..];
    CountsAdd(p, s[|p|..]);
  }

  // ---------- what reading one string costs the text ----------

  /** One more if reading the text took an escape. */
  function Surcharge(s: string): nat {
    if Plain(s) then 0 else 1
  }

  /** An escape sequence costs at least one visible character besides its backslash. */
  lemma EscapeCosts(s: string)
    requires Escape(s).Some?
    ensures var (_, rest) := Escape(s).value;
            |rest| < |s| && Within(rest, s) && Visible(rest) + 1 <= Visible(s)
  {
    var (_, rest) := Escape(s).value;
    EscapeIsSuffix(s);
    hide Escape;
    assert s[1..][|s| - 1 - |rest|..] == rest;
    SuffixCounts(s[1..], |s| - 1 - |rest|);
  }

  lemma EscapeIsSuffix(s: string)
    requires Escape(s).Some?
    ensures var (_, rest) := Escape(s).value; |rest| < |s| && rest == s[|s| - |rest|..]
    ensures !IsBlank(s[0]) && s[0] != '\n'
  {
  }

  lemma CountsCons(c: char, s: string)
    ensures Escapes([c] + s) == (if NeedsEscape(c) then 1 else 0) + Escapes(s)
    ensures Visible([c] + s) == (if IsBlank(c) || c == '\n' then 0 else 1) + Visible(s)
    ensures Plain([c] + s) <==> !NeedsEscape(c) && Plain(s)
  {
    assert ([c] + s)[1..] == s;
    CountsOf(s);
    CountsOf([c] + s);
  }

  /** Every character of the value that needs an escape was paid for with a backslash, and an escape
      takes up more of the text than the character it stands for. */
  lemma {:induction false} UnquoteCosts(s: string)
    requires Unquote(s).Some?
    ensures var (value, after) := Unquote(s).value;
            && Escapes(value) + Backslashes(after) <= Backslashes(s)
            && Visible(value) + Surcharge(value) + 1 + Visible(after) <= Visible(s)
    decreases |s|
  {
    if s[0] == '\\' {
      var (c, rest) := Escape(s[1..]).value;
      EscapeCosts(s[1..]);
      UnquoteCosts(rest);
      CountsCons(c, Unquote(rest).value.0);
    } else if s[0] != '"' {
      UnquoteCosts(s[1..]);
      CountsCons(s[0], Unquote(s[1..]).value.0);
    }
  }

  // ---------- what reading one line costs the text ----------

  lemma {:induction false} BlanksCost(s: string)
    ensures Visible(AfterBlanks(s)) == Visible(s) && Backslashes(AfterBlanks(s)) == Backslashes(s)
  {
    if s != [] && IsBlank(s[0]) { BlanksCost(s[1..]); }
  }

  lemma CharCosts(s: string, c: char)
    requires AfterChar(s, c).Some? && c in {'=', '"'}
    ensures Within(AfterChar(s, c).value, s) && Visible(AfterChar(s, c).value) + 1 <= Visible(s)
  {
    BlanksCost(s);
  }

  lemma BreakCosts(s: string)
    requires AfterBreak(s).Some?
    ensures Within(AfterBreak(s).value, s)
  {
    if s != [] { SuffixCounts(s, |s| - |AfterBreak(s).value|); }
  }

  lemma {:induction false} CommentCosts(s: string)
    requires AfterComment(s).Some?
    ensures Within(AfterComment(s).value, s)
  {
    if s != [] && InComment(s[0]) { CommentCosts(s[1..]); } else { BreakCosts(s); }
  }

  lemma LineEndCosts(s: string)
    requires AfterLine(s).Some?
    ensures Within(AfterLine(s).value, s)
  {
    var rest := AfterBlanks(s);
    BlanksCost(s);
    if rest != [] && rest[0] == '#' { CommentCosts(rest[1..]); } else { BreakCosts(rest); }
  }

  /** The cost of one entry: what is visible of its printed line, and more if anything was escaped. */
  function LineCost(key: string, value: string): nat {
    LineWeight(key, value) + Surcharge(key) + Surcharge(value)
  }

  function LineWeight(key: string, value: string): nat {
    Visible(key) + Visible(value) + 5
  }

  function EscapeCost(key: string, value: string): nat {
    Escapes(key) + Escapes(value)
  }

  function BackslashCost(key: string, value: string): nat {
    Backslashes(key) + Backslashes(value)
  }

  lemma ValueCosts(s: string)
    requires ParseValue(s).Some?
    ensures var (value, after) := ParseValue(s).value;
            && Escapes(value) + Backslashes(after) <= Backslashes(s)
            && Visible(value) + Surcharge(value) + 3 + Visible(after) <= Visible(s)
  {
    var right := AfterChar(s, '=').value;
    var quoted := AfterChar(right, '"').value;
    var (value, rest) := Unquote(quoted).value;
    hide AfterChar, Unquote, AfterLine, Visible, Backslashes, Escapes;
    CharCosts(s, '=');
    CharCosts(right, '"');
    UnquoteCosts(quoted);
    LineEndCosts(rest);
  }

  lemma EntryCosts(s: string)
    requires ParseEntry(s).Some?
    ensures var ((key, value), after) := ParseEntry(s).value;
            && EscapeCost(key, value) + Backslashes(after) <= Backslashes(s)
            && LineCost(key, value) + Visible(after) <= Visible(s) + 1
  {
    var (key, afterKey) := Unquote(s).value;
    hide Unquote, ParseValue, Visible, Backslashes, Escapes;
    UnquoteCosts(s);
    ValueCosts(afterKey);
  }

  // ---------- sums over the entries of a document ----------

  type Cost = (string, string) -> nat

  ghost function SumOf(f: Cost, keys: seq<string>, m: map<string, string>): nat
    requires forall k :: k in keys ==> k in m
  {
    if keys == [] then 0 else f(keys[0], m[keys[0]]) + SumOf(f, keys[1..], m)
  }

  function Without(keys: seq<string>, i: nat): seq<string>
    requires i < |keys|
  {
    keys[..i] + keys[i + 1..]
  }

  lemma {:induction false} SumPull(f: Cost, keys: seq<string>, m: map<string, string>, i: nat)
    requires i < |keys| && forall k :: k in keys ==> k in m
    ensures forall k :: k in Without(keys, i) ==> k in m
    ensures SumOf(f, keys, m) == f(keys[i], m[keys[i]]) + SumOf(f, Without(keys, i), m)
  {
    if i == 0 {
      assert Without(keys, 0) == keys[1..];
    } else {
      SumPull(f, keys[1..], m, i - 1);
      assert Without(keys, i) == [keys[0]] + Without(keys[1..], i - 1);
    }
  }

  lemma {:induction false} SumSame(f: Cost, keys: seq<string>, m: map<string, string>, n: map<string, string>)
    requires forall k :: k in keys ==> k in m && k in n && m[k] == n[k]
    ensures SumOf(f, keys, m) == SumOf(f, keys, n)
  {
    if keys != [] { SumSame(f, keys[1..], m, n); }
  }

  /** Where each cost is at least the other, and the sums are the other way round, both are equal. */
  lemma {:induction false} SumTight(
      f: Cost, m: map<string, string>, g: Cost, n: map<string, string>, keys: seq<string>)
    requires forall k :: k in keys ==> k in m && k in n && f(k, m[k]) >= g(k, n[k])
    ensures SumOf(f, keys, m) >= SumOf(g, keys, n)
    ensures SumOf(f, keys, m) <= SumOf(g, keys, n) ==> forall k :: k in keys ==> f(k, m[k]) == g(k, n[k])
  {
    if keys != [] {
      assert keys == [keys[0]] + keys[1..];
      SumTight(f, m, g, n, keys[1..]);
    }
  }

  ghost predicate Distinct(keys: seq<string>) {
    forall i, j :: 0 <= i < j < |keys| ==> keys[i] != keys[j]
  }

  lemma WithoutKeepsDistinct(keys: seq<string>, i: nat)
    requires i < |keys| && Distinct(keys)
    ensures Distinct(Without(keys, i)) && keys[i] !in Without(keys, i)
    ensures forall k :: k in Without(keys, i) ==> k in keys
  {
  }

  /** Taking one entry of the document off the sum. */
  lemma EntryOffSum(f: Cost, keys: seq<string>, others: map<string, string>, key: string, value: string)
    returns (rest: seq<string>)
    requires Distinct(keys) && key !in others && forall k :: k in keys ==> k in others || k == key
    ensures Distinct(rest) && forall k :: k in rest ==> k in others
    ensures SumOf(f, keys, others[key := value]) <= f(key, value) + SumOf(f, rest, others)
  {
    var m := others[key := value];
    rest := keys;
    if key in keys {
      var i :| 0 <= i < |keys| && keys[i] == key;
      WithoutKeepsDistinct(keys, i);
      SumPull(f, keys, m, i);
      rest := Without(keys, i);
    }
    SumSame(f, rest, m, others);
  }

  /** Over a whole document: what needs escapes in it is paid for in backslashes, and its entries
      take up at least what is visible of their lines, and more if anything was escaped. */
  lemma {:induction false} DocumentCosts(s: string, m: map<string, string>, keys: seq<string>)
    requires ParseDocument(s) == Some(m) && Distinct(keys) && forall k :: k in keys ==> k in m
    ensures SumOf(EscapeCost, keys, m) <= Backslashes(s)
    ensures SumOf(LineCost, keys, m) <= Visible(s)
    decreases |s|
  {
    assert keys != [] ==> keys[0] in m;
    if s == [] {
    } else if AfterChar(s, '"').Some? {
      DocumentEntryCosts(s, m, keys);
    } else {
      LineEndCosts(s);
      DocumentCosts(AfterLine(s).value, m, keys);
    }
  }

  lemma {:induction false} DocumentEntryCosts(s: string, m: map<string, string>, keys: seq<string>)
    requires ParseDocument(s) == Some(m) && Distinct(keys) && forall k :: k in keys ==> k in m
    requires AfterChar(s, '"').Some?
    ensures SumOf(EscapeCost, keys, m) <= Backslashes(s)
    ensures SumOf(LineCost, keys, m) <= Visible(s)
    decreases |s|, 0
  {
    var line := AfterChar(s, '"').value;
    var ((key, value), rest) := ParseEntry(line).value;
    var others := ParseDocument(rest).value;
    assert m == others[key := value] && key !in others;
    hide ParseDocument, ParseEntry, AfterChar, EscapeCost, LineCost;
    CharCosts(s, '"');
    EntryCosts(line);
    var escapeKeys := EntryOffSum(EscapeCost, keys, others, key, value);
    DocumentCosts(rest, others, escapeKeys);
    var lineKeys := EntryOffSum(LineCost, keys, others, key, value);
    DocumentCosts(rest, others, lineKeys);
  }

  // ---------- the cost of the written text ----------

  lemma {:induction false} LinesCosts(keys: seq<string>, values: map<string, string>)
    requires forall k :: k in keys ==> k in values
    ensures SumOf(LineWeight, keys, values) == Visible(Lines(keys, values))
    ensures SumOf(BackslashCost, keys, values) == Backslashes(Lines(keys, values))
  {
    if keys != [] {
      LinesCosts(keys[1..], values);
      LineCosts(keys[0], values[keys[0]]);
      CountsAdd(Line(keys[0], values[keys[0]]), Lines(keys[1..], values));
    }
  }

  lemma LineCosts(key: string, value: string)
    ensures Visible(Line(key, value)) == LineWeight(key, value)
    ensures Backslashes(Line(key, value)) == BackslashCost(key, value)
  {
    var separator := "\" = \"";
    CountsAdd("\"", key + (separator + (value + "\"\n")));
    CountsAdd(key, separator + (value + "\"\n"));
    CountsAdd(separator, value + "\"\n");
    CountsAdd(value, "\"\n");
    PunctuationCosts();
  }

  lemma PunctuationCosts()
    ensures Visible("\"") == 1 && Visible("\" = \"") == 3 && Visible("\"\n") == 1
    ensures Backslashes("\"") == Backslashes("\" = \"") == Backslashes("\"\n") == 0
  {
    CountsOf("\"");
    CountsOf("\" = \"");
    CountsOf("\"\n");
  }

  lemma BodyParses(routes: map<string, ProfileRoute>) returns (keys: seq<string>)
    ensures Enumerates(keys, routes.Keys) && ValuesOf(routes).Keys == routes.Keys
    ensures ParseDocument(FileText(routes)) == ParseDocument(Lines(keys, ValuesOf(routes)))
  {
    var all := AnEnumeration(routes.Keys);
    keys := SortKeys(all);
    SortEnumerates(all, routes.Keys);
    HeaderSkipped(Lines(keys, ValuesOf(routes)));
  }

  lemma ReadBackIsPlain(keys: seq<string>, values: map<string, string>)
    requires Enumerates(keys, values.Keys) && ParseDocument(Lines(keys, values)) == Some(values)
    ensures AllPlain(values)
  {
    hide ParseDocument, Lines;
    LinesCosts(keys, values);
    DocumentCosts(Lines(keys, values), values, keys);
    hide SumOf, Backslashes;
    SumTight(LineCost, values, LineWeight, values, keys);
  }

  /** Reading the file the bridge wrote gives each key with its value exactly when no key and no
      value holds a character that TOML requires to be escaped. */
  lemma WrittenFileParsesIff(routes: map<string, ProfileRoute>)
    ensures ParseDocument(FileText(routes)) == Some(ValuesOf(routes)) <==> AllPlain(ValuesOf(routes))
  {
    hide *;
    var values := ValuesOf(routes);
    if AllPlain(values) {
      WrittenFileParses(routes);
    }
    if ParseDocument(FileText(routes)) == Some(values) {
      var keys := BodyParses(routes);
      ReadBackIsPlain(keys, values);
    }
  }
}
