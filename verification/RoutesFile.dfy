/** The text of the routes file: what `write_current_routes` prints and what the TOML reader
    makes of it. Of TOML v1.0.0, the reader models lines `"key" = "value"` with basic strings, blank
    lines, and blanks and comments wherever the sections Comment and Key/Value Pair allow them. */
module RoutesFile {
  import opened Options
  import opened Text
  import opened Route
  import opened KeyOrder

  // ---------- basic strings ----------

  /** Characters a TOML basic string cannot hold as themselves. */
  predicate NeedsEscape(c: char) {
    c == '"' || c == '\\' || (c < ' ' && c != '\t') || c as int == 0x7F
  }

  predicate Plain(s: string) {
    forall c :: c in s ==> !NeedsEscape(c)
  }

  function HexDigit(c: char): Option<nat> {
    if '0' <= c <= '9' then Some(c as int - '0' as int)
    else if 'a' <= c <= 'f' then Some(c as int - 'a' as int + 10)
    else if 'A' <= c <= 'F' then Some(c as int - 'A' as int + 10)
    else None
  }

  function HexValue(s: string): Option<nat> {
    if s == [] then Some(0)
    else match (HexValue(s[..|s| - 1]), HexDigit(s[|s| - 1]))
      case (Some(high), Some(low)) => Some(high * 16 + low)
      case _ => None
  }

  function UnicodeEscape(s: string, digits: nat): (r: Option<(char, string)>)
    ensures r.Some? ==> |r.value.1| <= |s|
  {
    if |s| < digits then None
    else match HexValue(s[..digits])
      case None => None
      case Some(n) =>
        if n < 0xD800 || 0xE000 <= n < 0x11_0000 then Some((n as char, s[digits..])) else None
  }

  /** The escape sequence after a backslash, and what follows it. */
  function Escape(s: string): (r: Option<(char, string)>)
    ensures r.Some? ==> |r.value.1| < |s|
  {
    if s == [] then None
    else match s[0]
      case 'b' => Some(('\U{0008}', s[1..]))
      case 't' => Some(('\t', s[1..]))
      case 'n' => Some(('\n', s[1..]))
      case 'f' => Some(('\U{000C}', s[1..]))
      case 'r' => Some(('\r', s[1..]))
      case '"' => Some(('"', s[1..]))
      case '\\' => Some(('\\', s[1..]))
      case 'u' => UnicodeEscape(s[1..], 4)
      case 'U' => UnicodeEscape(s[1..], 8)
      case _ => None
  }

  /** Reads a basic string after its opening quote: its value, and what follows the closing quote.
      The value and the rest never outgrow the text, and fill it only when nothing was escaped. */
  function Unquote(s: string): (r: Option<(string, string)>)
    ensures r.Some? ==> |r.value.0| + 1 + |r.value.1| <= |s|
    ensures r.Some? && |r.value.0| + 1 + |r.value.1| == |s| ==> Plain(r.value.0)
    decreases |s|
  {
    if s == [] then None
    else if s[0] == '"' then Some(("", s[1..]))
    else if s[0] == '\\' then
      match Escape(s[1..])
      case None => None
      case Some((c, rest)) =>
        (match Unquote(rest)
         case None => None
         case Some((value, after)) => Some(([c] + value, after)))
    else if NeedsEscape(s[0]) then None
    else match Unquote(s[1..])
      case None => None
      case Some((value, after)) => Some(([s[0]] + value, after))
  }

  lemma {:induction false} UnquotePlain(s: string, after: string)
    requires Plain(s)
    ensures Unquote(s + ['"'] + after) == Some((s, after))
  {
    var t := s + ['"'] + after;
    if s == [] {
      assert t[1..] == after;
    } else {
      assert t[1..] == s[1..] + ['"'] + after;
      assert s == [s[0]] + s[1..] && s[0] in s;
      UnquotePlain(s[1..], after);
    }
  }

  /** Printed between quotes, a text reads back as itself exactly when it needs no escape. */
  lemma QuotedReadsBack(s: string, after: string)
    ensures Unquote(s + ['"'] + after) == Some((s, after)) <==> Plain(s)
  {
    if Plain(s) { UnquotePlain(s, after); }
  }

  // ---------- lines and the document ----------

  const COMMENT1 := "# Auto-generated by aimail-bridge."
  const COMMENT2 := "# File changes take effect immediately."
  const HEADER := COMMENT1 + "\n" + COMMENT2 + "\n"

  predicate IsBlank(c: char) {
    c == ' ' || c == '\t'
  }

  function AfterBlanks(s: string): (r: string)
    ensures |r| <= |s|
    ensures r == [] || !IsBlank(r[0])
  {
    if s != [] && IsBlank(s[0]) then AfterBlanks(s[1..]) else s
  }

  /** Characters a comment may hold. */
  predicate InComment(c: char) {
    c == '\t' || (c >= ' ' && c as int != 0x7F)
  }

  /** What follows a line break or the end of the text. */
  function AfterBreak(s: string): (r: Option<string>)
    ensures r.Some? && s != [] ==> |r.value| < |s|
    ensures r.Some? && s == [] ==> r.value == []
  {
    if s == [] then Some([])
    else if s[0] == '\n' then Some(s[1..])
    else if |s| >= 2 && s[0] == '\r' && s[1] == '\n' then Some(s[2..])
    else None
  }

  function AfterComment(s: string): (r: Option<string>)
    ensures r.Some? ==> |r.value| <= |s|
  {
    if s != [] && InComment(s[0]) then AfterComment(s[1..]) else AfterBreak(s)
  }

  /** What follows a line of which only blanks and maybe a comment are left. */
  function AfterLine(s: string): (r: Option<string>)
    ensures r.Some? && s != [] ==> |r.value| < |s|
    ensures r.Some? && s == [] ==> r.value == []
  {
    var rest := AfterBlanks(s);
    if rest != [] && rest[0] == '#' then AfterComment(rest[1..]) else AfterBreak(rest)
  }

  /** What follows `c`, before which there may be blanks. */
  function AfterChar(s: string, c: char): (r: Option<string>)
    ensures r.Some? ==> |r.value| < |s|
  {
    var rest := AfterBlanks(s);
    if rest != [] && rest[0] == c then Some(rest[1..]) else None
  }

  /** The value of an entry, read after its key: the value, and what follows its line. */
  function ParseValue(s: string): (r: Option<(string, string)>)
    ensures r.Some? ==> |r.value.1| < |s|
  {
    match AfterChar(s, '=')
    case None => None
    case Some(right) =>
      match AfterChar(right, '"')
      case None => None
      case Some(quoted) =>
        match Unquote(quoted)
        case None => None
        case Some((value, rest)) =>
          match AfterLine(rest)
          case None => None
          case Some(after) => Some((value, after))
  }

  /** One `"key" = "value"` line, read after its first quote: the entry, and what follows the line. */
  function ParseEntry(s: string): (r: Option<((string, string), string)>)
    ensures r.Some? ==> |r.value.1| < |s|
  {
    match Unquote(s)
    case None => None
    case Some((key, afterKey)) =>
      match ParseValue(afterKey)
      case None => None
      case Some((value, after)) => Some(((key, value), after))
  }

  function AddEntry(entry: (string, string), others: Option<map<string, string>>): Option<map<string, string>> {
    if others == None || entry.0 in others.value then None else Some(others.value[entry.0 := entry.1])
  }

  /** The whole document; a malformed line or a repeated key makes it unreadable. */
  function ParseDocument(s: string): Option<map<string, string>>
    decreases |s|
  {
    if s == [] then Some(map[])
    else match AfterChar(s, '"')
      case Some(line) =>
        (match ParseEntry(line)
         case None => None
         case Some((entry, rest)) => AddEntry(entry, ParseDocument(rest)))
      case None =>
        match AfterLine(s)
        case None => None
        case Some(rest) => ParseDocument(rest)
  }

  function Line(key: string, value: string): string {
    "\"" + (key + ("\" = \"" + (value + "\"\n")))
  }

  function Lines(keys: seq<string>, values: map<string, string>): string {
    if keys == [] then ""
    else (if keys[0] in values then Line(keys[0], values[keys[0]]) else "") + Lines(keys[1..], values)
  }

  /** The values the routes are printed as. */
  function ValuesOf(routes: map<string, ProfileRoute>): map<string, string> {
    map k | k in routes :: WrittenValue(routes[k])
  }

  /** The file for a table whose keys were collected in the order `keys`. */
  function FileFor(keys: seq<string>, routes: map<string, ProfileRoute>): string {
    HEADER + Lines(SortKeys(keys), ValuesOf(routes))
  }

  /** The file for a table. */
  ghost function FileText(routes: map<string, ProfileRoute>): string {
    FileFor(AnEnumeration(routes.Keys), routes)
  }

  /** The text depends on the table alone, not on the order its keys were iterated in. */
  lemma FileIsCanonical(keys: seq<string>, routes: map<string, ProfileRoute>)
    requires Enumerates(keys, routes.Keys)
    ensures FileFor(keys, routes) == FileText(routes)
  {
    SortForgetsOrder(keys, AnEnumeration(routes.Keys), routes.Keys);
  }

  /** The file lists each registered email once, in ascending order. */
  lemma FileListsKeys(routes: map<string, ProfileRoute>) returns (keys: seq<string>)
    ensures Enumerates(keys, routes.Keys) && Sorted(keys)
    ensures FileText(routes) == HEADER + Lines(keys, ValuesOf(routes))
  {
    var all := AnEnumeration(routes.Keys);
    keys := SortKeys(all);
    SortEnumerates(all, routes.Keys);
  }

  // ---------- reading the written file ----------

  lemma PrintedValueParses(value: string, after: string)
    requires Plain(value)
    ensures ParseValue(" = \"" + (value + ("\"\n" + after))) == Some((value, after))
  {
    var quoted := value + ['"'] + ("\n" + after);
    var s := " = \"" + (value + ("\"\n" + after));
    assert AfterBlanks(s[1..]) == s[1..];
    assert AfterChar(s, '=') == Some(s[2..]);
    assert AfterBlanks(s[3..]) == s[3..];
    assert s[4..] == quoted;
    assert AfterChar(s[2..], '"') == Some(quoted);
    UnquotePlain(value, "\n" + after);
    assert ("\n" + after)[1..] == after;
  }

  lemma LineParses(key: string, value: string, after: string)
    requires Plain(key) && Plain(value)
    ensures var s := Line(key, value) + after;
            AfterChar(s, '"') == Some(s[1..]) && ParseEntry(s[1..]) == Some(((key, value), after))
  {
    var s := Line(key, value) + after;
    var tail := " = \"" + (value + ("\"\n" + after));
    assert s[1..] == key + ['"'] + tail;
    UnquotePlain(key, tail);
    PrintedValueParses(value, after);
  }

  predicate AllPlain(m: map<string, string>) {
    forall k :: k in m ==> Plain(k) && Plain(m[k])
  }

  lemma FirstLineParses(key: string, value: string, after: string, others: map<string, string>)
    requires Plain(key) && Plain(value) && ParseDocument(after) == Some(others) && key !in others
    ensures ParseDocument(Line(key, value) + after) == Some(others[key := value])
  {
    LineParses(key, value, after);
  }

  lemma {:induction false} LinesParse(keys: seq<string>, values: map<string, string>)
    requires Enumerates(keys, values.Keys) && AllPlain(values)
    ensures ParseDocument(Lines(keys, values)) == Some(values)
  {
    if keys == [] {
      assert values == map[];
    } else {
      var k := keys[0];
      var others := values - {k};
      EnumerationTail(keys, values.Keys);
      assert others.Keys == values.Keys - {k};
      LinesParse(keys[1..], others);
      LinesIgnoreOthers(keys[1..], values, others);
      FirstLineParses(k, values[k], Lines(keys[1..], values), others);
      assert others[k := values[k]] == values;
    }
  }

  lemma {:induction false} LinesIgnoreOthers(keys: seq<string>, a: map<string, string>, b: map<string, string>)
    requires forall k :: k in keys ==> k in a && k in b && a[k] == b[k]
    ensures Lines(keys, a) == Lines(keys, b)
  {
    if keys != [] { LinesIgnoreOthers(keys[1..], a, b); }
  }

  predicate AllInComment(s: string) {
    forall c :: c in s ==> InComment(c)
  }

  lemma {:induction false} AfterCommentAt(comment: string, after: string)
    requires AllInComment(comment)
    ensures AfterComment(comment + ("\n" + after)) == Some(after)
  {
    var s := comment + ("\n" + after);
    if comment == [] {
      assert s[0] == '\n' && s[1..] == after;
    } else {
      assert s[1..] == comment[1..] + ("\n" + after);
      assert comment[0] in comment;
      AfterCommentAt(comment[1..], after);
    }
  }

  lemma CommentSkipped(comment: string, after: string)
    requires comment != [] && comment[0] == '#' && AllInComment(comment)
    ensures ParseDocument(comment + ("\n" + after)) == ParseDocument(after)
  {
    AfterCommentAt(comment[1..], after);
    assert (comment + ("\n" + after))[1..] == comment[1..] + ("\n" + after);
  }

  /** Empty lines mean nothing, whichever line break they end in. */
  lemma EmptyLineSkipped(after: string)
    ensures ParseDocument("\n" + after) == ParseDocument("\r\n" + after) == ParseDocument(after)
  {
    assert ("\n" + after)[1..] == after && ("\r\n" + after)[2..] == after;
  }

  lemma FirstLineIsComment()
    ensures AllInComment(COMMENT1)
  {
  }

  lemma SecondLineIsComment()
    ensures AllInComment(COMMENT2)
  {
  }

  lemma HeaderSkipped(body: string)
    ensures ParseDocument(HEADER + body) == ParseDocument(body)
  {
    FirstLineIsComment();
    SecondLineIsComment();
    hide ParseDocument, AllInComment;
    Regroup(COMMENT1 + "\n" + COMMENT2, "\n", body);
    Regroup(COMMENT1 + "\n", COMMENT2, "\n" + body);
    Regroup(COMMENT1, "\n", COMMENT2 + ("\n" + body));
    CommentSkipped(COMMENT1, COMMENT2 + ("\n" + body));
    CommentSkipped(COMMENT2, body);
  }

  /** Reading the file the bridge wrote gives each key once, with its value, whenever no key and
      no value holds a character that TOML requires to be escaped. */
  lemma WrittenFileParses(routes: map<string, ProfileRoute>)
    requires AllPlain(ValuesOf(routes))
    ensures ParseDocument(FileText(routes)) == Some(ValuesOf(routes))
  {
    var keys := AnEnumeration(routes.Keys);
    assert ValuesOf(routes).Keys == routes.Keys;
    SortEnumerates(keys, routes.Keys);
    LinesParse(SortKeys(keys), ValuesOf(routes));
    HeaderSkipped(Lines(SortKeys(keys), ValuesOf(routes)));
  }
}
