/** What the writer leaves out: printed with TOML's escapes, every text is read back as itself. */
module Quoting {
  import opened Options
  import opened Text
  import opened RoutesFile

  function HexChar(n: nat): char
    requires n < 16
  {
    if n < 10 then '0' + n as char else 'A' + (n - 10) as char
  }

  /** A character of a basic string, escaped where TOML has a short escape or requires one. */
  function QuotedChar(c: char): string {
    if c == '"' then "\\\""
    else if c == '\\' then "\\\\"
    else if c == '\U{0008}' then "\\b"
    else if c == '\t' then "\\t"
    else if c == '\n' then "\\n"
    else if c == '\U{000C}' then "\\f"
    else if c == '\r' then "\\r"
    else if NeedsEscape(c) then "\\u00" + [HexChar(c as int / 16), HexChar(c as int % 16)]
    else [c]
  }

  function Quoted(s: string): string {
    if s == [] then [] else QuotedChar(s[0]) + Quoted(s[1..])
  }

  lemma HexSnoc(s: string, value: nat, digit: nat)
    requires HexValue(s) == Some(value) && digit < 16
    ensures HexValue(s + [HexChar(digit)]) == Some(16 * value + digit)
  {
    assert (s + [HexChar(digit)])[..|s|] == s;
  }

  lemma HexReads(high: nat, low: nat)
    requires high < 16 && low < 16
    ensures HexValue(['0', '0', HexChar(high), HexChar(low)]) == Some(16 * high + low)
  {
    HexSnoc([], 0, 0);
    HexSnoc(['0'], 0, 0);
    HexSnoc(['0', '0'], 0, high);
    assert ['0', '0'] + [HexChar(high)] == ['0', '0', HexChar(high)];
    HexSnoc(['0', '0', HexChar(high)], high, low);
    assert ['0', '0', HexChar(high)] + [HexChar(low)] == ['0', '0', HexChar(high), HexChar(low)];
  }

  lemma ControlReads(c: char, t: string)
    requires c as int < 0x80
    ensures Escape("u00" + [HexChar(c as int / 16), HexChar(c as int % 16)] + t) == Some((c, t))
  {
    var digits := ['0', '0', HexChar(c as int / 16), HexChar(c as int % 16)];
    var s := "u00" + [HexChar(c as int / 16), HexChar(c as int % 16)] + t;
    HexReads(c as int / 16, c as int % 16);
    hide HexValue;
    assert s[1..] == digits + t && (digits + t)[..4] == digits && (digits + t)[4..] == t;
  }

  /** One quoted character is read as that character, whatever follows it. */
  lemma CharReads(c: char, t: string)
    ensures Unquote(QuotedChar(c) + t)
            == match Unquote(t)
               case None => None
               case Some((value, after)) => Some(([c] + value, after))
  {
    var q := QuotedChar(c);
    var s := q + t;
    assert s[1..] == q[1..] + t;
    if |q| == 2 {
      assert s[1..] == [q[1]] + t && s[1..][1..] == t;
    } else if |q| == 1 {
      assert s[1..] == t;
    } else {
      assert q[1..] == "u00" + [HexChar(c as int / 16), HexChar(c as int % 16)];
      ControlReads(c, t);
      hide Escape;
    }
  }

  /** Every text, properly escaped and printed between quotes, is read back as itself. */
  lemma {:induction false} QuotedReads(s: string, after: string)
    ensures Unquote(Quoted(s) + ['"'] + after) == Some((s, after))
  {
    if s == [] {
      assert (Quoted(s) + ['"'] + after)[1..] == after;
    } else {
      QuotedReads(s[1..], after);
      hide Unquote;
      CharReads(s[0], Quoted(s[1..]) + ['"'] + after);
      assert Quoted(s) + ['"'] + after == QuotedChar(s[0]) + (Quoted(s[1..]) + ['"'] + after);
      assert s == [s[0]] + s[1..];
    }
  }
}
