/** The string operations of the Rust standard library that the bridge relies on:
    searching, splitting, trimming, and decimal printing and parsing. */
module Options {
  datatype Option<+T> = None | Some(value: T)
}

module Text {
  import opened Options

  // ---------- searching and splitting ----------

  /** `p` occurs in `s` at index `i`. */
  predicate OccursAt(s: string, p: string, i: nat) {
    i + |p| <= |s| && s[i..i + |p|] == p
  }

  predicate EndsWith(s: string, suffix: string) {
    |suffix| <= |s| && s[|s| - |suffix|..] == suffix
  }

  /** Index of the first `c`, or the length of `s` when there is none (`str::find`). */
  function IndexOf(s: string, c: char): (i: nat)
    ensures i <= |s|
    ensures i < |s| ==> s[i] == c
    ensures forall j :: 0 <= j < i ==> s[j] != c
  {
    if s == [] || s[0] == c then 0 else 1 + IndexOf(s[1..], c)
  }

  /** Index of the last `c`, or -1 (`str::rsplit_once` splits there). */
  function LastIndexOf(s: string, c: char): (i: int)
    ensures -1 <= i < |s|
    ensures i >= 0 ==> s[i] == c
    ensures forall j :: i < j < |s| ==> s[j] != c
  {
    if s == [] then -1
    else if s[|s| - 1] == c then |s| - 1
    else LastIndexOf(s[..|s| - 1], c)
  }

  lemma CharAt(s: string, c: char, i: nat)
    ensures OccursAt(s, [c], i) <==> i < |s| && s[i] == c
  {
    if i < |s| { assert s[i..i + 1] == [s[i]]; }
  }

  /** The first occurrence of `p` at or after `from`. */
  function FindFrom(s: string, p: string, from: nat): (r: Option<nat>)
    requires from <= |s|
    ensures r.Some? ==> from <= r.value && OccursAt(s, p, r.value)
                        && forall j: nat :: from <= j < r.value ==> !OccursAt(s, p, j)
    ensures r.None? ==> forall j: nat :: from <= j ==> !OccursAt(s, p, j)
    decreases |s| - from
  {
    if OccursAt(s, p, from) then Some(from)
    else if from == |s| then None
    else FindFrom(s, p, from + 1)
  }

  /** `str::split_once`: the parts around the first occurrence of `sep`. */
  function SplitOnce(s: string, sep: string): (r: Option<(string, string)>)
    ensures r.Some? ==> s == r.value.0 + sep + r.value.1
                        && forall j: nat :: j < |r.value.0| ==> !OccursAt(s, sep, j)
    ensures r.None? ==> forall j: nat :: !OccursAt(s, sep, j)
  {
    match FindFrom(s, sep, 0)
    case None => None
    case Some(i) => Some((s[..i], s[i + |sep|..]))
  }

  /** The split point is determined: whatever precedes a first occurrence is the left part. */
  lemma SplitOnceAt(s: string, sep: string, left: string, right: string)
    requires sep != [] && s == left + sep + right
    requires forall j: nat :: j < |left| ==> !OccursAt(s, sep, j)
    ensures SplitOnce(s, sep) == Some((left, right))
  {
    assert s[|left|..|left| + |sep|] == sep;
    assert OccursAt(s, sep, |left|);
    assert FindFrom(s, sep, 0) == Some(|left|);
    assert s[..|left|] == left && s[|left| + |sep|..] == right;
  }

  /** `str::rsplit_once(c)`: the parts around the last `c`. */
  function RSplitOnce(s: string, c: char): (r: Option<(string, string)>)
    ensures r.Some? ==> s == r.value.0 + [c] + r.value.1 && c !in r.value.1
    ensures r.None? <==> c !in s
  {
    var i := LastIndexOf(s, c);
    if i < 0 then None else Some((s[..i], s[i + 1..]))
  }

  lemma RSplitOnceAt(s: string, c: char, left: string, right: string)
    requires s == left + [c] + right && c !in right
    ensures RSplitOnce(s, c) == Some((left, right))
  {
    var i := LastIndexOf(s, c);
    assert s[|left|] == c;
    forall j | |left| < j < |s| ensures s[j] != c {
      assert s[j] == right[j - |left| - 1];
    }
    assert i == |left|;
    assert s[..i] == left && s[i + 1..] == right;
  }

  lemma Regroup(a: string, b: string, c: string)
    ensures a + b + c == a + (b + c)
  {
  }

  // ---------- trimming ----------

  /** The Unicode White_Space property, which `str::trim` uses. */
  predicate IsWhite(c: char) {
    var n := c as int;
    || 9 <= n <= 13 || n == 0x20 || n == 0x85 || n == 0xA0 || n == 0x1680
    || 0x2000 <= n <= 0x200A || n == 0x2028 || n == 0x2029 || n == 0x202F || n == 0x205F || n == 0x3000
  }

  predicate Trimmed(s: string) {
    s == [] || (!IsWhite(s[0]) && !IsWhite(s[|s| - 1]))
  }

  function TrimStart(s: string): (r: string)
    ensures r == [] || !IsWhite(r[0])
    ensures s != [] && !IsWhite(s[0]) ==> r == s
  {
    if s != [] && IsWhite(s[0]) then TrimStart(s[1..]) else s
  }

  function TrimEnd(s: string): (r: string)
    ensures r == [] || !IsWhite(r[|r| - 1])
    ensures r <= s
    ensures s != [] && !IsWhite(s[|s| - 1]) ==> r == s
  {
    if s != [] && IsWhite(s[|s| - 1]) then
      TrimEnd(s[..|s| - 1])
    else s
  }

  /** `str::trim`. */
  function Trim(s: string): (r: string)
    ensures Trimmed(r)
    ensures Trimmed(s) ==> r == s
  {
    TrimEnd(TrimStart(s))
  }

  /** `str::trim_end_matches(c)`. */
  function TrimEndMatches(s: string, c: char): (r: string)
    ensures r <= s
    ensures r == [] || r[|r| - 1] != c
    ensures forall k :: |r| <= k < |s| ==> s[k] == c
  {
    if s != [] && s[|s| - 1] == c then TrimEndMatches(s[..|s| - 1], c) else s
  }

  // ---------- decimal numbers ----------

  predicate IsDigit(c: char) { '0' <= c <= '9' }

  predicate AllDigits(s: string) { forall i :: 0 <= i < |s| ==> IsDigit(s[i]) }

  function DigitsValue(s: string): nat
    requires AllDigits(s)
  {
    if s == [] then 0 else DigitsValue(s[..|s| - 1]) * 10 + (s[|s| - 1] as int - '0' as int)
  }

  /** Decimal `Display` of an unsigned integer. */
  function PrintNat(n: nat): (s: string)
    ensures s != [] && AllDigits(s)
    ensures DigitsValue(s) == n
  {
    if n < 10 then [('0' as int + n) as char]
    else
      var front := PrintNat(n / 10);
      var s := front + [('0' as int + n % 10) as char];
      assert s[..|s| - 1] == front;
      s
  }

  /** `FromStr` of an unsigned integer type with the given maximum: an optional `+`, then digits. */
  function ParseUInt(s: string, max: nat): (r: Option<nat>)
    ensures r.Some? ==> r.value <= max && s != [] && IsDigit(s[|s| - 1])
    ensures r.Some? ==> forall c :: c in s ==> c == '+' || IsDigit(c)
  {
    var t := if s != [] && s[0] == '+' then s[1..] else s;
    if t == [] || !AllDigits(t) || DigitsValue(t) > max then None else Some(DigitsValue(t))
  }

  lemma {:induction false} LeadingZero(s: string)
    requires AllDigits(s)
    ensures AllDigits("0" + s) && DigitsValue("0" + s) == DigitsValue(s)
  {
    var z := "0" + s;
    forall i | 0 <= i < |z| ensures IsDigit(z[i]) { if i > 0 { assert z[i] == s[i - 1]; } }
    if s == [] {
      assert z[..0] == [];
    } else {
      LeadingZero(s[..|s| - 1]);
      assert z[..|z| - 1] == "0" + s[..|s| - 1];
    }
  }

  /** Numbers are read in decimal, with or without a plus sign or leading zeros, and only up to the
      maximum; a text that is empty or only a sign is none. */
  lemma NumbersRead(n: nat, max: nat)
    ensures var s, r := PrintNat(n), if n <= max then Some(n) else None;
            ParseUInt(s, max) == ParseUInt("+" + s, max) == ParseUInt("0" + s, max) == r
    ensures ParseUInt("", max) == ParseUInt("+", max) == None
  {
    var s := PrintNat(n);
    assert IsDigit(s[0]) && ("+" + s)[1..] == s;
    LeadingZero(s);
  }

  type Port = n: int | 0 <= n < 0x1_0000

  function ParsePort(s: string): (r: Option<Port>)
    ensures r.Some? ==> s != [] && IsDigit(s[|s| - 1]) && forall c :: c in s ==> c == '+' || IsDigit(c)
  {
    match ParseUInt(s, 0xFFFF)
    case None => None
    case Some(n) => Some(n)
  }

  /** Printing a port and parsing it back gives the port. */
  lemma PortRoundTrip(p: Port)
    ensures ParsePort(PrintNat(p)) == Some(p)
    ensures ':' !in PrintNat(p) && '/' !in PrintNat(p) && ']' !in PrintNat(p)
    ensures !IsWhite(PrintNat(p)[|PrintNat(p)| - 1])
  {
    var s := PrintNat(p);
    assert IsDigit(s[0]) && IsDigit(s[|s| - 1]);
  }
}
