/** CIDR matching by bit masks, against the arithmetic of address blocks. Machine words are the
    integers below 2^W, and the word operations are written out bit by bit. */
module Cidr {
  import opened Options
  import opened Text
  import opened Arith

  datatype IpAddr = V4(bits: nat) | V6(bits: nat)

  function Width(ip: IpAddr): nat {
    if ip.V4? then 32 else 128
  }

  /** `Ipv4Addr` and `Ipv6Addr` are words of 32 and 128 bits. */
  predicate ValidAddr(ip: IpAddr) {
    ip.bits < Pow2(Width(ip))
  }

  /** Bitwise and of two words of the given width. */
  function And(x: nat, y: nat, width: nat): nat {
    if width == 0 then 0
    else (x % 2) * (y % 2) + 2 * And(x / 2, y / 2, width - 1)
  }

  /** `!0 << shift` in a word of the given width. */
  function HighMask(shift: nat, width: nat): nat {
    (Pow2(width) - 1) * Pow2(shift) % Pow2(width)
  }

  function Mask(prefix: nat, width: nat): nat
    requires prefix <= width
  {
    if prefix == 0 then 0 else HighMask(width - prefix, width)
  }

  /** Whether `ip` is in the block: the shift is in range because the prefix fits the family. */
  predicate IpMatches(ip: IpAddr, network: IpAddr, prefix: nat)
    requires prefix <= Width(network)
  {
    && ip.V4? == network.V4?
    && var mask := Mask(prefix, Width(network));
       And(ip.bits, mask, Width(network)) == And(network.bits, mask, Width(network))
  }

  lemma HalvedRemainder(x: nat, q: nat)
    requires q >= 1
    ensures x - x % (2 * q) == 2 * (x / 2 - x / 2 % q)
  {
    var d := x / 2 / q;
    assert x / 2 == d * q + x / 2 % q;
    assert d * (2 * q) == 2 * (d * q);
    DivUnique(x, 2 * q, d, 2 * (x / 2 % q) + x % 2);
  }

  // ---------- masking is clearing low bits ----------

  lemma OnesShifted(p: nat, q: nat)
    requires 1 <= q <= p
    ensures (p - 1) * q % p == p - q
  {
    var k := q - 1;
    var x := (p - 1) * q;
    assert x == p * q - q && k * p == p * q - p;
    DivUnique(x, p, k, p - q);
  }

  /** All ones shifted left lose their high end: what is left is 2^width - 2^shift. */
  lemma HighMaskValue(shift: nat, width: nat)
    requires shift <= width
    ensures Pow2(shift) <= Pow2(width) && HighMask(shift, width) == Pow2(width) - Pow2(shift)
  {
    var p, q := Pow2(width), Pow2(shift);
    Pow2Monotone(shift, width);
    OnesShifted(p, q);
  }

  lemma AndZero(x: nat, width: nat)
    ensures And(x, 0, width) == 0
  {
  }

  lemma {:induction false} AndOnes(x: nat, width: nat)
    requires x < Pow2(width)
    ensures And(x, Pow2(width) - 1, width) == x
  {
    if width > 0 {
      assert (Pow2(width) - 1) / 2 == Pow2(width - 1) - 1 && (Pow2(width) - 1) % 2 == 1;
      AndOnes(x / 2, width - 1);
    }
  }

  /** And with the mask clears the low `shift` bits. */
  lemma {:induction false} AndHighMask(x: nat, y: nat, shift: nat, width: nat)
    requires shift <= width && x < Pow2(width) && y == Pow2(width) - Pow2(shift)
    ensures And(x, y, width) == AlignDown(x, Pow2(shift))
  {
    if shift == 0 {
      AndOnes(x, width);
    } else {
      Pow2Monotone(shift - 1, width - 1);
      var half: nat := Pow2(width - 1) - Pow2(shift - 1);
      assert y == 2 * half && y / 2 == half && y % 2 == 0;
      AndHighMask(x / 2, half, shift - 1, width - 1);
      HalvedRemainder(x, Pow2(shift - 1));
    }
  }

  // ---------- blocks ----------

  /** Number of addresses in a block (section 3.1 of RFC 4632, section 2.3 of RFC 4291). */
  function BlockSize(network: IpAddr, prefix: nat): (q: nat)
    requires prefix <= Width(network)
    ensures q >= 1
  {
    Pow2(Width(network) - prefix)
  }

  /** Membership in the aligned interval of 2^(W - prefix) addresses that holds the network. */
  predicate InBlock(ip: IpAddr, network: IpAddr, prefix: nat)
    requires prefix <= Width(network)
  {
    var q := BlockSize(network, prefix);
    ip.V4? == network.V4? && AlignDown(network.bits, q) <= ip.bits < AlignDown(network.bits, q) + q
  }

  lemma MaskedValue(x: nat, prefix: nat, width: nat)
    requires prefix <= width && x < Pow2(width)
    ensures And(x, Mask(prefix, width), width) == AlignDown(x, Pow2(width - prefix))
  {
    if prefix == 0 {
      AndZero(x, width);
      DivUnique(x, Pow2(width), 0, x);
    } else {
      HighMaskValue(width - prefix, width);
      AndHighMask(x, Mask(prefix, width), width - prefix, width);
    }
  }

  /** The mask comparison is membership in the block, for both families and every prefix. */
  lemma MatchesIsBlock(ip: IpAddr, network: IpAddr, prefix: nat)
    requires ValidAddr(ip) && ValidAddr(network) && prefix <= Width(network)
    ensures IpMatches(ip, network, prefix) <==> InBlock(ip, network, prefix)
  {
    if ip.V4? == network.V4? {
      MaskedValue(ip.bits, prefix, Width(network));
      MaskedValue(network.bits, prefix, Width(network));
      SameAlignment(ip.bits, network.bits, BlockSize(network, prefix));
    }
  }

  /** Two blocks that share an address are nested: the one with the longer prefix is inside. */
  lemma BlocksNestOrAreDisjoint(net1: IpAddr, p1: nat, net2: IpAddr, p2: nat, shared: IpAddr, ip: IpAddr)
    requires p2 <= p1 <= Width(net1) && p2 <= Width(net2)
    requires InBlock(shared, net1, p1) && InBlock(shared, net2, p2)
    ensures InBlock(ip, net1, p1) ==> InBlock(ip, net2, p2)
  {
    var q1, q2 := BlockSize(net1, p1), BlockSize(net2, p2);
    var r := Pow2(p1 - p2);
    Pow2Add(Width(net1) - p1, p1 - p2);
    assert q2 == q1 * r;
    SameAlignment(shared.bits, net1.bits, q1);
    SameAlignment(shared.bits, net2.bits, q2);
    SameAlignment(ip.bits, net1.bits, q1);
    SameAlignment(ip.bits, net2.bits, q2);
    AlignTwice(shared.bits, q1, r);
    AlignTwice(ip.bits, q1, r);
  }

  // ---------- parsing and the two lists ----------

  /** `parse_cidr`, with the address parser of the standard library as a parameter. */
  function ParseCidr(s: string, parseIp: string -> Option<IpAddr>): Option<(IpAddr, nat)> {
    match SplitOnce(s, "/")
    case Some((ip, digits)) =>
      (match ParseUInt(digits, 0xFF)
       case None => None
       case Some(prefix) => CheckedCidr(parseIp(ip), prefix))
    case None => CheckedCidr(parseIp(s), if ':' in s then 128 else 32)
  }

  function CheckedCidr(ip: Option<IpAddr>, prefix: nat): Option<(IpAddr, nat)> {
    match ip
    case None => None
    case Some(addr) => if prefix > Width(addr) then None else Some((addr, prefix))
  }

  /** Every parsed pair keeps the mask's shift below the word width. */
  lemma ParsedPrefixFits(s: string, parseIp: string -> Option<IpAddr>)
    requires ParseCidr(s, parseIp).Some?
    ensures var (network, prefix) := ParseCidr(s, parseIp).value;
            prefix <= Width(network) && (prefix != 0 ==> Width(network) - prefix < Width(network))
  {
  }

  type ListEntry = e: (IpAddr, nat) | e.1 <= Width(e.0) witness (V4(0), 0)
  type Entries = seq<ListEntry>

  /** `from_config`: entries that do not parse are skipped. */
  function FromConfig(raw: seq<string>, parseIp: string -> Option<IpAddr>): Entries {
    if raw == [] then []
    else
      var rest := FromConfig(raw[1..], parseIp);
      match ParseCidr(raw[0], parseIp)
      case None => rest
      case Some(e) => ParsedPrefixFits(raw[0], parseIp); [e] + rest
  }

  predicate AnyMatches(entries: Entries, ip: IpAddr) {
    exists i :: 0 <= i < |entries| && IpMatches(ip, entries[i].0, entries[i].1)
  }

  predicate Allows(entries: Entries, ip: IpAddr) {
    entries == [] || AnyMatches(entries, ip)
  }

  predicate Blocks(entries: Entries, ip: IpAddr) {
    entries != [] && AnyMatches(entries, ip)
  }

  /** Some configured line is a block that holds the address. */
  ghost predicate Covered(raw: seq<string>, parseIp: string -> Option<IpAddr>, ip: IpAddr) {
    exists i :: 0 <= i < |raw| && Covers(raw[i], parseIp, ip)
  }

  predicate Covers(line: string, parseIp: string -> Option<IpAddr>, ip: IpAddr) {
    match ParseCidr(line, parseIp)
    case None => false
    case Some((network, prefix)) =>
      ParsedPrefixFits(line, parseIp);
      InBlock(ip, network, prefix)
  }

  ghost predicate ParserValid(parseIp: string -> Option<IpAddr>) {
    forall s :: parseIp(s).Some? ==> ValidAddr(parseIp(s).value)
  }

  lemma CoveredFront(line: string, raw: seq<string>, parseIp: string -> Option<IpAddr>, ip: IpAddr)
    ensures Covered([line] + raw, parseIp, ip) <==> Covers(line, parseIp, ip) || Covered(raw, parseIp, ip)
  {
    hide Covers;
    var all := [line] + raw;
    if Covered(raw, parseIp, ip) {
      var i :| 0 <= i < |raw| && Covers(raw[i], parseIp, ip);
      assert Covers(all[i + 1], parseIp, ip);
    }
    if Covers(line, parseIp, ip) { assert Covers(all[0], parseIp, ip); }
  }

  lemma MatchesFront(e: (IpAddr, nat), rest: Entries, ip: IpAddr)
    requires e.1 <= Width(e.0)
    ensures AnyMatches([e] + rest, ip) <==> IpMatches(ip, e.0, e.1) || AnyMatches(rest, ip)
  {
    var all: Entries := [e] + rest;
    if AnyMatches(rest, ip) {
      var i :| 0 <= i < |rest| && IpMatches(ip, rest[i].0, rest[i].1);
      assert all[i + 1] == rest[i];
    }
    assert all[0] == e;
  }

  /** Among the configured lines, the parsed ones match exactly the addresses of their blocks. */
  lemma {:induction false} EntriesCover(raw: seq<string>, parseIp: string -> Option<IpAddr>, ip: IpAddr)
    requires ParserValid(parseIp) && ValidAddr(ip)
    ensures AnyMatches(FromConfig(raw, parseIp), ip) <==> Covered(raw, parseIp, ip)
  {
    if raw != [] {
      assert raw == [raw[0]] + raw[1..];
      EntriesCover(raw[1..], parseIp, ip);
      CoveredFront(raw[0], raw[1..], parseIp, ip);
      match ParseCidr(raw[0], parseIp)
      case None =>
      case Some(e) =>
        ParsedPrefixFits(raw[0], parseIp);
        MatchesIsBlock(ip, e.0, e.1);
        MatchesFront(e, FromConfig(raw[1..], parseIp), ip);
    }
  }

  predicate NoneParses(raw: seq<string>, parseIp: string -> Option<IpAddr>) {
    forall i :: 0 <= i < |raw| ==> ParseCidr(raw[i], parseIp) == None
  }

  lemma {:induction false} NoEntries(raw: seq<string>, parseIp: string -> Option<IpAddr>)
    ensures FromConfig(raw, parseIp) == [] <==> NoneParses(raw, parseIp)
  {
    if raw != [] {
      NoEntries(raw[1..], parseIp);
      assert NoneParses(raw, parseIp) ==> NoneParses(raw[1..], parseIp);
      forall i | 0 < i < |raw| ensures raw[i] == raw[1..][i - 1] {}
    }
  }

  /** A configured allowlist admits exactly the addresses of its blocks, and every address when no
      line of it parses; a blacklist refuses exactly the addresses of its blocks. */
  lemma ListsDecideByBlocks(raw: seq<string>, parseIp: string -> Option<IpAddr>, ip: IpAddr)
    requires ParserValid(parseIp) && ValidAddr(ip)
    ensures Allows(FromConfig(raw, parseIp), ip)
            <==> Covered(raw, parseIp, ip) || NoneParses(raw, parseIp)
    ensures Blocks(FromConfig(raw, parseIp), ip) <==> Covered(raw, parseIp, ip)
  {
    EntriesCover(raw, parseIp, ip);
    NoEntries(raw, parseIp);
  }

  // ---------- what a configured line means ----------

  /** The standard library reads texts with a colon as IPv6 addresses and others as IPv4. */
  ghost predicate FamilyByColon(parseIp: string -> Option<IpAddr>) {
    forall s :: parseIp(s).Some? ==> (parseIp(s).value.V6? <==> ':' in s)
  }

  /** `text/digits`, with a prefix that fits the address the text is read as. */
  predicate IsBlockLine(line: string, text: string, digits: string, parseIp: string -> Option<IpAddr>) {
    && line == text + "/" + digits && '/' !in text
    && parseIp(text).Some? && ParseUInt(digits, 255).Some?
    && ParseUInt(digits, 255).value <= (if parseIp(text).value.V4? then 32 else 128)
  }

  /** The line names an address or a block at all. */
  ghost predicate IsListed(line: string, parseIp: string -> Option<IpAddr>) {
    || ('/' !in line && parseIp(line).Some?)
    || exists text, digits :: IsBlockLine(line, text, digits, parseIp)
  }

  /** The line names this address: alone, or in a block of addresses that share their first bits. */
  ghost predicate Lists(line: string, parseIp: string -> Option<IpAddr>, ip: IpAddr) {
    || ('/' !in line && parseIp(line) == Some(ip))
    || exists text, digits :: IsBlockLine(line, text, digits, parseIp)
                              && SharesPrefix(ip, parseIp(text).value, ParseUInt(digits, 255).value)
  }

  /** Same family, and the same first `prefix` bits. */
  predicate SharesPrefix(ip: IpAddr, network: IpAddr, prefix: nat)
    requires prefix <= (if network.V4? then 32 else 128)
  {
    && ip.V4? == network.V4?
    && var q := Pow2((if network.V4? then 32 else 128) - prefix); ip.bits / q == network.bits / q
  }

  lemma BlockSharesPrefix(ip: IpAddr, network: IpAddr, prefix: nat)
    requires prefix <= Width(network)
    ensures InBlock(ip, network, prefix) <==> SharesPrefix(ip, network, prefix)
  {
    var q := BlockSize(network, prefix);
    if ip.V4? == network.V4? {
      SameAlignment(ip.bits, network.bits, q);
      AlignDownQuotient(ip.bits, q);
      AlignDownQuotient(network.bits, q);
      if AlignDown(ip.bits, q) == AlignDown(network.bits, q) {
        DivUnique(AlignDown(ip.bits, q), q, ip.bits / q, 0);
        DivUnique(AlignDown(network.bits, q), q, network.bits / q, 0);
      }
    }
  }

  lemma FirstSlash(line: string, text: string, digits: string)
    requires line == text + "/" + digits && '/' !in text
    ensures SplitOnce(line, "/") == Some((text, digits))
  {
    forall j: nat | j < |text| ensures !OccursAt(line, "/", j) {
      CharAt(line, '/', j);
      assert line[j] == text[j];
    }
    SplitOnceAt(line, "/", text, digits);
  }

  lemma HasSlash(text: string, digits: string)
    ensures '/' in text + "/" + digits
  {
    assert (text + "/" + digits)[|text|] == '/';
  }

  lemma BareLine(line: string, parseIp: string -> Option<IpAddr>)
    requires FamilyByColon(parseIp) && '/' !in line
    ensures ParseCidr(line, parseIp)
            == if parseIp(line).None? then None else Some((parseIp(line).value, Width(parseIp(line).value)))
    ensures forall text, digits :: !IsBlockLine(line, text, digits, parseIp)
  {
    forall j: nat ensures !OccursAt(line, "/", j) { CharAt(line, '/', j); }
    forall text, digits ensures !IsBlockLine(line, text, digits, parseIp) {
      HasSlash(text, digits);
    }
  }

  lemma SlashLine(line: string, parseIp: string -> Option<IpAddr>) returns (text: string, digits: string)
    requires '/' in line
    ensures line == text + "/" + digits && '/' !in text && SplitOnce(line, "/") == Some((text, digits))
    ensures forall t, d :: IsBlockLine(line, t, d, parseIp) ==> t == text && d == digits
  {
    var i := IndexOf(line, '/');
    assert i < |line| by {
      var k :| 0 <= k < |line| && line[k] == '/';
      assert i <= k;
    }
    text, digits := line[..i], line[i + 1..];
    assert line == text + "/" + digits;
    FirstSlash(line, text, digits);
    forall t, d | IsBlockLine(line, t, d, parseIp) ensures t == text && d == digits {
      FirstSlash(line, t, d);
    }
  }

  lemma FullPrefixIsAddress(ip: IpAddr, network: IpAddr)
    ensures InBlock(ip, network, Width(network)) <==> ip == network
  {
    assert BlockSize(network, Width(network)) == 1;
  }

  /** A bare address covers exactly itself; a line with a slash covers the addresses that share the
      prefix, if text and prefix can be read and fit; any other line covers nothing. */
  lemma LineMeans(line: string, parseIp: string -> Option<IpAddr>, ip: IpAddr)
    requires FamilyByColon(parseIp)
    ensures ParseCidr(line, parseIp).Some? <==> IsListed(line, parseIp)
    ensures Covers(line, parseIp, ip) <==> Lists(line, parseIp, ip)
  {
    if '/' in line {
      var text, digits := SlashLine(line, parseIp);
      assert IsListed(line, parseIp) <==> IsBlockLine(line, text, digits, parseIp);
      if IsBlockLine(line, text, digits, parseIp) {
        BlockSharesPrefix(ip, parseIp(text).value, ParseUInt(digits, 255).value);
      }
    } else {
      BareLine(line, parseIp);
      if parseIp(line).Some? { FullPrefixIsAddress(ip, parseIp(line).value); }
    }
  }

  /** An allowlist admits exactly the addresses its lines name, and all when no line names any; a
      blacklist refuses exactly the addresses its lines name. */
  lemma ListsDecideByLines(raw: seq<string>, parseIp: string -> Option<IpAddr>, ip: IpAddr)
    requires ParserValid(parseIp) && FamilyByColon(parseIp) && ValidAddr(ip)
    ensures Allows(FromConfig(raw, parseIp), ip)
            <==> (exists i :: 0 <= i < |raw| && Lists(raw[i], parseIp, ip))
                 || forall i :: 0 <= i < |raw| ==> !IsListed(raw[i], parseIp)
    ensures Blocks(FromConfig(raw, parseIp), ip) <==> exists i :: 0 <= i < |raw| && Lists(raw[i], parseIp, ip)
  {
    ListsDecideByBlocks(raw, parseIp, ip);
    hide Covers, Lists, IsListed, ParseCidr, Allows, Blocks;
    forall i | 0 <= i < |raw|
      ensures Covers(raw[i], parseIp, ip) <==> Lists(raw[i], parseIp, ip)
      ensures ParseCidr(raw[i], parseIp).Some? <==> IsListed(raw[i], parseIp)
    {
      LineMeans(raw[i], parseIp, ip);
    }
  }

  /** A prefix as it is usually written. */
  lemma PrintedPrefix(text: string, prefix: nat, parseIp: string -> Option<IpAddr>)
    requires '/' !in text && parseIp(text).Some?
    ensures IsBlockLine(text + "/" + PrintNat(prefix), text, PrintNat(prefix), parseIp)
            <==> prefix <= (if parseIp(text).value.V4? then 32 else 128)
    ensures prefix <= 255 ==> ParseUInt(PrintNat(prefix), 255) == Some(prefix)
  {
    assert IsDigit(PrintNat(prefix)[0]);
  }
}
