/** api/ssrf_guard.js: the range grammar and the block-list or allow-list decision. */
module SsrfGuard {
  import opened Bytes
  import opened Text
  import opened SsrfAddresses
  import opened SsrfRanges

  /** The two library functions the code consults: `net.isIP`, and `Number` where it
      gives an integer. */
  datatype Runtime = Runtime(isIP: string -> nat, number: string -> Option<int>)

  // ---------------------------------------------------------------- addresses

  /** An IPv4-mapped address (section 2.5.5.2 of RFC 4291). */
  predicate Mapped(b: seq<byte>) {
    |b| == 16 && (forall i :: 0 <= i < 10 ==> b[i] == 0) && b[10] == 0xff && b[11] == 0xff
  }

  function MappedForm(v4: seq<byte>): (b: seq<byte>)
    requires |v4| == 4
    ensures Mapped(b)
  {
    Zeros(10) + [0xff, 0xff] + v4
  }

  function ToAddress(rt: Runtime, text: string): (r: Option<Address>)
    ensures r.Some? ==> WellFormed(r.value)
  {
    if rt.isIP(text) == 4 then
      match IPv4Of(text)
      case None => None
      case Some(b) => Some(Address(b, 4))
    else if rt.isIP(text) == 6 then
      match IPv6Of(text)
      case None => None
      case Some(b) => Some(if Mapped(b) then Address(b[12..], 4) else Address(b, 6))
    else
      match IPv4Of(text)
      case Some(b) => Some(Address(b, 4))
      case None =>
        match IPv6Of(text)
        case None => None
        case Some(b) => Some(Address(b, 6))
  }

  // ------------------------------------------------------------------- ranges

  datatype RangeError = Empty | NotAnAddressRange | MixesFamilies | StartsAfterEnd | SingleAddress | BadPrefix

  function ParseRange(rt: Runtime, entry: string): (r: Result<Range, RangeError>)
    ensures r.Ok? ==> WellFormedRange(r.value) && r.value.text == Trim(entry) != ""
  {
    var text := Trim(entry);
    var dash := Find(text, "-", 0);
    var slash := Find(text, "/", 0);
    if text == "" then Err(Empty)
    else if dash != -1 then
      ParsePair(ToAddress(rt, Trim(text[..dash])), ToAddress(rt, Trim(text[dash + 1..])), text)
    else if slash == -1 then Err(SingleAddress)
    else ParseBlock(ToAddress(rt, text[..slash]), rt.number(text[slash + 1..]), text)
  }

  function ParsePair(lo: Option<Address>, hi: Option<Address>, text: string): (r: Result<Range, RangeError>)
    requires lo.Some? ==> WellFormed(lo.value)
    requires hi.Some? ==> WellFormed(hi.value)
    ensures r.Ok? ==> WellFormedRange(r.value) && r.value.text == text
  {
    if lo.None? || hi.None? then Err(NotAnAddressRange)
    else if lo.value.family != hi.value.family then Err(MixesFamilies)
    else if Compare(lo.value.bytes, hi.value.bytes) > 0 then Err(StartsAfterEnd)
    else Ok(Span(lo.value.family, lo.value.bytes, hi.value.bytes, text))
  }

  function ParseBlock(address: Option<Address>, prefix: Option<int>, text: string): (r: Result<Range, RangeError>)
    requires address.Some? ==> WellFormed(address.value)
    ensures r.Ok? ==> WellFormedRange(r.value) && r.value.text == text
  {
    if address.None? then Err(NotAnAddressRange)
    else if prefix.None? || prefix.value < 0 || prefix.value > 8 * Size(address.value.family) then Err(BadPrefix)
    else Ok(Cidr(address.value.family, address.value.bytes, prefix.value, text))
  }

  // ---------------------------------------------------------------- the guard

  /** The two lists; [] stands for an absent key, a value that is not an array, or an
      empty array. `switchedOff` is an explicit `blockPrivateNetworkCalls: false`. */
  datatype Config = Config(allowed: seq<string>, blocked: seq<string>, switchedOff: bool)

  const DEFAULT_BLOCKED_RANGES := [
    "127.0.0.0/8", "0.0.0.0/8", "10.0.0.0/8", "172.16.0.0/12", "192.168.0.0/16", "169.254.0.0/16",
    "100.64.0.0/10", "192.0.0.0/24", "198.18.0.0/15", "::1/128", "fe80::/10", "fc00::/7"]

  /** The entries that parse, in order; the others are dropped. */
  function Loaded(rt: Runtime, entries: seq<string>): (ranges: seq<Range>)
    ensures forall r :: r in ranges ==> WellFormedRange(r) && r.text != ""
  {
    if entries == [] then []
    else match ParseRange(rt, entries[0])
      case Err(_) => Loaded(rt, entries[1..])
      case Ok(r) => [r] + Loaded(rt, entries[1..])
  }

  function Texts(ranges: seq<Range>): seq<string> {
    seq(|ranges|, i requires 0 <= i < |ranges| => ranges[i].text)
  }

  function RefusalText(ranges: seq<Range>): string {
    if ranges == [] then "everything (allowedAddressRanges has no usable entry, so it fails closed)"
    else "everything outside allowedAddressRanges [" + Join(Texts(ranges), ", ") + "]"
  }

  predicate AllWellFormed(ranges: seq<Range>) {
    forall i :: 0 <= i < |ranges| ==> WellFormedRange(ranges[i])
  }

  /** The first range an address lies in. */
  function FirstMatch(a: Address, ranges: seq<Range>): Option<Range>
    requires WellFormed(a) && AllWellFormed(ranges)
  {
    if ranges == [] then None
    else if Within(a, ranges[0]) then Some(ranges[0])
    else FirstMatch(a, ranges[1..])
  }

  function BlockList(cfg: Config): seq<string> {
    if cfg.blocked == [] then DEFAULT_BLOCKED_RANGES else cfg.blocked
  }

  /** `blockedRangeFor`: the text of a refusal, or None when the address may be dialled. */
  function Decide(rt: Runtime, cfg: Config, ip: string): Option<string> {
    match ToAddress(rt, ip)
    case None => None
    case Some(a) =>
      if cfg.allowed != [] then
        var allowed := Loaded(rt, cfg.allowed);
        if FirstMatch(a, allowed).Some? then None else Some(RefusalText(allowed))
      else
        match FirstMatch(a, Loaded(rt, BlockList(cfg)))
        case None => None
        case Some(r) => Some(r.text)
  }

  /** The closure `createGuard` returns. */
  class Guard {
    const rt: Runtime
    ghost const cfg: Config
    const allowListMode: bool
    const enabled: bool
    const allowedRanges: seq<Range>
    const allowListRefusalText: string
    const ranges: seq<Range>

    ghost predicate Valid() {
      && allowListMode == (cfg.allowed != [])
      && allowedRanges == Loaded(rt, cfg.allowed)
      && allowListRefusalText == RefusalText(allowedRanges)
      && ranges == Loaded(rt, BlockList(cfg))
      && enabled == (cfg.allowed != [] || !cfg.switchedOff)
    }

    constructor (rt: Runtime, cfg: Config)
      ensures Valid() && this.rt == rt && this.cfg == cfg
    {
      this.rt, this.cfg := rt, cfg;
      allowListMode := |cfg.allowed| > 0;
      enabled := |cfg.allowed| > 0 || !cfg.switchedOff;
      var allowed: seq<Range> := [];
      if |cfg.allowed| > 0 {
        allowed := LoadRanges(rt, cfg.allowed);
      }
      allowedRanges := allowed;
      allowListRefusalText := RefusalText(allowed);
      var configured := if |cfg.blocked| > 0 then cfg.blocked else DEFAULT_BLOCKED_RANGES;
      var loaded := LoadRanges(rt, configured);
      ranges := loaded;
    }

    static method LoadRanges(rt: Runtime, entries: seq<string>) returns (ranges: seq<Range>)
      ensures ranges == Loaded(rt, entries)
    {
      ranges := [];
      for i := 0 to |entries|
        invariant ranges + Loaded(rt, entries[i..]) == Loaded(rt, entries)
      {
        assert entries[i..][1..] == entries[i + 1..];
        var parsed := ParseRange(rt, entries[i]);
        if parsed.Ok? {
          ranges := ranges + [parsed.value];
        }
      }
    }

    method BlockedRangeFor(ip: string) returns (r: Option<string>)
      requires Valid()
      ensures r == Decide(rt, cfg, ip)
    {
      hide ToAddress, Loaded, Within, RefusalText, BlockList;
      var address := ToAddress(rt, ip);
      if address.None? {
        return None;
      }
      var a := address.value;
      if allowListMode {
        for i := 0 to |allowedRanges|
          invariant FirstMatch(a, allowedRanges) == FirstMatch(a, allowedRanges[i..])
        {
          assert allowedRanges[i] in allowedRanges;
          var inside := WithinRange(a, allowedRanges[i]);
          assert allowedRanges[i..][1..] == allowedRanges[i + 1..];
          if inside {
            return None;
          }
        }
        return Some(allowListRefusalText);
      }
      for i := 0 to |ranges|
        invariant FirstMatch(a, ranges) == FirstMatch(a, ranges[i..])
      {
        assert ranges[i] in ranges;
        var inside := WithinRange(a, ranges[i]);
        assert ranges[i..][1..] == ranges[i + 1..];
        if inside {
          return Some(ranges[i].text);
        }
      }
      return None;
    }
  }

  // -------------------------------------------------------- the two modes

  lemma {:induction false} FirstMatchIsExists(a: Address, ranges: seq<Range>)
    requires WellFormed(a) && AllWellFormed(ranges)
    ensures FirstMatch(a, ranges).Some? <==> exists i :: 0 <= i < |ranges| && Within(a, ranges[i])
    ensures FirstMatch(a, ranges).Some? ==> FirstMatch(a, ranges).value in ranges
  {
    if ranges != [] {
      FirstMatchIsExists(a, ranges[1..]);
      if i: nat :| i < |ranges[1..]| && Within(a, ranges[1..][i]) {
        assert Within(a, ranges[i + 1]);
      }
      assert forall i :: 0 < i < |ranges| ==> ranges[i] == ranges[1..][i - 1];
    }
  }

  /** A refusal is never the empty string, which a caller would read as permission. */
  lemma RefusalsAreTruthy(rt: Runtime, cfg: Config, ip: string)
    ensures Decide(rt, cfg, ip).Some? ==> Decide(rt, cfg, ip).value != ""
  {
    hide ToAddress, Loaded, Within;
    var address := ToAddress(rt, ip);
    if address.Some? && cfg.allowed == [] {
      FirstMatchIsExists(address.value, Loaded(rt, BlockList(cfg)));
    }
  }

  /** For every non-empty list, valid or not: allow-list mode refuses what block-list
      mode over the same list permits, for exactly the inputs that are addresses.
      Anything else is a name, which both modes pass on to be resolved. */
  lemma ModesAreDual(rt: Runtime, list: seq<string>, other: seq<string>, ip: string)
    requires list != []
    ensures var allow, block := Decide(rt, Config(list, other, true), ip), Decide(rt, Config([], list, false), ip);
            && ((allow.Some? <==> block.None?) <==> ToAddress(rt, ip).Some?)
            && (ToAddress(rt, ip).None? ==> allow.None? && block.None?)
  {
  }

  /** A list with no usable entry closes an allow-list and opens a block-list. */
  lemma {:induction false} NoUsableEntry(rt: Runtime, list: seq<string>, ip: string)
    requires list != [] && forall e :: e in list ==> ParseRange(rt, e).Err?
    ensures Loaded(rt, list) == []
    ensures Decide(rt, Config([], list, false), ip).None?
    ensures ToAddress(rt, ip).Some? ==> Decide(rt, Config(list, [], false), ip) == Some(RefusalText([]))
  {
    hide ParseRange, ToAddress, RefusalText, Within;
    if |list| > 1 {
      NoUsableEntry(rt, list[1..], ip);
    }
  }

  // ------------------------------------------------- what is loaded and judged

  /** Digits, dots and colons: nothing that trimming or the range grammar acts on. */
  predicate Plain(s: string) {
    s != "" && forall i :: 0 <= i < |s| ==> DigitOf(s[i]) < 16 || s[i] == '.' || s[i] == ':'
  }

  lemma PlainTrims(s: string)
    requires Plain(s)
    ensures Trim(s) == s && '-' !in s && '/' !in s
  {
    assert DigitOf('-') == 16 && DigitOf('/') == 16;
    forall c | IsSpace(c)
      ensures DigitOf(c) == 16
    {
    }
    TrimKeeps(s);
  }

  /** Text of four octets is an IPv4 address whether `net.isIP` recognises it or not, as it
      does not when an octet has a leading zero: only text it calls IPv6 is not. */
  lemma OctetsAreIPv4(rt: Runtime, parts: seq<string>, v: seq<byte>)
    requires |parts| == |v| == 4
    requires forall i :: 0 <= i < 4 ==> IsOctet(parts[i]) && Numeral(parts[i], 10) == v[i]
    requires rt.isIP(Join(parts, ".")) != 6
    ensures ToAddress(rt, Join(parts, ".")) == Some(Address(v, 4))
  {
    hide Join, IPv6Of, Numeral, IsOctet, Split;
    OctetsAre(parts, v);
    IPv4Spelled(parts);
  }

  /** What `net.isIP` calls IPv4 is read as nothing else, and what it calls neither as IPv4
      if it can be, then as IPv6 without the reduction. */
  lemma OthersAreTried(rt: Runtime, text: string)
    requires rt.isIP(text) != 6
    ensures var four, six := IPv4Of(text), IPv6Of(text);
            ToAddress(rt, text) ==
            if four.Some? then Some(Address(four.value, 4))
            else if rt.isIP(text) != 4 && six.Some? then Some(Address(six.value, 6))
            else None
  {
  }

  /** Text that `net.isIP` calls IPv6: an address ::ffff:0:0/96 holds is the IPv4 address in
      its last four bytes, and every other is itself. */
  lemma SixIsReduced(rt: Runtime, text: string, b: seq<byte>)
    requires rt.isIP(text) == 6 && IPv6Of(text) == Some(b)
    ensures b[..12] == [0, 0, 0, 0, 0, 0, 0, 0, 0, 0, 0xff, 0xff] ==> ToAddress(rt, text) == Some(Address(b[12..], 4))
    ensures b[..12] != [0, 0, 0, 0, 0, 0, 0, 0, 0, 0, 0xff, 0xff] ==> ToAddress(rt, text) == Some(Address(b, 6))
  {
    hide IPv6Of, IPv4Of;
    var prefix: seq<byte> := [0, 0, 0, 0, 0, 0, 0, 0, 0, 0, 0xff, 0xff];
    if Mapped(b) {
      assert b[..12] == prefix;
    }
    if b[..12] == prefix {
      assert forall i :: 0 <= i < 12 ==> b[i] == prefix[i];
    }
  }

  /** So the octets are all that matters to the decision. */
  lemma OctetsDecide(rt: Runtime, cfg: Config, parts: seq<string>, others: seq<string>, v: seq<byte>)
    requires |parts| == |others| == |v| == 4
    requires forall i :: 0 <= i < 4 ==> IsOctet(parts[i]) && Numeral(parts[i], 10) == v[i]
    requires forall i :: 0 <= i < 4 ==> IsOctet(others[i]) && Numeral(others[i], 10) == v[i]
    requires rt.isIP(Join(parts, ".")) != 6 && rt.isIP(Join(others, ".")) != 6
    ensures Decide(rt, cfg, Join(parts, ".")) == Decide(rt, cfg, Join(others, "."))
  {
    hide IsOctet, Numeral, ToAddress, Join, Loaded, RefusalText;
    OctetsAreIPv4(rt, parts, v);
    OctetsAreIPv4(rt, others, v);
  }

  /** Every entry that parses is loaded, whatever stands before or after it, and nothing
      else is; one list after another loads one after another. */
  lemma {:induction false} LoadsEach(rt: Runtime, entries: seq<string>)
    ensures forall e :: e in entries && ParseRange(rt, e).Ok? ==> ParseRange(rt, e).value in Loaded(rt, entries)
    ensures forall r :: r in Loaded(rt, entries) ==> exists e :: e in entries && ParseRange(rt, e) == Ok(r)
  {
    if entries != [] {
      hide ParseRange;
      LoadsEach(rt, entries[1..]);
      forall r | r in Loaded(rt, entries)
        ensures exists e :: e in entries && ParseRange(rt, e) == Ok(r)
      {
        if ParseRange(rt, entries[0]) == Ok(r) {
          assert entries[0] in entries;
        } else {
          assert r in Loaded(rt, entries[1..]);
          var e :| e in entries[1..] && ParseRange(rt, e) == Ok(r);
          assert e in entries;
        }
      }
    }
  }

  lemma {:induction false} LoadsInOrder(rt: Runtime, a: seq<string>, b: seq<string>)
    ensures Loaded(rt, a + b) == Loaded(rt, a) + Loaded(rt, b)
  {
    hide ParseRange;
    if a == [] {
      assert a + b == b;
    } else {
      assert (a + b)[1..] == a[1..] + b;
      LoadsInOrder(rt, a[1..], b);
    }
  }

  /** An entry without a dash or a slash is refused, an address too: it would be read as
      the block or as the address by different readers. */
  lemma BareEntryRefused(rt: Runtime, entry: string)
    requires '-' !in Trim(entry) && '/' !in Trim(entry)
    ensures ParseRange(rt, entry) == Err(if Trim(entry) == "" then Empty else SingleAddress)
  {
    hide Trim, Find;
    FindChar(Trim(entry), '-');
    FindChar(Trim(entry), '/');
  }

  /** A first-last pair, white space around its ends or not: a range exactly when both are
      addresses, of one family, the first not after the last. */
  lemma PairParsesExactly(rt: Runtime, entry: string, a: string, b: string)
    requires Trim(entry) == a + "-" + b && '-' !in a
    ensures var lo, hi := ToAddress(rt, Trim(a)), ToAddress(rt, Trim(b));
            ParseRange(rt, entry) ==
            if lo.None? || hi.None? then Err(NotAnAddressRange)
            else if lo.value.family != hi.value.family then Err(MixesFamilies)
            else if Value(lo.value.bytes) > Value(hi.value.bytes) then Err(StartsAfterEnd)
            else Ok(Span(lo.value.family, lo.value.bytes, hi.value.bytes, a + "-" + b))
  {
    hide Trim, Find, ToAddress, Value, Compare;
    CutAtMark(a, '-', b);
    var lo, hi := ToAddress(rt, Trim(a)), ToAddress(rt, Trim(b));
    if lo.Some? && hi.Some? && lo.value.family == hi.value.family {
      CompareIsOrder(lo.value.bytes, hi.value.bytes);
      CompareIsOrder(hi.value.bytes, lo.value.bytes);
      SignsAgree(lo.value.bytes, hi.value.bytes);
    }
  }

  lemma SignsAgree(a: seq<byte>, b: seq<byte>)
    requires |a| == |b|
    ensures Compare(a, b) > 0 <==> !(Compare(a, b) < 0) && Compare(a, b) != 0
  {
  }

  /** A block: exactly when the address is one and the length is a number within it. */
  lemma BlockParsesExactly(rt: Runtime, entry: string, a: string, b: string)
    requires Trim(entry) == a + "/" + b && '/' !in a && '-' !in a + "/" + b
    ensures var address, prefix := ToAddress(rt, a), rt.number(b);
            ParseRange(rt, entry) ==
            if address.None? then Err(NotAnAddressRange)
            else if prefix.None? || !(0 <= prefix.value <= 8 * |address.value.bytes|) then Err(BadPrefix)
            else Ok(Cidr(address.value.family, address.value.bytes, prefix.value, a + "/" + b))
  {
    hide Trim, Find, ToAddress;
    CutAtMark(a, '/', b);
    FindChar(a + "/" + b, '-');
  }

  /** A block-list names the first loaded range that holds the address. */
  lemma {:induction false} FirstMatchIsFirst(a: Address, ranges: seq<Range>) returns (i: nat)
    requires WellFormed(a) && AllWellFormed(ranges) && FirstMatch(a, ranges).Some?
    ensures i < |ranges| && FirstMatch(a, ranges) == Some(ranges[i]) && Within(a, ranges[i])
    ensures forall j :: 0 <= j < i ==> !Within(a, ranges[j])
  {
    hide Within;
    if Within(a, ranges[0]) {
      i := 0;
    } else {
      i := FirstMatchIsFirst(a, ranges[1..]);
      i := i + 1;
    }
  }

  lemma BlockListNamesFirst(rt: Runtime, cfg: Config, ip: string) returns (i: nat)
    requires cfg.allowed == [] && Decide(rt, cfg, ip).Some?
    ensures var ranges := Loaded(rt, if cfg.blocked == [] then DEFAULT_BLOCKED_RANGES else cfg.blocked);
            && ToAddress(rt, ip).Some? && i < |ranges|
            && Decide(rt, cfg, ip) == Some(ranges[i].text)
            && Within(ToAddress(rt, ip).value, ranges[i])
            && forall j :: 0 <= j < i ==> !Within(ToAddress(rt, ip).value, ranges[j])
  {
    hide ToAddress, Loaded, Within;
    i := FirstMatchIsFirst(ToAddress(rt, ip).value, Loaded(rt, BlockList(cfg)));
  }

  ghost predicate SomeEntryHolds(rt: Runtime, entries: seq<string>, a: Address)
    requires WellFormed(a)
  {
    exists e :: e in entries && ParseRange(rt, e).Ok? && Within(a, ParseRange(rt, e).value)
  }

  lemma MatchIsEntry(rt: Runtime, entries: seq<string>, a: Address)
    requires WellFormed(a)
    ensures FirstMatch(a, Loaded(rt, entries)).Some? <==> SomeEntryHolds(rt, entries, a)
  {
    hide ParseRange, Within, Loaded;
    var ranges := Loaded(rt, entries);
    FirstMatchIsExists(a, ranges);
    LoadsEach(rt, entries);
    if e :| e in entries && ParseRange(rt, e).Ok? && Within(a, ParseRange(rt, e).value) {
      var r := ParseRange(rt, e).value;
      assert r in ranges;
      var i :| 0 <= i < |ranges| && ranges[i] == r;
    }
    if i :| 0 <= i < |ranges| && Within(a, ranges[i]) {
      assert ranges[i] in ranges;
    }
  }

  /** The decision, from the configured texts: an address is refused by an allow-list when no
      entry of it that parses holds it, and by a block-list, the default one if none is
      given, when some entry does. A name is refused by neither. */
  lemma DecidesExactly(rt: Runtime, cfg: Config, ip: string)
    ensures Decide(rt, cfg, ip).Some? <==>
            && ToAddress(rt, ip).Some?
            && var a := ToAddress(rt, ip).value;
               if cfg.allowed != [] then !SomeEntryHolds(rt, cfg.allowed, a)
               else SomeEntryHolds(rt, if cfg.blocked == [] then DEFAULT_BLOCKED_RANGES else cfg.blocked, a)
  {
    hide ToAddress, Loaded, SomeEntryHolds, DEFAULT_BLOCKED_RANGES, RefusalText;
    if ToAddress(rt, ip).Some? {
      MatchIsEntry(rt, cfg.allowed, ToAddress(rt, ip).value);
      MatchIsEntry(rt, BlockList(cfg), ToAddress(rt, ip).value);
    }
  }

  // ---------------------------------------------- rewriting a configured list

  /** Two entries that parse to ranges holding the same addresses, or both fail. */
  ghost predicate SameAddresses(rt: Runtime, e: string, f: string) {
    match (ParseRange(rt, e), ParseRange(rt, f))
    case (Ok(r), Ok(s)) => forall a: Address :: WellFormed(a) ==> Within(a, r) == Within(a, s)
    case (Err(_), Err(_)) => true
    case _ => false
  }

  ghost predicate SameAddressLists(rt: Runtime, es: seq<string>, fs: seq<string>) {
    |es| == |fs| && forall i :: 0 <= i < |es| ==> es[i] == fs[i] || SameAddresses(rt, es[i], fs[i])
  }

  lemma {:induction false} SameMatches(rt: Runtime, es: seq<string>, fs: seq<string>, a: Address)
    requires SameAddressLists(rt, es, fs) && WellFormed(a)
    ensures FirstMatch(a, Loaded(rt, es)).Some? <==> FirstMatch(a, Loaded(rt, fs)).Some?
  {
    if es != [] {
      SameMatches(rt, es[1..], fs[1..], a);
    }
  }

  /** Whether an address is refused depends only on which addresses the entries hold. */
  lemma RewritingKeepsDecision(rt: Runtime, es: seq<string>, fs: seq<string>, ip: string)
    requires SameAddressLists(rt, es, fs) && es != []
    ensures Decide(rt, Config(es, [], false), ip).Some? <==> Decide(rt, Config(fs, [], false), ip).Some?
    ensures Decide(rt, Config([], es, false), ip).Some? <==> Decide(rt, Config([], fs, false), ip).Some?
  {
    if ToAddress(rt, ip).Some? {
      SameMatches(rt, es, fs, ToAddress(rt, ip).value);
    }
  }
}
