/** api/ssrf_guard.js: when rewriting an entry or an address as text leaves the decision alone. */
module SsrfRewriting {
  import opened Bytes
  import opened Bits
  import opened Text
  import opened SsrfAddresses
  import opened SsrfSpelling
  import opened SsrfRanges
  import opened SsrfGuard

  // -------------------------------------------------------- mapped spellings

  lemma {:induction false} OctetTextHasNoColon(parts: seq<string>)
    ensures Octets(parts).Some? ==> ':' !in Join(parts, ".")
  {
    if Octets(parts).Some? {
      assert DigitOf(':') == 16;
      QuadLacks(parts, ':');
    }
  }

  lemma ColonIsNotIPv4(s: string)
    requires ':' in s
    ensures IPv4Of(s).None?
  {
    hide Split, Octets, Join;
    OctetTextHasNoColon(Split(s, "."));
  }

  lemma PrintHasColon(sp: Spelling)
    requires Legal(sp)
    ensures ':' in Print(sp)
  {
    hide Body, Legal;
    if sp.quad.Some? { QuadBodyChars(sp); } else { GroupBodyChars(sp); }
  }

  /** However an IPv4-mapped address is spelled, it is judged as the IPv4 address it
      reaches in exactly the case that `net.isIP` calls the text IPv6: the fallback for
      text it does not recognise reads the sixteen bytes and leaves them as they are. */
  lemma MappedSpellingReduces(rt: Runtime, sp: Spelling, v4: seq<byte>)
    requires |v4| == 4 && Legal(sp) && Denote(sp) == MappedForm(v4)
    ensures ToAddress(rt, Print(sp)) == Some(Address(v4, 4)) <==> rt.isIP(Print(sp)) == 6
    ensures rt.isIP(Print(sp)) != 6 && rt.isIP(Print(sp)) != 4 ==>
            ToAddress(rt, Print(sp)) == Some(Address(MappedForm(v4), 6))
  {
    ReadsEverySpelling(sp);
    PrintHasColon(sp);
    ColonIsNotIPv4(Print(sp));
    hide Legal, Denote, Print, IPv4Of, IPv6Of;
    assert MappedForm(v4)[12..] == v4;
  }

  /** So no spelling of a mapped address changes what is decided about the address. */
  lemma MappedSpellingKeepsDecision(rt: Runtime, cfg: Config, ip: string, sp: Spelling)
    requires ToAddress(rt, ip).Some? && ToAddress(rt, ip).value.family == 4
    requires Legal(sp) && Denote(sp) == MappedForm(ToAddress(rt, ip).value.bytes) && rt.isIP(Print(sp)) == 6
    ensures Decide(rt, cfg, Print(sp)) == Decide(rt, cfg, ip)
  {
    hide Legal, Denote, Print, IPv4Of, IPv6Of;
    var v4 := ToAddress(rt, ip).value.bytes;
    assert ToAddress(rt, ip) == Some(Address(v4, 4));
    MappedSpellingReduces(rt, sp, v4);
  }

  // ----------------------------------------------------- printing addresses

  /** Sixteen bytes as eight groups. */
  function GroupTexts(b: seq<byte>): seq<string>
    requires |b| % 2 == 0
  {
    if b == [] then [] else [HexPair(b[0], b[1])] + GroupTexts(b[2..])
  }

  lemma {:induction false} GroupTextsRead(b: seq<byte>)
    requires |b| % 2 == 0
    ensures Groups(GroupTexts(b)) == Some(b) && |GroupTexts(b)| == |b| / 2
  {
    if b != [] {
      hide HexPair, GroupBytes, IsGroup;
      GroupTextsRead(b[2..]);
      HexPairIs(b[0], b[1]);
      assert GroupTexts(b)[1..] == GroupTexts(b[2..]);
      assert b == [b[0], b[1]] + b[2..];
    }
  }

  /** An address as text: dotted decimal, or eight hex groups. */
  function PrintAddress(a: Address): string
    requires WellFormed(a)
  {
    if a.family == 4 then DottedQuad(a.bytes) else Join(GroupTexts(a.bytes), ":")
  }

  lemma PrintedV6Reads(b: seq<byte>)
    requires |b| == 16
    ensures IPv6Of(Join(GroupTexts(b), ":")) == Some(b)
  {
    hide Groups, GroupTexts, Join, IPv6Of;
    GroupTextsRead(b);
    var sp := Spelling(GroupTexts(b), None, None, None);
    assert HeadPieces(sp) == sp.head;
    assert Print(sp) == Join(sp.head, ":");
    assert Denote(sp) == b;
    ReadsEverySpelling(sp);
  }

  /** `net.isIP` recognises the text of `a` as an address of its family. */
  predicate Recognised(rt: Runtime, a: Address)
    requires WellFormed(a)
  {
    rt.isIP(PrintAddress(a)) == a.family
  }

  predicate Reducible(a: Address) {
    a.family == 6 && Mapped(a.bytes)
  }

  lemma PrintedReads(rt: Runtime, a: Address)
    requires WellFormed(a) && Recognised(rt, a)
    ensures ToAddress(rt, PrintAddress(a)) ==
            Some(if Reducible(a) then Address(a.bytes[12..], 4) else a)
  {
    hide IPv4Of, IPv6Of, DottedQuad, Join, GroupTexts;
    if a.family == 4 {
      DottedQuadReads(a.bytes);
    } else {
      PrintedV6Reads(a.bytes);
    }
  }

  lemma DottedQuadIsPlain(v: seq<byte>)
    requires |v| == 4
    ensures Plain(DottedQuad(v))
  {
    DottedQuadReads(v);
    var s := DottedQuad(v);
    QuadChars(Split(s, "."));
  }

  lemma PrintedIsPlain(a: Address)
    requires WellFormed(a)
    ensures Plain(PrintAddress(a))
  {
    if a.family == 4 {
      DottedQuadIsPlain(a.bytes);
    } else {
      GroupTextsRead(a.bytes);
      JoinedGroups(GroupTexts(a.bytes));
    }
  }

  lemma TrimsAround(a: string, mark: string, b: string)
    requires Plain(a) && Plain(b)
    ensures Trim(a + mark + b) == a + mark + b
  {
    hide Trim;
    var s := a + mark + b;
    assert s[0] == a[0] && s[|s| - 1] == b[|b| - 1];
    assert !IsSpace(a[0]) && !IsSpace(b[|b| - 1]);
    TrimKeeps(s);
  }

  /** A printed address, a slash and a prefix length parse to that block exactly when the
      length is within the address, and otherwise are refused for it. */
  lemma BlockEntryParses(rt: Runtime, a: Address, digits: string)
    requires WellFormed(a) && Recognised(rt, a) && !Reducible(a)
    requires digits != "" && AllDigits(digits, 10) && rt.number(digits) == Some(Numeral(digits, 10))
    ensures var text := PrintAddress(a) + "/" + digits;
            ParseRange(rt, text) ==
            if Numeral(digits, 10) <= 8 * Size(a.family) then Ok(Cidr(a.family, a.bytes, Numeral(digits, 10), text))
            else Err(BadPrefix)
  {
    var t := PrintAddress(a);
    DigitsArePlain(digits);
    hide Plain, PrintAddress, ToAddress, Find, Trim, ParseRange, Recognised, Reducible, AllDigits, Numeral;
    PrintedReads(rt, a);
    PrintedIsPlain(a);
    BlockText(t, digits);
    BlockIsParsed(rt, t + "/" + digits, |t|);
  }

  lemma DigitsArePlain(digits: string)
    requires digits != "" && AllDigits(digits, 10)
    ensures Plain(digits)
  {
  }

  lemma BlockText(t: string, digits: string)
    requires Plain(t) && Plain(digits)
    ensures var text := t + "/" + digits;
            && Trim(text) == text && Find(text, "-", 0) == -1 && Find(text, "/", 0) == |t|
            && text[..|t|] == t && text[|t| + 1..] == digits
  {
    hide Find, Trim, Plain;
    var text := t + "/" + digits;
    PlainTrims(t);
    PlainTrims(digits);
    assert '-' !in text;
    FindAbsent(text, "-", 0);
    CutAtMark(t, '/', digits);
    TrimsAround(t, "/", digits);
  }

  lemma BlockIsParsed(rt: Runtime, text: string, slash: nat)
    requires Trim(text) == text && slash < |text|
    requires Find(text, "-", 0) == -1 && Find(text, "/", 0) == slash
    ensures ParseRange(rt, text) == ParseBlock(ToAddress(rt, text[..slash]), rt.number(text[slash + 1..]), text)
  {
    hide ToAddress, Find, Trim, ParseBlock;
  }

  // --------------------------------------------- a CIDR entry as a pair entry

  function FirstAddress(r: Range): (a: Address)
    requires WellFormedRange(r) && r.Cidr?
    ensures WellFormed(a)
  {
    Address(FirstOf(r.bytes, r.prefix), r.family)
  }

  function LastAddress(r: Range): (a: Address)
    requires WellFormedRange(r) && r.Cidr?
    ensures WellFormed(a)
  {
    Address(LastOf(r.bytes, r.prefix), r.family)
  }

  /** The entry "first-last" for the block a CIDR entry names. */
  function PairText(r: Range): string
    requires WellFormedRange(r) && r.Cidr?
  {
    PrintAddress(FirstAddress(r)) + "-" + PrintAddress(LastAddress(r))
  }

  lemma PairTextParses(rt: Runtime, r: Range)
    requires WellFormedRange(r) && r.Cidr?
    ensures ParseRange(rt, PairText(r)) ==
            ParsePair(ToAddress(rt, PrintAddress(FirstAddress(r))),
                      ToAddress(rt, PrintAddress(LastAddress(r))), PairText(r))
  {
    hide PrintAddress, FirstOf, LastOf, ToAddress, ParsePair, Find, Trim;
    var a, b := PrintAddress(FirstAddress(r)), PrintAddress(LastAddress(r));
    PrintedIsPlain(FirstAddress(r));
    PrintedIsPlain(LastAddress(r));
    TrimsAround(a, "-", b);
    PlainTrims(a);
    CutAtMark(a, '-', b);
    PlainTrims(b);
    var s := a + "-" + b;
    assert s[..|a|] == a && s[|a| + 1..] == b;
  }

  lemma FirstNotAfterLast(r: Range)
    requires WellFormedRange(r) && r.Cidr?
    ensures Compare(FirstOf(r.bytes, r.prefix), LastOf(r.bytes, r.prefix)) <= 0
  {
    hide Value, Compare, Spell;
    var first, last := FirstOf(r.bytes, r.prefix), LastOf(r.bytes, r.prefix);
    assert Value(first) <= Value(last);
    CompareIsOrder(first, last);
  }

  /** Writing a CIDR entry as its first-last pair gives an entry holding the same
      addresses exactly when neither end is an IPv4-mapped address: such an end is read
      back as the IPv4 address it maps, in the other family. */
  lemma PairEntryIsSame(rt: Runtime, entry: string, r: Range)
    requires ParseRange(rt, entry) == Ok(r) && r.Cidr?
    requires Recognised(rt, FirstAddress(r)) && Recognised(rt, LastAddress(r))
    ensures SameAddresses(rt, entry, PairText(r)) <==>
            !Reducible(FirstAddress(r)) && !Reducible(LastAddress(r))
  {
    hide PrintAddress, FirstOf, LastOf, ToAddress, Compare, MaskMatch, Trim, Find;
    PairTextParses(rt, r);
    PrintedReads(rt, FirstAddress(r));
    PrintedReads(rt, LastAddress(r));
    FirstNotAfterLast(r);
    var pair := ParseRange(rt, PairText(r));
    if !Reducible(FirstAddress(r)) && !Reducible(LastAddress(r)) {
      assert pair == Ok(Span(r.family, FirstOf(r.bytes, r.prefix), LastOf(r.bytes, r.prefix), PairText(r)));
      forall a: Address | WellFormed(a)
        ensures Within(a, r) == Within(a, pair.value)
      {
        CidrIsItsPair(a, r);
      }
    } else if pair.Ok? {
      assert pair.value.family == 4;
      NetIsWithin(r);
      assert !Within(Address(r.bytes, 6), pair.value);
    }
  }

  lemma {:induction false} MaskMatchSelf(a: seq<byte>, n: nat)
    ensures MaskMatch(a, a, n)
  {
    if a != [] && n != 0 {
      MaskMatchSelf(a[1..], n - if n < 8 then n else 8);
    }
  }

  lemma NetIsWithin(r: Range)
    requires WellFormedRange(r) && r.Cidr?
    ensures WellFormed(Address(r.bytes, r.family)) && Within(Address(r.bytes, r.family), r)
  {
    MaskMatchSelf(r.bytes, r.prefix);
  }

  /** Every IPv4 CIDR entry, and every IPv6 one with no mapped end, can be rewritten as
      its pair anywhere in a list without changing any decision. */
  lemma PairRewriteKeepsDecision(rt: Runtime, es: seq<string>, i: nat, ip: string)
    requires i < |es| && ParseRange(rt, es[i]).Ok? && ParseRange(rt, es[i]).value.Cidr?
    requires var r := ParseRange(rt, es[i]).value;
             && Recognised(rt, FirstAddress(r)) && Recognised(rt, LastAddress(r))
             && !Reducible(FirstAddress(r)) && !Reducible(LastAddress(r))
    ensures var fs := es[i := PairText(ParseRange(rt, es[i]).value)];
            && (Decide(rt, Config(es, [], false), ip).Some? <==> Decide(rt, Config(fs, [], false), ip).Some?)
            && (Decide(rt, Config([], es, false), ip).Some? <==> Decide(rt, Config([], fs, false), ip).Some?)
  {
    hide ParseRange, Decide, PairText, Recognised, Reducible;
    var r := ParseRange(rt, es[i]).value;
    var fs := es[i := PairText(r)];
    PairEntryIsSame(rt, es[i], r);
    hide SameAddresses;
    assert forall k :: 0 <= k < |es| ==> es[k] == fs[k] || SameAddresses(rt, es[k], fs[k]);
    RewritingKeepsDecision(rt, es, fs, ip);
  }

  /** The first address of ::fffe:0:0/95, whose last is ::ffff:255.255.255.255. */
  const BEFORE_MAPPED: seq<byte> := Zeros(10) + [0xff, 0xfe, 0, 0, 0, 0]

  lemma MappedEndExists(text: string)
    ensures var r := Cidr(6, BEFORE_MAPPED, 95, text);
            && WellFormedRange(r) && Reducible(LastAddress(r))
            && !Reducible(FirstAddress(r)) && FirstAddress(r) == Address(BEFORE_MAPPED, 6)
  {
    var low: seq<byte> := [0xff, 0xfe, 0, 0, 0, 0];
    var high: seq<byte> := [0xff, 0xff, 0xff, 0xff, 0xff, 0xff];
    ValueOfTail(low);
    ValueOfTail(high);
    ValueOfSix(low);
    ValueOfSix(high);
    TwoTo33();
    hide Value, Spell, Pow;
    ValueInjective(LastOf(BEFORE_MAPPED, 95), Zeros(10) + high);
    ValueInjective(FirstOf(BEFORE_MAPPED, 95), BEFORE_MAPPED);
  }

  /** What the condition keeps out, from the text of an entry to a decision: the entry for a
      block that ends at a mapped address parses, its pair does not, and with the one for
      the other a block-list lets through the address the entry was written with. */
  lemma MappedEndChangesDecision(rt: Runtime, a: Address, digits: string, block: Range)
    requires WellFormed(a) && a.family == 6 && Recognised(rt, a) && !Reducible(a)
    requires digits != "" && AllDigits(digits, 10) && rt.number(digits) == Some(Numeral(digits, 10))
    requires Numeral(digits, 10) <= 128
    requires block == Cidr(6, a.bytes, Numeral(digits, 10), PrintAddress(a) + "/" + digits)
    requires Recognised(rt, FirstAddress(block)) && Recognised(rt, LastAddress(block))
    requires !Reducible(FirstAddress(block)) && Reducible(LastAddress(block))
    ensures ParseRange(rt, block.text) == Ok(block)
    ensures ParseRange(rt, PairText(block)) == Err(MixesFamilies)
    ensures !SameAddresses(rt, block.text, PairText(block))
    ensures Decide(rt, Config([], [block.text], false), PrintAddress(a)) == Some(block.text)
    ensures Decide(rt, Config([], [PairText(block)], false), PrintAddress(a)) == None
  {
    hide PrintAddress, FirstOf, LastOf, ToAddress, Numeral, AllDigits, ParseRange, Within, PairText, Recognised;
    hide Mapped, Decide, SameAddresses;
    BlockEntryParses(rt, a, digits);
    PairOfMixed(rt, block);
    SameNeedsBoth(rt, block.text, PairText(block));
    PrintedReads(rt, a);
    NetIsWithin(block);
    OneBlocked(rt, block.text, PrintAddress(a), a);
    OneBlocked(rt, PairText(block), PrintAddress(a), a);
  }

  /** There is such an entry. */
  lemma PairRewriteCanChangeDecision(rt: Runtime)
    requires rt.number("95") == Some(95)
    requires Recognised(rt, Address(BEFORE_MAPPED, 6))
    requires Recognised(rt, LastAddress(Cidr(6, BEFORE_MAPPED, 95, "")))
    ensures var a := Address(BEFORE_MAPPED, 6);
            var entry := PrintAddress(a) + "/95";
            var pair := PairText(Cidr(6, BEFORE_MAPPED, 95, entry));
            && !SameAddresses(rt, entry, pair)
            && Decide(rt, Config([], [entry], false), PrintAddress(a)).Some?
            && Decide(rt, Config([], [pair], false), PrintAddress(a)).None?
  {
    var a := Address(BEFORE_MAPPED, 6);
    var entry := PrintAddress(a) + "/95";
    NinetyFive();
    MappedEndExists(entry);
    hide PrintAddress, FirstOf, LastOf, Numeral, AllDigits, PairText, Recognised, Mapped, Decide, SameAddresses, Zeros;
    MappedEndChangesDecision(rt, a, "95", Cidr(6, BEFORE_MAPPED, 95, entry));
  }

  lemma PairOfMixed(rt: Runtime, block: Range)
    requires WellFormedRange(block) && block.Cidr? && block.family == 6
    requires Recognised(rt, FirstAddress(block)) && Recognised(rt, LastAddress(block))
    requires !Reducible(FirstAddress(block)) && Reducible(LastAddress(block))
    ensures ParseRange(rt, PairText(block)) == Err(MixesFamilies)
  {
    hide PrintAddress, FirstOf, LastOf, ToAddress, ParseRange, PairText, Recognised, Mapped;
    PairTextParses(rt, block);
    PrintedReads(rt, FirstAddress(block));
    PrintedReads(rt, LastAddress(block));
  }

  lemma SameNeedsBoth(rt: Runtime, e: string, f: string)
    ensures SameAddresses(rt, e, f) ==> (ParseRange(rt, e).Ok? <==> ParseRange(rt, f).Ok?)
  {
    hide ParseRange;
  }

  /** A block-list of one entry. */
  lemma OneBlocked(rt: Runtime, entry: string, ip: string, a: Address)
    requires WellFormed(a) && ToAddress(rt, ip) == Some(a)
    ensures var r := ParseRange(rt, entry);
            Decide(rt, Config([], [entry], false), ip) ==
            if r.Ok? && Within(a, r.value) then Some(r.value.text) else None
  {
    hide ParseRange, ToAddress, Within;
    OneEntry(rt, entry);
    assert FirstMatch(a, []) == None;
    if ParseRange(rt, entry).Ok? {
      var r := ParseRange(rt, entry).value;
      assert [r][1..] == [];
      assert FirstMatch(a, [r]) == if Within(a, r) then Some(r) else None;
    }
  }

  lemma NinetyFive()
    ensures AllDigits("95", 10) && Numeral("95", 10) == 95
  {
    assert "95"[..1] == "9" && "9"[..0] == "";
    assert Numeral("9", 10) == 9;
  }

  lemma OneEntry(rt: Runtime, entry: string)
    ensures Loaded(rt, [entry]) == if ParseRange(rt, entry).Ok? then [ParseRange(rt, entry).value] else []
  {
    hide ParseRange;
    assert [entry][1..] == [];
    assert Loaded(rt, []) == [];
  }

  lemma TwoTo33()
    ensures Pow(2, 33) == 0x2_0000_0000
  {
    PowersOfTwo();
    PowAdd(2, 8, 8);
    PowAdd(2, 16, 16);
    PowAdd(2, 1, 32);
  }

  lemma {:induction false} ValueOfZeros(n: nat)
    ensures Value(Zeros(n)) == 0
  {
    if n > 0 {
      assert Zeros(n)[..n - 1] == Zeros(n - 1);
      ValueOfZeros(n - 1);
    }
  }

  lemma ValueOfTail(t: seq<byte>)
    ensures Value(Zeros(10) + t) == Value(t)
  {
    ValueOfZeros(10);
    ValueAppend(Zeros(10), t);
  }

  lemma ValueOfSix(t: seq<byte>)
    requires |t| == 6
    ensures Value(t) ==
            (((((t[0] as int) * 256 + t[1]) * 256 + t[2]) * 256 + t[3]) * 256 + t[4]) * 256 + t[5]
  {
    forall i | 0 <= i < 6
      ensures Value(t[..i + 1]) == Value(t[..i]) * 256 + t[i]
    {
      assert t[..i + 1][..i] == t[..i];
    }
    assert Value(t[..0]) == 0;
    assert Value(t[..1]) == t[0];
    assert Value(t[..2]) == (t[0] as int) * 256 + t[1];
    assert Value(t[..3]) == ((t[0] as int) * 256 + t[1]) * 256 + t[2];
    assert Value(t[..4]) == (((t[0] as int) * 256 + t[1]) * 256 + t[2]) * 256 + t[3];
    assert Value(t[..5]) == ((((t[0] as int) * 256 + t[1]) * 256 + t[2]) * 256 + t[3]) * 256 + t[4];
    assert t[..6] == t;
  }
}
