/** api/ssrf_guard.js: which addresses the ranges blocked by default hold. */
module SsrfDefaults {
  import opened Bytes
  import opened Bits
  import opened Text
  import opened SsrfAddresses
  import opened SsrfSpelling
  import opened SsrfRanges
  import opened SsrfGuard

  // ------------------------------------------------------------ reading entries

  lemma JoinFour(a: string, b: string, c: string, d: string)
    ensures Join([a, b, c, d], ".") == a + "." + b + "." + c + "." + d
  {
    assert [a, b, c, d][1..] == [b, c, d] && [b, c, d][1..] == [c, d] && [c, d][1..] == [d];
    assert Join([c, d], ".") == c + "." + d;
    assert Join([b, c, d], ".") == b + "." + (c + "." + d);
  }

  lemma BlockReads(rt: Runtime, a: string, b: string, address: Address, n: nat)
    requires Plain(a) && Plain(b) && WellFormed(address)
    requires ToAddress(rt, a) == Some(address) && rt.number(b) == Some(n) && n <= 8 * |address.bytes|
    ensures ParseRange(rt, a + "/" + b) == Ok(Cidr(address.family, address.bytes, n, a + "/" + b))
  {
    hide ToAddress, Trim, Find, ParseRange;
    var s := a + "/" + b;
    PlainTrims(a);
    PlainTrims(b);
    assert !IsSpace(a[0]) && !IsSpace(b[|b| - 1]);
    assert s[0] == a[0] && s[|s| - 1] == b[|b| - 1];
    TrimKeeps(s);
    BlockParsesExactly(rt, s, a, b);
  }

  /** An entry of the form "p.q.r.s/bits". */
  lemma V4Reads(rt: Runtime, p: seq<string>, v: seq<byte>, text: string, bits: string, n: nat)
    requires |p| == |v| == 4 && SpellsOctets(p, v) && text == p[0] + "." + p[1] + "." + p[2] + "." + p[3]
    requires rt.isIP(text) != 6 && rt.number(bits) == Some(n) && n <= 32 && Plain(bits)
    ensures ParseRange(rt, text + "/" + bits) == Ok(Cidr(4, v, n, text + "/" + bits))
  {
    hide ToAddress, ParseRange, Numeral;
    assert p == [p[0], p[1], p[2], p[3]];
    JoinFour(p[0], p[1], p[2], p[3]);
    forall i | 0 <= i < 4
      ensures IsOctet(p[i])
    {
      assert SpellsOctet(p[i], v[i]);
      DigitsAreListed(p[i]);
    }
    OctetsAreIPv4(rt, p, v);
    PlainQuad(p, v);
    BlockReads(rt, text, bits, Address(v, 4), n);
  }

  lemma PlainQuad(p: seq<string>, v: seq<byte>)
    requires |p| == |v| == 4 && SpellsOctets(p, v)
    ensures Plain(p[0] + "." + p[1] + "." + p[2] + "." + p[3])
  {
    hide Numeral;
    forall i | 0 <= i < 4
      ensures AllDigits(p[i], 10)
    {
      assert SpellsOctet(p[i], v[i]);
      DigitsAreListed(p[i]);
    }
  }

  lemma Decimal(p: string, n: nat)
    requires 1 <= |p| <= 3 && DigitOf(p[0]) < 10
    requires (|p| > 1 ==> DigitOf(p[1]) < 10) && (|p| > 2 ==> DigitOf(p[2]) < 10)
    requires n == (if |p| == 1 then DigitOf(p[0])
                   else if |p| == 2 then 10 * DigitOf(p[0]) + DigitOf(p[1])
                   else 100 * DigitOf(p[0]) + 10 * DigitOf(p[1]) + DigitOf(p[2]))
    ensures Numeral(p, 10) == n && (n < 256 ==> SpellsOctet(p, n))
  {
    assert p[..|p|] == p && p[..0] == "";
    assert Numeral(p[..0], 10) == 0;
    assert p[..1][..0] == "" && Numeral(p[..1], 10) == DigitOf(p[0]);
    if |p| >= 2 {
      assert p[..2][..1] == p[..1] && Numeral(p[..2], 10) == 10 * DigitOf(p[0]) + DigitOf(p[1]);
    }
    if |p| == 3 {
      assert p[..3][..2] == p[..2];
    }
    if n < 256 { DecimalIsOctet(p, n); }
  }

  lemma DecimalIsOctet(p: string, n: byte)
    requires 1 <= |p| <= 3 && Numeral(p, 10) == n && DigitOf(p[0]) < 10
    requires (|p| > 1 ==> DigitOf(p[1]) < 10) && (|p| > 2 ==> DigitOf(p[2]) < 10)
    ensures SpellsOctet(p, n)
  {
    hide Numeral, DigitOf;
    assert AllDigits(p, 10);
    DigitsAreListed(p);
  }

  /** A three-group text of the form "::g", "g::" with the bytes its group spells. */
  lemma V6Reads(rt: Runtime, head: seq<string>, tail: seq<string>, b: seq<byte>, text: string, bits: string, n: nat)
    requires |head| + |tail| == 1 && HexGroup((head + tail)[0])
    requires text == if head == [] then "::" + tail[0] else head[0] + "::"
    requires var g := Groups(head + tail);
             g.Some? && b == if head == [] then Zeros(14) + g.value else g.value + Zeros(14)
    requires !Mapped(b) && rt.number(bits) == Some(n) && n <= 128 && Plain(bits)
    requires rt.isIP(text) == 6
    ensures ParseRange(rt, text + "/" + bits) == Ok(Cidr(6, b, n, text + "/" + bits))
  {
    JoinOneOrNone(head, tail);
    hide ToAddress, ParseRange, IPv6Of, Join, GroupBytes, IsGroup;
    var sp := Spelling(head, Some(tail), None, None);
    OneGroup(head, tail);
    assert HeadPieces(sp) == head && TailPieces(sp) == tail;
    assert Print(sp) == text + "" == text;
    assert Denote(sp) == b;
    ReadsEverySpelling(sp);
    PlainV6(head, tail);
    NotReduced(rt, text, b);
    BlockReads(rt, text, bits, Address(b, 6), n);
  }

  lemma JoinOneOrNone(head: seq<string>, tail: seq<string>)
    requires |head| + |tail| == 1
    ensures Join(head, ":") + "::" + Join(tail, ":") == if head == [] then "::" + tail[0] else head[0] + "::"
  {
    if head == [] {
      assert "" + "::" + tail[0] == "::" + tail[0];
    } else {
      assert head[0] + "::" + "" == head[0] + "::";
    }
  }

  lemma NotReduced(rt: Runtime, text: string, b: seq<byte>)
    requires rt.isIP(text) == 6 && IPv6Of(text) == Some(b) && !Mapped(b)
    ensures ToAddress(rt, text) == Some(Address(b, 6))
  {
    hide IPv6Of, IPv4Of;
  }

  lemma OneGroup(head: seq<string>, tail: seq<string>)
    requires |head| + |tail| == 1 && Groups(head + tail).Some?
    ensures Groups(head).Some? && Groups(tail).Some?
    ensures head == [] ==> Groups(head).value == [] && Groups(tail) == Groups(head + tail)
    ensures head != [] ==> Groups(tail).value == [] && Groups(head) == Groups(head + tail)
  {
    if head == [] {
      assert head + tail == tail;
    } else {
      assert head + tail == head && tail == [];
    }
  }

  lemma PlainV6(head: seq<string>, tail: seq<string>)
    requires |head| + |tail| == 1 && HexGroup((head + tail)[0])
    ensures Plain(Join(head, ":") + "::" + Join(tail, ":"))
  {
    var g := (head + tail)[0];
    DigitsAreListed(g);
    if head == [] {
      assert tail == [g] && Join(tail, ":") == g && Join(head, ":") == "";
    } else {
      assert head == [g] && tail == [] && Join(head, ":") == g && Join(tail, ":") == "";
    }
  }

  lemma GroupReads(g: string, n: nat)
    requires HexGroup(g) && n == Numeral(g, 16)
    ensures n < 0x1_0000 && Groups([g]) == Some([n / 256, n % 256])
  {
    DigitsAreListed(g);
    GroupBound(g);
    assert [g][1..] == [];
    assert GroupBytes(g) + [] == GroupBytes(g);
  }

  // --------------------------------------------------------- what a block holds

  /** A prefix of whole bytes and then some bits: those bytes are the same, and the next
      byte divided by the size of what is left of it. */
  lemma {:induction false} HoldsPrefix(a: seq<byte>, b: seq<byte>, whole: nat, bits: nat)
    requires |a| == |b| && whole <= |a| && bits < 8 && (bits > 0 ==> whole < |a|)
    ensures MaskMatch(a, b, 8 * whole + bits) <==>
            a[..whole] == b[..whole] && (bits > 0 ==> a[whole] / Pow(2, 8 - bits) == b[whole] / Pow(2, 8 - bits))
  {
    hide BitAnd, Mask, Pow;
    if whole > 0 {
      WholeByteMask(a, b, 8 * whole + bits);
      HoldsPrefix(a[1..], b[1..], whole - 1, bits);
      HeadAndRest(a, whole);
      HeadAndRest(b, whole);
      SameHeads(a[0], b[0], a[1..][..whole - 1], b[1..][..whole - 1]);
    } else if bits > 0 {
      assert a[..0] == b[..0];
      MaskKeepsHighBits(a[0], b[0], bits);
    } else {
      assert a[..0] == b[..0];
    }
  }

  lemma HeadAndRest(a: seq<byte>, n: nat)
    requires 0 < n <= |a|
    ensures a[..n] == [a[0]] + a[1..][..n - 1]
  {
  }

  lemma SameHeads(x: byte, y: byte, a: seq<byte>, b: seq<byte>)
    requires |a| == |b|
    ensures [x] + a == [y] + b <==> x == y && a == b
  {
    if [x] + a == [y] + b {
      assert ([x] + a)[0] == ([y] + b)[0] && ([x] + a)[1..] == ([y] + b)[1..];
    }
  }

  /** The addresses the service does not connect to unless told otherwise, in bytes: this
      host and network, the private networks, link-local, shared (carrier NAT), protocol
      assignments and benchmarking for IPv4; loopback, link-local and unique local for
      IPv6. */
  predicate BlockedByDefault(a: Address)
    requires WellFormed(a)
  {
    var b := a.bytes;
    if a.family == 4 then
      || b[0] == 127 || b[0] == 0 || b[0] == 10
      || (b[0] == 172 && 16 <= b[1] < 32)
      || (b[0] == 192 && b[1] == 168)
      || (b[0] == 169 && b[1] == 254)
      || (b[0] == 100 && 64 <= b[1] < 128)
      || (b[0] == 192 && b[1] == 0 && b[2] == 0)
      || (b[0] == 198 && 18 <= b[1] < 20)
    else
      || (b[15] == 1 && forall i :: 0 <= i < 15 ==> b[i] == 0)
      || (b[0] == 0xfe && 0x80 <= b[1] < 0xc0)
      || b[0] == 0xfc || b[0] == 0xfd
  }

  /** `net.isIP` and `Number` do on the texts of the list what they are there for. */
  predicate KnowsDefaults(rt: Runtime) {
    && rt.isIP("127.0.0.0") == 4 && rt.isIP("0.0.0.0") == 4 && rt.isIP("10.0.0.0") == 4
    && rt.isIP("172.16.0.0") == 4 && rt.isIP("192.168.0.0") == 4 && rt.isIP("169.254.0.0") == 4
    && rt.isIP("100.64.0.0") == 4 && rt.isIP("192.0.0.0") == 4 && rt.isIP("198.18.0.0") == 4
    && rt.isIP("::1") == 6 && rt.isIP("fe80::") == 6 && rt.isIP("fc00::") == 6
    && rt.number("7") == Some(7) && rt.number("8") == Some(8) && rt.number("10") == Some(10)
    && rt.number("12") == Some(12) && rt.number("15") == Some(15) && rt.number("16") == Some(16)
    && rt.number("24") == Some(24) && rt.number("128") == Some(128)
  }

  /** One entry of the list, read. */
  ghost predicate Reads4(rt: Runtime, entry: string, v: seq<byte>, n: nat) {
    |v| == 4 && ParseRange(rt, entry) == Ok(Cidr(4, v, n, entry))
  }

  lemma Loopback(rt: Runtime)
    requires KnowsDefaults(rt)
    ensures Reads4(rt, "127.0.0.0/8", [127, 0, 0, 0], 8)
  {
    hide ParseRange, Numeral;
    Decimal("127", 127);
    Decimal("0", 0);
    assert "127.0.0.0" == "127" + "." + "0" + "." + "0" + "." + "0";
    V4Reads(rt, ["127", "0", "0", "0"], [127, 0, 0, 0], "127.0.0.0", "8", 8);
    assert "127.0.0.0" + "/" + "8" == "127.0.0.0/8";
  }

  lemma ThisNetwork(rt: Runtime)
    requires KnowsDefaults(rt)
    ensures Reads4(rt, "0.0.0.0/8", [0, 0, 0, 0], 8)
  {
    hide ParseRange, Numeral;
    Decimal("0", 0);
    assert "0.0.0.0" == "0" + "." + "0" + "." + "0" + "." + "0";
    V4Reads(rt, ["0", "0", "0", "0"], [0, 0, 0, 0], "0.0.0.0", "8", 8);
    assert "0.0.0.0" + "/" + "8" == "0.0.0.0/8";
  }

  lemma Private10(rt: Runtime)
    requires KnowsDefaults(rt)
    ensures Reads4(rt, "10.0.0.0/8", [10, 0, 0, 0], 8)
  {
    hide ParseRange, Numeral;
    Decimal("10", 10);
    Decimal("0", 0);
    assert "10.0.0.0" == "10" + "." + "0" + "." + "0" + "." + "0";
    V4Reads(rt, ["10", "0", "0", "0"], [10, 0, 0, 0], "10.0.0.0", "8", 8);
    assert "10.0.0.0" + "/" + "8" == "10.0.0.0/8";
  }

  lemma Private172(rt: Runtime)
    requires KnowsDefaults(rt)
    ensures Reads4(rt, "172.16.0.0/12", [172, 16, 0, 0], 12)
  {
    hide ParseRange, Numeral;
    Decimal("172", 172);
    Decimal("16", 16);
    Decimal("0", 0);
    assert "172.16.0.0" == "172" + "." + "16" + "." + "0" + "." + "0";
    V4Reads(rt, ["172", "16", "0", "0"], [172, 16, 0, 0], "172.16.0.0", "12", 12);
    assert "172.16.0.0" + "/" + "12" == "172.16.0.0/12";
  }

  lemma Private192(rt: Runtime)
    requires KnowsDefaults(rt)
    ensures Reads4(rt, "192.168.0.0/16", [192, 168, 0, 0], 16)
  {
    hide ParseRange, Numeral;
    Decimal("192", 192);
    Decimal("168", 168);
    Decimal("0", 0);
    assert "192.168.0.0" == "192" + "." + "168" + "." + "0" + "." + "0";
    V4Reads(rt, ["192", "168", "0", "0"], [192, 168, 0, 0], "192.168.0.0", "16", 16);
    assert "192.168.0.0" + "/" + "16" == "192.168.0.0/16";
  }

  lemma LinkLocal(rt: Runtime)
    requires KnowsDefaults(rt)
    ensures Reads4(rt, "169.254.0.0/16", [169, 254, 0, 0], 16)
  {
    hide ParseRange, Numeral;
    Decimal("169", 169);
    Decimal("254", 254);
    Decimal("0", 0);
    assert "169.254.0.0" == "169" + "." + "254" + "." + "0" + "." + "0";
    V4Reads(rt, ["169", "254", "0", "0"], [169, 254, 0, 0], "169.254.0.0", "16", 16);
    assert "169.254.0.0" + "/" + "16" == "169.254.0.0/16";
  }

  lemma Shared(rt: Runtime)
    requires KnowsDefaults(rt)
    ensures Reads4(rt, "100.64.0.0/10", [100, 64, 0, 0], 10)
  {
    hide ParseRange, Numeral;
    Decimal("100", 100);
    Decimal("64", 64);
    Decimal("0", 0);
    assert "100.64.0.0" == "100" + "." + "64" + "." + "0" + "." + "0";
    V4Reads(rt, ["100", "64", "0", "0"], [100, 64, 0, 0], "100.64.0.0", "10", 10);
    assert "100.64.0.0" + "/" + "10" == "100.64.0.0/10";
  }

  lemma Assignments(rt: Runtime)
    requires KnowsDefaults(rt)
    ensures Reads4(rt, "192.0.0.0/24", [192, 0, 0, 0], 24)
  {
    hide ParseRange, Numeral;
    Decimal("192", 192);
    Decimal("0", 0);
    assert "192.0.0.0" == "192" + "." + "0" + "." + "0" + "." + "0";
    V4Reads(rt, ["192", "0", "0", "0"], [192, 0, 0, 0], "192.0.0.0", "24", 24);
    assert "192.0.0.0" + "/" + "24" == "192.0.0.0/24";
  }

  lemma Benchmarking(rt: Runtime)
    requires KnowsDefaults(rt)
    ensures Reads4(rt, "198.18.0.0/15", [198, 18, 0, 0], 15)
  {
    hide ParseRange, Numeral;
    Decimal("198", 198);
    Decimal("18", 18);
    Decimal("0", 0);
    assert "198.18.0.0" == "198" + "." + "18" + "." + "0" + "." + "0";
    V4Reads(rt, ["198", "18", "0", "0"], [198, 18, 0, 0], "198.18.0.0", "15", 15);
    assert "198.18.0.0" + "/" + "15" == "198.18.0.0/15";
  }

  const LOOPBACK: seq<byte> := Zeros(14) + [0, 1]
  const LINK_LOCAL: seq<byte> := [0xfe, 0x80] + Zeros(14)
  const UNIQUE_LOCAL: seq<byte> := [0xfc, 0] + Zeros(14)

  lemma Loopback6(rt: Runtime)
    requires KnowsDefaults(rt)
    ensures ParseRange(rt, "::1/128") == Ok(Cidr(6, LOOPBACK, 128, "::1/128"))
  {
    hide ParseRange, Numeral, Groups;
    HexNumerals();
    GroupReads("1", 1);
    assert [] + ["1"] == ["1"];
    V6Reads(rt, [], ["1"], LOOPBACK, "::1", "128", 128);
    assert "::1" + "/" + "128" == "::1/128";
  }

  lemma LinkLocal6(rt: Runtime)
    requires KnowsDefaults(rt)
    ensures ParseRange(rt, "fe80::/10") == Ok(Cidr(6, LINK_LOCAL, 10, "fe80::/10"))
  {
    hide ParseRange, Numeral, Groups;
    HexNumerals();
    GroupReads("fe80", 0xfe80);
    assert ["fe80"] + [] == ["fe80"];
    V6Reads(rt, ["fe80"], [], LINK_LOCAL, "fe80::", "10", 10);
    assert "fe80::" + "/" + "10" == "fe80::/10";
  }

  lemma UniqueLocal6(rt: Runtime)
    requires KnowsDefaults(rt)
    ensures ParseRange(rt, "fc00::/7") == Ok(Cidr(6, UNIQUE_LOCAL, 7, "fc00::/7"))
  {
    hide ParseRange, Numeral, Groups;
    HexNumerals();
    GroupReads("fc00", 0xfc00);
    assert ["fc00"] + [] == ["fc00"];
    V6Reads(rt, ["fc00"], [], UNIQUE_LOCAL, "fc00::", "7", 7);
    assert "fc00::" + "/" + "7" == "fc00::/7";
  }

  lemma HexNumerals()
    ensures Numeral("1", 16) == 1 && Numeral("fe80", 16) == 0xfe80 && Numeral("fc00", 16) == 0xfc00
  {
    FourHex("fe80");
    FourHex("fc00");
    assert "1"[..0] == "";
  }

  lemma FourHex(g: string)
    requires |g| == 4
    ensures Numeral(g, 16) == 16 * (16 * (16 * DigitOf(g[0]) + DigitOf(g[1])) + DigitOf(g[2])) + DigitOf(g[3])
  {
    assert g[..3][..2] == g[..2] && g[..2][..1] == g[..1] && g[..1][..0] == "";
    assert Numeral(g[..1], 16) == DigitOf(g[0]);
    assert Numeral(g[..2], 16) == 16 * DigitOf(g[0]) + DigitOf(g[1]);
    assert Numeral(g[..3], 16) == 16 * (16 * DigitOf(g[0]) + DigitOf(g[1])) + DigitOf(g[2]);
  }

  lemma HoldsV4(a: Address, v: seq<byte>, whole: nat, bits: nat, text: string)
    requires WellFormed(a) && a.family == 4 && |v| == 4 && whole < 4 && bits < 8
    ensures Within(a, Cidr(4, v, 8 * whole + bits, text)) <==>
            a.bytes[..whole] == v[..whole] &&
            (bits > 0 ==> a.bytes[whole] / Pow(2, 8 - bits) == v[whole] / Pow(2, 8 - bits))
  {
    HoldsPrefix(a.bytes, v, whole, bits);
  }

  /** Some entry of the list for IPv4 holds `a`. */
  ghost predicate SomeV4Holds(a: Address)
    requires WellFormed(a)
  {
    || Within(a, Cidr(4, [127, 0, 0, 0], 8, "127.0.0.0/8")) || Within(a, Cidr(4, [0, 0, 0, 0], 8, "0.0.0.0/8"))
    || Within(a, Cidr(4, [10, 0, 0, 0], 8, "10.0.0.0/8")) || Within(a, Cidr(4, [172, 16, 0, 0], 12, "172.16.0.0/12"))
    || Within(a, Cidr(4, [192, 168, 0, 0], 16, "192.168.0.0/16"))
    || Within(a, Cidr(4, [169, 254, 0, 0], 16, "169.254.0.0/16"))
    || Within(a, Cidr(4, [100, 64, 0, 0], 10, "100.64.0.0/10"))
    || Within(a, Cidr(4, [192, 0, 0, 0], 24, "192.0.0.0/24"))
    || Within(a, Cidr(4, [198, 18, 0, 0], 15, "198.18.0.0/15"))
  }

  lemma WholeBytesHold(a: Address)
    requires WellFormed(a) && a.family == 4
    ensures Within(a, Cidr(4, [127, 0, 0, 0], 8, "127.0.0.0/8")) <==> a.bytes[0] == 127
    ensures Within(a, Cidr(4, [0, 0, 0, 0], 8, "0.0.0.0/8")) <==> a.bytes[0] == 0
    ensures Within(a, Cidr(4, [10, 0, 0, 0], 8, "10.0.0.0/8")) <==> a.bytes[0] == 10
    ensures Within(a, Cidr(4, [192, 168, 0, 0], 16, "192.168.0.0/16")) <==> a.bytes[0] == 192 && a.bytes[1] == 168
    ensures Within(a, Cidr(4, [169, 254, 0, 0], 16, "169.254.0.0/16")) <==> a.bytes[0] == 169 && a.bytes[1] == 254
    ensures Within(a, Cidr(4, [192, 0, 0, 0], 24, "192.0.0.0/24")) <==>
            a.bytes[0] == 192 && a.bytes[1] == 0 && a.bytes[2] == 0
  {
    hide Within, Pow;
    HoldsV4(a, [127, 0, 0, 0], 1, 0, "127.0.0.0/8");
    HoldsV4(a, [0, 0, 0, 0], 1, 0, "0.0.0.0/8");
    HoldsV4(a, [10, 0, 0, 0], 1, 0, "10.0.0.0/8");
    HoldsV4(a, [192, 168, 0, 0], 2, 0, "192.168.0.0/16");
    HoldsV4(a, [169, 254, 0, 0], 2, 0, "169.254.0.0/16");
    HoldsV4(a, [192, 0, 0, 0], 3, 0, "192.0.0.0/24");
    StartsWith(a.bytes);
  }

  lemma PartBytesHold(a: Address)
    requires WellFormed(a) && a.family == 4
    ensures Within(a, Cidr(4, [172, 16, 0, 0], 12, "172.16.0.0/12")) <==> a.bytes[0] == 172 && 16 <= a.bytes[1] < 32
    ensures Within(a, Cidr(4, [100, 64, 0, 0], 10, "100.64.0.0/10")) <==> a.bytes[0] == 100 && 64 <= a.bytes[1] < 128
    ensures Within(a, Cidr(4, [198, 18, 0, 0], 15, "198.18.0.0/15")) <==> a.bytes[0] == 198 && 18 <= a.bytes[1] < 20
  {
    PowersOfTwo();
    hide Within, Pow;
    HoldsV4(a, [172, 16, 0, 0], 1, 4, "172.16.0.0/12");
    HoldsV4(a, [100, 64, 0, 0], 1, 2, "100.64.0.0/10");
    HoldsV4(a, [198, 18, 0, 0], 1, 7, "198.18.0.0/15");
    StartsWith(a.bytes);
  }

  lemma TheV4Hold(a: Address)
    requires WellFormed(a) && a.family == 4
    ensures BlockedByDefault(a) <==> SomeV4Holds(a)
  {
    hide Within;
    WholeBytesHold(a);
    PartBytesHold(a);
  }

  lemma StartsWith(b: seq<byte>)
    requires |b| == 4
    ensures forall x: byte :: b[..1] == [x] <==> b[0] == x
    ensures forall x: byte, y: byte :: b[..2] == [x, y] <==> b[0] == x && b[1] == y
    ensures forall x: byte, y: byte, z: byte :: b[..3] == [x, y, z] <==> b[0] == x && b[1] == y && b[2] == z
  {
  }

  lemma TheV6Hold(a: Address)
    requires WellFormed(a) && a.family == 6
    ensures BlockedByDefault(a) <==>
            || Within(a, Cidr(6, LOOPBACK, 128, "::1/128")) || Within(a, Cidr(6, LINK_LOCAL, 10, "fe80::/10"))
            || Within(a, Cidr(6, UNIQUE_LOCAL, 7, "fc00::/7"))
  {
    PowersOfTwo();
    hide MaskMatch, Pow;
    var b := a.bytes;
    HoldsPrefix(b, LOOPBACK, 16, 0);
    HoldsPrefix(b, LINK_LOCAL, 1, 2);
    HoldsPrefix(b, UNIQUE_LOCAL, 0, 7);
    assert b[..16] == b && LOOPBACK[..16] == LOOPBACK;
    assert b == LOOPBACK <==> b[15] == 1 && forall i :: 0 <= i < 15 ==> b[i] == 0;
    assert b[..1] == [0xfe] <==> b[0] == 0xfe;
  }

  ghost predicate EntryHolds(rt: Runtime, a: Address, e: string)
    requires WellFormed(a)
  {
    ParseRange(rt, e).Ok? && Within(a, ParseRange(rt, e).value)
  }

  /** With nothing configured, exactly those addresses are refused. */
  lemma DefaultsExactly(rt: Runtime, ip: string)
    requires KnowsDefaults(rt)
    ensures Decide(rt, Config([], [], false), ip).Some? <==>
            ToAddress(rt, ip).Some? && BlockedByDefault(ToAddress(rt, ip).value)
  {
    DecidesExactly(rt, Config([], [], false), ip);
    if ToAddress(rt, ip).Some? {
      hide ToAddress, ParseRange, Within, BlockedByDefault, Decide, DEFAULT_BLOCKED_RANGES;
      EntriesHold(rt, ToAddress(rt, ip).value);
    }
  }

  /** The list, entry by entry. */
  lemma EntriesHold(rt: Runtime, a: Address)
    requires KnowsDefaults(rt) && WellFormed(a)
    ensures (exists e :: e in DEFAULT_BLOCKED_RANGES && EntryHolds(rt, a, e)) <==> BlockedByDefault(a)
  {
    FirstEntries(rt, a);
    LaterEntries(rt, a);
    LastEntries(rt, a);
    if a.family == 4 { TheV4Hold(a); } else { TheV6Hold(a); }
    hide BlockedByDefault, EntryHolds;
    assert |DEFAULT_BLOCKED_RANGES| == 12;
    hide DEFAULT_BLOCKED_RANGES;
    OneOfTwelve(rt, a, DEFAULT_BLOCKED_RANGES);
  }

  lemma OneOfTwelve(rt: Runtime, a: Address, list: seq<string>)
    requires WellFormed(a) && |list| == 12
    ensures (exists e :: e in list && EntryHolds(rt, a, e)) <==>
            || EntryHolds(rt, a, list[0]) || EntryHolds(rt, a, list[1]) || EntryHolds(rt, a, list[2])
            || EntryHolds(rt, a, list[3]) || EntryHolds(rt, a, list[4]) || EntryHolds(rt, a, list[5])
            || EntryHolds(rt, a, list[6]) || EntryHolds(rt, a, list[7]) || EntryHolds(rt, a, list[8])
            || EntryHolds(rt, a, list[9]) || EntryHolds(rt, a, list[10]) || EntryHolds(rt, a, list[11])
  {
    hide EntryHolds;
  }

  lemma FirstEntries(rt: Runtime, a: Address)
    requires KnowsDefaults(rt) && WellFormed(a)
    ensures EntryHolds(rt, a, DEFAULT_BLOCKED_RANGES[0]) <==> Within(a, Cidr(4, [127, 0, 0, 0], 8, "127.0.0.0/8"))
    ensures EntryHolds(rt, a, DEFAULT_BLOCKED_RANGES[1]) <==> Within(a, Cidr(4, [0, 0, 0, 0], 8, "0.0.0.0/8"))
    ensures EntryHolds(rt, a, DEFAULT_BLOCKED_RANGES[2]) <==> Within(a, Cidr(4, [10, 0, 0, 0], 8, "10.0.0.0/8"))
    ensures EntryHolds(rt, a, DEFAULT_BLOCKED_RANGES[3]) <==> Within(a, Cidr(4, [172, 16, 0, 0], 12, "172.16.0.0/12"))
    ensures EntryHolds(rt, a, DEFAULT_BLOCKED_RANGES[4]) <==> Within(a, Cidr(4, [192, 168, 0, 0], 16, "192.168.0.0/16"))
    ensures EntryHolds(rt, a, DEFAULT_BLOCKED_RANGES[5]) <==> Within(a, Cidr(4, [169, 254, 0, 0], 16, "169.254.0.0/16"))
  {
    hide ParseRange, Within, KnowsDefaults;
    Loopback(rt);
    ThisNetwork(rt);
    Private10(rt);
    Private172(rt);
    Private192(rt);
    LinkLocal(rt);
  }

  lemma LaterEntries(rt: Runtime, a: Address)
    requires KnowsDefaults(rt) && WellFormed(a)
    ensures EntryHolds(rt, a, DEFAULT_BLOCKED_RANGES[6]) <==> Within(a, Cidr(4, [100, 64, 0, 0], 10, "100.64.0.0/10"))
    ensures EntryHolds(rt, a, DEFAULT_BLOCKED_RANGES[7]) <==> Within(a, Cidr(4, [192, 0, 0, 0], 24, "192.0.0.0/24"))
    ensures EntryHolds(rt, a, DEFAULT_BLOCKED_RANGES[8]) <==> Within(a, Cidr(4, [198, 18, 0, 0], 15, "198.18.0.0/15"))
  {
    hide ParseRange, Within, KnowsDefaults;
    Shared(rt);
    Assignments(rt);
    Benchmarking(rt);
  }

  lemma LastEntries(rt: Runtime, a: Address)
    requires KnowsDefaults(rt) && WellFormed(a)
    ensures EntryHolds(rt, a, DEFAULT_BLOCKED_RANGES[9]) <==> Within(a, Cidr(6, LOOPBACK, 128, "::1/128"))
    ensures EntryHolds(rt, a, DEFAULT_BLOCKED_RANGES[10]) <==> Within(a, Cidr(6, LINK_LOCAL, 10, "fe80::/10"))
    ensures EntryHolds(rt, a, DEFAULT_BLOCKED_RANGES[11]) <==> Within(a, Cidr(6, UNIQUE_LOCAL, 7, "fc00::/7"))
  {
    hide ParseRange, Within, KnowsDefaults;
    Loopback6(rt);
    LinkLocal6(rt);
    UniqueLocal6(rt);
  }
}
