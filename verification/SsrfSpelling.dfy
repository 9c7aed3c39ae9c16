/** The spellings of an IPv6 address, and the proof that api/ssrf_guard.js reads exactly those. */
module SsrfSpelling {
  import opened Bytes
  import opened Text
  import opened SsrfAddresses

  /** A way of writing an IPv6 address (section 2.2 of RFC 4291): groups, at most one
      "::" before a second run of groups, a last 32 bits in dotted decimal, a zone. */
  datatype Spelling = Spelling(
    head: seq<string>,
    tail: Option<seq<string>>,
    quad: Option<seq<string>>,
    zone: Option<string>)

  /** The colon-separated pieces before and after the "::", dotted quad included. */
  function HeadPieces(sp: Spelling): seq<string> {
    sp.head + if sp.tail.None? && sp.quad.Some? then [Join(sp.quad.value, ".")] else []
  }

  function TailPieces(sp: Spelling): seq<string>
    requires sp.tail.Some?
  {
    sp.tail.value + if sp.quad.Some? then [Join(sp.quad.value, ".")] else []
  }

  function Body(sp: Spelling): string {
    if sp.tail.None? then Join(HeadPieces(sp), ":")
    else Join(HeadPieces(sp), ":") + "::" + Join(TailPieces(sp), ":")
  }

  function Print(sp: Spelling): string {
    Body(sp) + if sp.zone.Some? then "%" + sp.zone.value else ""
  }

  function Width(sp: Spelling): nat {
    2 * |sp.head| + (if sp.tail.Some? then 2 * |sp.tail.value| else 0) + if sp.quad.Some? then 4 else 0
  }

  /** Each piece is well formed and the pieces fill sixteen bytes, or leave room that
      the "::" stands for. The code lets "::" stand for no group at all. */
  ghost predicate Legal(sp: Spelling) {
    && Groups(sp.head).Some?
    && (sp.tail.Some? ==> Groups(sp.tail.value).Some?)
    && (sp.quad.Some? ==> |sp.quad.value| == 4 && Octets(sp.quad.value).Some?)
    && (if sp.tail.None? then Width(sp) == 16 else Width(sp) <= 16)
  }

  /** One to four hex digits, in any case. */
  predicate HexGroup(g: string) {
    1 <= |g| <= 4 && forall c :: c in g ==> c in "0123456789abcdefABCDEF"
  }

  /** Legality spelled out: groups of one to four hex digits, a dotted quad of four octets,
      and the number of groups. */
  lemma LegalMeans(sp: Spelling)
    ensures Legal(sp) <==>
            && (forall g :: g in sp.head ==> HexGroup(g))
            && (sp.tail.Some? ==> forall g :: g in sp.tail.value ==> HexGroup(g))
            && (sp.quad.Some? ==> |sp.quad.value| == 4 && exists v :: SpellsOctets(sp.quad.value, v))
            && var tail := if sp.tail.Some? then |sp.tail.value| else 0;
            && var groups := |sp.head| + tail + if sp.quad.Some? then 2 else 0;
               if sp.tail.None? then groups == 8 else groups <= 8
  {
    hide Groups, Octets, AllDigits, SpellsOctets;
    forall g: string
      ensures IsGroup(g) <==> HexGroup(g)
    {
      DigitsAreListed(g);
    }
    if sp.quad.Some? {
      if Octets(sp.quad.value).Some? { OctetsMeans(sp.quad.value, Octets(sp.quad.value).value); }
      if v :| SpellsOctets(sp.quad.value, v) { OctetsMeans(sp.quad.value, v); }
    }
  }

  /** The bytes a spelling denotes. */
  ghost function Denote(sp: Spelling): seq<byte>
    requires Legal(sp)
  {
    var back := if sp.tail.Some? then Groups(sp.tail.value).value else [];
    var quad := if sp.quad.Some? then Octets(sp.quad.value).value else [];
    Groups(sp.head).value + Zeros(16 - Width(sp)) + back + quad
  }

  // ------------------------------------------------------- joining groups

  predicate AllGroups(parts: seq<string>) {
    forall p :: p in parts ==> IsGroup(p)
  }

  /** Everything but the last piece, with the colon that follows it. */
  function Prefix(parts: seq<string>): string {
    if parts == [] then "" else Join(parts, ":") + ":"
  }

  lemma JoinLast(parts: seq<string>, x: string)
    ensures Join(parts + [x], ":") == Prefix(parts) + x
  {
    if parts != [] {
      JoinSnoc(parts, x, ":");
    } else {
      assert [] + [x] == [x];
    }
  }

  /** Joined groups hold hex digits and single inner colons only. */
  predicate Tight(s: string) {
    && (forall i :: 0 <= i < |s| ==> DigitOf(s[i]) < 16 || s[i] == ':')
    && (forall i :: 0 <= i < |s| - 1 ==> s[i] != ':' || s[i + 1] != ':')
    && (s != "" ==> s[0] != ':' && s[|s| - 1] != ':')
  }

  lemma {:induction false} JoinedGroups(parts: seq<string>)
    requires AllGroups(parts)
    ensures Tight(Join(parts, ":"))
    ensures parts != [] ==> Join(parts, ":") != ""
    ensures |parts| > 1 ==> ':' in Join(parts, ":")
  {
    if parts != [] {
      var p, s := parts[0], Join(parts, ":");
      assert IsGroup(p) && DigitOf(':') == 16;
      forall i | 0 <= i < |p|
        ensures DigitOf(p[i]) < 16 && p[i] != ':'
      {
      }
      if |parts| > 1 {
        var t := Join(parts[1..], ":");
        JoinedGroups(parts[1..]);
        assert s == p + ":" + t && s[|p|] == ':';
        assert forall i :: |p| < i < |s| ==> s[i] == t[i - |p| - 1];
        assert forall i :: 0 <= i < |p| ==> s[i] == p[i];
      }
    }
  }

  lemma PiecesOfJoined(parts: seq<string>)
    requires AllGroups(parts)
    ensures Pieces(Join(parts, ":")) == parts
  {
    JoinedGroups(parts);
    if parts != [] {
      forall p | p in parts
        ensures ':' !in p
      {
        assert DigitOf(':') == 16 && IsGroup(p);
      }
      SplitJoin(parts, ':');
    }
  }

  lemma HalvesOfOne(a: string)
    requires Tight(a)
    ensures Split(a, "::") == [a]
  {
    forall j: nat
      ensures !OccursAt(a, "::", j)
    {
      if j + 2 <= |a| { assert a[j..j + 2] == [a[j], a[j + 1]]; }
    }
  }

  lemma HalvesOfTwo(a: string, b: string)
    requires Tight(a) && Tight(b)
    ensures Split(a + "::" + b, "::") == [a, b]
  {
    var s := a + "::" + b;
    HalvesOfOne(b);
    assert s[|a|..|a| + 2] == "::";
    forall j: nat | j < |a|
      ensures !OccursAt(s, "::", j)
    {
      assert s[j..j + 2] == [s[j], s[j + 1]];
      assert s[j] == a[j] && (j + 1 < |a| ==> s[j + 1] == a[j + 1]);
    }
    FindIs(s, "::", 0, |a|);
    SplitTwo(a, "::", b);
  }

  // ------------------------------------------------------ reading spellings

  lemma ReadsOneRun(head: seq<string>)
    requires AllGroups(head) && |head| == 8
    ensures FromHalves(Split(Join(head, ":"), "::")) == Groups(head)
  {
    JoinedGroups(head);
    PiecesOfJoined(head);
    HalvesOfOne(Join(head, ":"));
  }

  lemma ReadsHalves(a: string, b: string, front: seq<byte>, back: seq<byte>)
    requires Groups(Pieces(a)) == Some(front) && Groups(Pieces(b)) == Some(back) && |front| + |back| <= 16
    ensures FromHalves([a, b]) == Some(front + Zeros(16 - |front| - |back|) + back)
  {
  }

  lemma ReadsTwoRuns(head: seq<string>, tail: seq<string>)
    requires AllGroups(head) && AllGroups(tail) && |head| + |tail| <= 8
    ensures FromHalves(Split(Join(head, ":") + "::" + Join(tail, ":"), "::")) ==
            Some(Groups(head).value + Zeros(16 - 2 * |head| - 2 * |tail|) + Groups(tail).value)
  {
    hide Split, Join, FromHalves, Pieces, Groups, IsGroup, Zeros, Find, Tight;
    var a, b := Join(head, ":"), Join(tail, ":");
    assert Split(a + "::" + b, "::") == [a, b] by {
      JoinedGroups(head);
      JoinedGroups(tail);
      HalvesOfTwo(a, b);
    }
    PiecesOfJoined(head);
    PiecesOfJoined(tail);
    ReadsHalves(a, b, Groups(head).value, Groups(tail).value);
  }

  lemma ReadsGroups(sp: Spelling)
    requires Legal(sp) && sp.quad.None?
    ensures FromHalves(Split(Body(sp), "::")) == Some(Denote(sp))
  {
    hide Split, Join, FromHalves, Groups;
    assert HeadPieces(sp) == sp.head;
    if sp.tail.None? {
      ReadsOneRun(sp.head);
      assert Denote(sp) == Groups(sp.head).value;
    } else {
      assert TailPieces(sp) == sp.tail.value;
      ReadsTwoRuns(sp.head, sp.tail.value);
      assert Denote(sp) == Groups(sp.head).value + Zeros(16 - Width(sp)) + Groups(sp.tail.value).value;
    }
  }

  /** The same address with its dotted quad written as two hex groups. */
  function Unquad(sp: Spelling): Spelling
    requires sp.quad.Some? && |sp.quad.value| == 4 && Octets(sp.quad.value).Some?
  {
    var v := Octets(sp.quad.value).value;
    var hex := [HexPair(v[0], v[1]), HexPair(v[2], v[3])];
    if sp.tail.None? then Spelling(sp.head + hex, None, None, sp.zone)
    else Spelling(sp.head, Some(sp.tail.value + hex), None, sp.zone)
  }

  /** What precedes the last piece. */
  function BeforeLast(sp: Spelling): string {
    if sp.tail.None? then Prefix(sp.head) else Join(sp.head, ":") + "::" + Prefix(sp.tail.value)
  }

  lemma GroupOf(n: nat)
    requires n < 0x1_0000
    ensures IsGroup(ToNumeral(n, 16)) && GroupBytes(ToNumeral(n, 16)) == [n / 256, n % 256]
  {
    hide ToNumeral, Numeral;
    assert Pow(16, 1) == 16 && Pow(16, 2) == 256 && Pow(16, 3) == 4096 && Pow(16, 4) == 65536;
    NumeralLength(n, 16, 4);
  }

  lemma HexPairIs(hi: byte, lo: byte)
    ensures IsGroup(HexPair(hi, lo)) && GroupBytes(HexPair(hi, lo)) == [hi, lo]
  {
    hide ToNumeral, Numeral, IsGroup, GroupBytes;
    GroupOf((hi as int) * 256 + lo);
  }

  lemma UnquadLegal(sp: Spelling)
    requires Legal(sp) && sp.quad.Some?
    ensures Legal(Unquad(sp)) && Denote(Unquad(sp)) == Denote(sp)
  {
    hide Octets, HexPair, GroupBytes, IsGroup;
    var v := Octets(sp.quad.value).value;
    var hex := [HexPair(v[0], v[1]), HexPair(v[2], v[3])];
    HexPairIs(v[0], v[1]);
    HexPairIs(v[2], v[3]);
    assert Groups(hex).value == v by {
      assert hex[1..] == [hex[1]] && hex[1..][1..] == [];
      assert Groups(hex[1..]).value == [v[2], v[3]] + [];
    }
    GroupsAppend(if sp.tail.None? then sp.head else sp.tail.value, hex);
    var sq := Unquad(sp);
    if sp.tail.None? {
      assert Denote(sq) == Denote(sp);
    } else {
      assert Denote(sq) == Groups(sp.head).value + Zeros(16 - Width(sp)) + (Groups(sp.tail.value).value + v);
    }
  }

  lemma JoinLastTwo(parts: seq<string>, x: string, y: string)
    ensures Join(parts + [x, y], ":") == Prefix(parts) + x + ":" + y
  {
    assert parts + [x, y] == (parts + [x]) + [y];
    JoinLast(parts, x);
    JoinLast(parts + [x], y);
  }

  lemma BodySplits(sp: Spelling)
    requires Legal(sp) && sp.quad.Some?
    ensures Body(sp) == BeforeLast(sp) + Join(sp.quad.value, ".")
    ensures BeforeLast(sp) != "" && BeforeLast(sp)[|BeforeLast(sp)| - 1] == ':'
  {
    hide Octets, Join, Groups;
    if sp.tail.None? {
      JoinLast(sp.head, Join(sp.quad.value, "."));
    } else {
      JoinLast(sp.tail.value, Join(sp.quad.value, "."));
      assert HeadPieces(sp) == sp.head;
    }
  }

  lemma UnquadBody(sp: Spelling)
    requires Legal(sp) && sp.quad.Some?
    ensures var v := Octets(sp.quad.value).value;
            Body(Unquad(sp)) == BeforeLast(sp) + HexPair(v[0], v[1]) + ":" + HexPair(v[2], v[3])
  {
    hide Octets, HexPair, Join, Prefix, Groups;
    var v := Octets(sp.quad.value).value;
    var h0, h1 := HexPair(v[0], v[1]), HexPair(v[2], v[3]);
    var sq := Unquad(sp);
    assert HeadPieces(sq) == sq.head;
    if sp.tail.None? {
      JoinLastTwo(sp.head, h0, h1);
    } else {
      assert TailPieces(sq) == sq.tail.value;
      JoinLastTwo(sp.tail.value, h0, h1);
    }
  }

  /** Digits and dots: the characters of a dotted quad. */
  lemma {:induction false} QuadChars(parts: seq<string>)
    requires forall p :: p in parts ==> IsOctet(p)
    ensures forall i :: 0 <= i < |Join(parts, ".")| ==> DigitOf(Join(parts, ".")[i]) < 10 || Join(parts, ".")[i] == '.'
    ensures |parts| > 1 ==> '.' in Join(parts, ".")
  {
    if |parts| == 1 {
      assert IsOctet(parts[0]);
    } else if parts != [] {
      QuadChars(parts[1..]);
      assert IsOctet(parts[0]);
      assert Join(parts, ".")[|parts[0]|] == '.';
    }
  }

  lemma LastColonIs(a: string, b: string)
    requires a != "" && a[|a| - 1] == ':' && ':' !in b
    ensures FindLast(a + b, ':') == |a| - 1
  {
    var s := a + b;
    assert s[|a| - 1] == ':';
    assert forall i :: |a| <= i < |s| ==> s[i] == b[i - |a|];
  }

  lemma ReadsQuad(sp: Spelling)
    requires Legal(sp) && sp.quad.Some?
    ensures WithoutQuad(Body(sp)) == Some(Body(Unquad(sp)))
  {
    var q := Join(sp.quad.value, ".");
    BodySplits(sp);
    UnquadBody(sp);
    QuadChars(sp.quad.value);
    assert DigitOf(':') == 16;
    LastColonIs(BeforeLast(sp), q);
    assert Body(sp)[|BeforeLast(sp)|..] == q && Body(sp)[..|BeforeLast(sp)|] == BeforeLast(sp);
    FindChar(q, '.');
    IPv4Spelled(sp.quad.value);
  }

  lemma NoDotNoQuad(s: string)
    requires '.' !in s
    ensures WithoutQuad(s) == Some(s)
  {
    hide IPv4Of, HexPair, Find;
    FindChar(s[FindLast(s, ':') + 1..], '.');
  }

  lemma GroupsLack(parts: seq<string>, c: char)
    requires AllGroups(parts) && DigitOf(c) == 16 && c != ':'
    ensures c !in Join(parts, ":") && c !in Prefix(parts)
  {
    JoinedGroups(parts);
  }

  lemma QuadLacks(parts: seq<string>, c: char)
    requires Octets(parts).Some? && DigitOf(c) == 16 && c != '.'
    ensures c !in Join(parts, ".")
  {
    QuadChars(parts);
  }

  /** What a body can hold: no percent sign, some colon, and a dot only in a quad. */
  lemma QuadBodyChars(sp: Spelling)
    requires Legal(sp) && sp.quad.Some?
    ensures '%' !in Body(sp) && ':' in Body(sp)
  {
    BodySplits(sp);
    QuadLacks(sp.quad.value, '%');
    GroupsLack(sp.head, '%');
    if sp.tail.Some? {
      GroupsLack(sp.tail.value, '%');
    }
    assert BeforeLast(sp)[|BeforeLast(sp)| - 1] in BeforeLast(sp);
  }

  lemma GroupBodyChars(sp: Spelling)
    requires Legal(sp) && sp.quad.None?
    ensures '%' !in Body(sp) && ':' in Body(sp) && '.' !in Body(sp)
  {
    assert HeadPieces(sp) == sp.head;
    GroupsLack(sp.head, '%');
    GroupsLack(sp.head, '.');
    if sp.tail.Some? {
      assert TailPieces(sp) == sp.tail.value;
      GroupsLack(sp.tail.value, '%');
      GroupsLack(sp.tail.value, '.');
      assert "::"[0] == ':';
    } else {
      JoinedGroups(sp.head);
    }
  }

  lemma CutsZone(body: string, zone: Option<string>)
    requires '%' !in body
    ensures CutZone(body + if zone.Some? then "%" + zone.value else "") == body
  {
    var s := body + if zone.Some? then "%" + zone.value else "";
    forall j: nat | j < |body|
      ensures !OccursAt(s, "%", j)
    {
      assert s[j] == body[j] && s[j..j + 1] == [s[j]];
    }
    if zone.Some? {
      assert s[|body|..|body| + 1] == "%";
      FindIs(s, "%", 0, |body|);
    } else {
      assert s == body;
    }
  }

  /** Every legal spelling is read as exactly the bytes it denotes. */
  lemma ReadsEverySpelling(sp: Spelling)
    requires Legal(sp)
    ensures IPv6Of(Print(sp)) == Some(Denote(sp))
  {
    if sp.quad.Some? { QuadBodyChars(sp); } else { GroupBodyChars(sp); }
    CutsZone(Body(sp), sp.zone);
    FindChar(Body(sp), ':');
    if sp.quad.Some? {
      ReadsQuad(sp);
      UnquadLegal(sp);
      ReadsGroups(Unquad(sp));
    } else {
      NoDotNoQuad(Body(sp));
      ReadsGroups(sp);
    }
  }

  // --------------------------------------- nothing but spellings is accepted

  predicate EndsInColon(s: string) {
    s != "" && s[|s| - 1] == ':'
  }

  lemma LastColonUnique(a: string, b: string, c: string, d: string)
    requires (a == "" || EndsInColon(a)) && EndsInColon(c) && ':' !in b && ':' !in d && a + b == c + d
    ensures a == c && b == d
  {
    var s := a + b;
    assert forall i :: |a| <= i < |s| ==> s[i] == b[i - |a|];
    assert forall i :: |c| <= i < |s| ==> s[i] == d[i - |c|];
    assert s[|c| - 1] == ':' && (a != "" ==> s[|a| - 1] == ':');
    assert |a| == |c|;
    assert a == s[..|a|] && c == s[..|c|] && b == s[|a|..] && d == s[|c|..];
  }

  lemma GroupHasNoColon(g: string)
    requires IsGroup(g)
    ensures ':' !in g && g[|g| - 1] != ':'
  {
    assert DigitOf(':') == 16;
  }

  lemma PrefixEnds(x: string, parts: seq<string>)
    requires x == "" || EndsInColon(x)
    ensures x + Prefix(parts) == "" || EndsInColon(x + Prefix(parts))
  {
    if parts != [] { assert Prefix(parts)[|Prefix(parts)| - 1] == ':'; }
  }

  /** Stripping the last group: it is the one the text ends with. */
  lemma LastGroup(x: string, front: seq<string>, y: string, pre: string, g: string)
    requires IsGroup(y) && IsGroup(g) && EndsInColon(pre)
    requires x == "" || EndsInColon(x)
    requires x + Join(front + [y], ":") == pre + g
    ensures y == g && x + Prefix(front) == pre
  {
    hide IsGroup, Join, Prefix;
    GroupHasNoColon(g);
    GroupHasNoColon(y);
    JoinLast(front, y);
    PrefixEnds(x, front);
    assert x + (Prefix(front) + y) == (x + Prefix(front)) + y;
    LastColonUnique(x + Prefix(front), y, pre, g);
  }

  lemma NotEmptyRun(x: string, parts: seq<string>, pre: string, g: string)
    requires IsGroup(g) && (x == "" || EndsInColon(x)) && EndsInColon(pre)
    requires x + Join(parts, ":") == pre + g
    ensures parts != []
  {
    GroupHasNoColon(g);
    assert (pre + g)[|pre + g| - 1] == g[|g| - 1];
  }

  lemma SameBeforeColon(a: string, b: string)
    requires a + ":" == b + ":"
    ensures a == b
  {
    assert a == (a + ":")[..|a|] && b == (b + ":")[..|b|];
  }

  lemma PenultimateGroup(x: string, front: seq<string>, pre: string, h0: string)
    requires AllGroups(front) && IsGroup(h0) && EndsInColon(pre)
    requires x == "" || (|x| >= 2 && x[|x| - 2] == ':' && EndsInColon(x))
    requires x + Prefix(front) == pre + h0 + ":"
    ensures front != [] && front[|front| - 1] == h0 && x + Prefix(front[..|front| - 1]) == pre
  {
    GroupHasNoColon(h0);
    var w := pre + h0;
    assert w[|w| - 1] == h0[|h0| - 1];
    assert front == [] ==> x + Prefix(front) == x;
    assert front != [];
    assert x + Prefix(front) == (x + Join(front, ":")) + ":";
    SameBeforeColon(x + Join(front, ":"), w);
    var rest, z := front[..|front| - 1], front[|front| - 1];
    assert front == rest + [z];
    LastGroup(x, rest, z, pre, h0);
  }

  lemma FrontGroups(parts: seq<string>)
    requires AllGroups(parts) && parts != []
    ensures AllGroups(parts[..|parts| - 1]) && IsGroup(parts[|parts| - 1])
    ensures parts == parts[..|parts| - 1] + [parts[|parts| - 1]]
  {
  }

  /** Text ending in the two hex groups of a rewritten quad ends so piece by piece. */
  lemma LastTwoGroups(x: string, parts: seq<string>, pre: string, h0: string, h1: string) returns (front: seq<string>)
    requires AllGroups(parts) && IsGroup(h0) && IsGroup(h1) && EndsInColon(pre)
    requires x == "" || (|x| >= 2 && x[|x| - 2] == ':' && EndsInColon(x))
    requires x + Join(parts, ":") == pre + h0 + ":" + h1
    ensures parts == front + [h0] + [h1] && AllGroups(front)
    ensures x + Prefix(front) == pre
  {
    hide AllGroups, IsGroup, Join, Prefix;
    NotEmptyRun(x, parts, pre + h0 + ":", h1);
    FrontGroups(parts);
    var most := parts[..|parts| - 1];
    LastGroup(x, most, parts[|parts| - 1], pre + h0 + ":", h1);
    PenultimateGroup(x, most, pre, h0);
    FrontGroups(most);
    front := most[..|most| - 1];
  }

  lemma JoinPieces(half: string)
    ensures Join(Pieces(half), ":") == half
  {
  }

  lemma SpellingOfOneRun(half: string, b: seq<byte>) returns (sp: Spelling)
    requires FromHalves([half]) == Some(b)
    ensures Legal(sp) && sp.quad.None? && sp.zone.None? && Body(sp) == half && Denote(sp) == b
  {
    hide Groups, Join, Pieces;
    sp := Spelling(Pieces(half), None, None, None);
    JoinPieces(half);
    assert HeadPieces(sp) == sp.head;
  }

  lemma SpellingOfTwoRuns(front: string, back: string, b: seq<byte>) returns (sp: Spelling)
    requires FromHalves([front, back]) == Some(b)
    ensures Legal(sp) && sp.quad.None? && sp.zone.None? && Body(sp) == front + "::" + back && Denote(sp) == b
  {
    hide Groups, Join, Pieces;
    sp := Spelling(Pieces(front), Some(Pieces(back)), None, None);
    JoinPieces(front);
    JoinPieces(back);
    assert HeadPieces(sp) == sp.head && TailPieces(sp) == sp.tail.value;
  }

  lemma SpellingOfGroups(t: string) returns (sp: Spelling)
    requires FromHalves(Split(t, "::")).Some?
    ensures Legal(sp) && sp.quad.None? && sp.zone.None? && Body(sp) == t
    ensures Some(Denote(sp)) == FromHalves(Split(t, "::"))
  {
    var halves := Split(t, "::");
    var b := FromHalves(halves).value;
    hide Split, Body, Legal, Denote;
    if |halves| == 1 {
      assert halves == [halves[0]];
      sp := SpellingOfOneRun(halves[0], b);
    } else {
      assert halves == [halves[0], halves[1]];
      sp := SpellingOfTwoRuns(halves[0], halves[1], b);
    }
  }

  /** Undoing the rewriting of a dotted quad. */
  lemma Requad(sq: Spelling, pre: string, quad: seq<string>) returns (sp: Spelling)
    requires Legal(sq) && sq.quad.None? && sq.zone.None? && EndsInColon(pre)
    requires |quad| == 4 && Octets(quad).Some?
    requires var v := Octets(quad).value;
             Body(sq) == pre + HexPair(v[0], v[1]) + ":" + HexPair(v[2], v[3])
    ensures Legal(sp) && sp.quad == Some(quad) && sp.zone.None? && Unquad(sp) == sq
    ensures Body(sp) == pre + Join(quad, ".") && Denote(sp) == Denote(sq)
  {
    hide Groups, Octets, Join, Prefix, HexPair, IsGroup, Denote;
    var v := Octets(quad).value;
    var h0, h1 := HexPair(v[0], v[1]), HexPair(v[2], v[3]);
    HexPairIs(v[0], v[1]);
    HexPairIs(v[2], v[3]);
    assert HeadPieces(sq) == sq.head;
    var last := if sq.tail.None? then sq.head else sq.tail.value;
    var x := if sq.tail.None? then "" else Join(sq.head, ":") + "::";
    assert sq.tail.Some? ==> TailPieces(sq) == last && x[|x| - 2] == ':' && EndsInColon(x);
    assert x + Join(last, ":") == Body(sq);
    var front := LastTwoGroups(x, last, pre, h0, h1);
    assert last == front + [h0, h1];
    sp := if sq.tail.None? then Spelling(front, None, Some(quad), None)
          else Spelling(sq.head, Some(front), Some(quad), None);
    assert Unquad(sp) == sq;
    UnquadLegal(sp);
    BodySplits(sp);
    assert BeforeLast(sp) == x + Prefix(front);
  }

  lemma SpellingOfQuad(pre: string, tail: string) returns (sp: Spelling)
    requires EndsInColon(pre) && IPv4Of(tail).Some?
    requires var v := IPv4Of(tail).value;
             FromHalves(Split(pre + HexPair(v[0], v[1]) + ":" + HexPair(v[2], v[3]), "::")).Some?
    ensures Legal(sp) && sp.zone.None? && Body(sp) == pre + tail
    ensures var v := IPv4Of(tail).value;
            Some(Denote(sp)) == FromHalves(Split(pre + HexPair(v[0], v[1]) + ":" + HexPair(v[2], v[3]), "::"))
  {
    var v := IPv4Of(tail).value;
    sp := SpellingOfGroups(pre + HexPair(v[0], v[1]) + ":" + HexPair(v[2], v[3]));
    sp := Requad(sp, pre, Split(tail, "."));
  }

  lemma SpellingOfBody(s: string, t: string, b: seq<byte>) returns (sp: Spelling)
    requires ':' in s && WithoutQuad(s) == Some(t) && FromHalves(Split(t, "::")) == Some(b)
    ensures Legal(sp) && sp.zone.None? && Body(sp) == s && Denote(sp) == b
  {
    hide Body, FromHalves, Split, Legal, Denote, IPv4Of, HexPair;
    var at := FindLast(s, ':');
    var pre, tail := s[..at + 1], s[at + 1..];
    assert pre + tail == s;
    if Find(tail, ".", 0) == -1 {
      sp := SpellingOfGroups(t);
    } else {
      assert pre[|pre| - 1] == ':';
      sp := SpellingOfQuad(pre, tail);
    }
  }

  lemma ZoneChangesNothing(sp: Spelling, zone: Option<string>)
    requires Legal(sp) && sp.zone.None?
    ensures var z := sp.(zone := zone); Legal(z) && Denote(z) == Denote(sp) && Body(z) == Body(sp)
  {
  }

  lemma SpellingOf(s: string) returns (sp: Spelling)
    requires IPv6Of(s).Some?
    ensures Legal(sp) && Print(sp) == s && Some(Denote(sp)) == IPv6Of(s)
  {
    hide Body, WithoutQuad, FromHalves, Split, Legal, Denote;
    var body := CutZone(s);
    FindChar(body, ':');
    var bare := SpellingOfBody(body, WithoutQuad(body).value, IPv6Of(s).value);
    var at := Find(s, "%", 0);
    var zone := if at == -1 then None else Some(s[at + 1..]);
    ZoneChangesNothing(bare, zone);
    sp := bare.(zone := zone);
    assert s == body + if zone.Some? then "%" + zone.value else "" by {
      if at != -1 { assert s[at..at + 1] == "%"; }
    }
  }

  /** The parser accepts a string exactly when it is a legal spelling, and answers with
      the bytes that spelling denotes: sixteen of them, on any input at all. */
  lemma AcceptsExactlySpellings(s: string, b: seq<byte>)
    ensures IPv6Of(s) == Some(b) <==> exists sp :: Legal(sp) && Print(sp) == s && Denote(sp) == b
  {
    forall sp | Legal(sp) && Print(sp) == s && Denote(sp) == b
      ensures IPv6Of(s) == Some(b)
    {
      ReadsEverySpelling(sp);
    }
    if IPv6Of(s) == Some(b) {
      var sp := SpellingOf(s);
    }
  }
}
