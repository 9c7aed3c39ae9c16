/** api/ssrf_guard.js, address parsing: text to IPv4 and IPv6 bytes. */
module SsrfAddresses {
  import opened Bytes
  import opened Text

  // -------------------------------------------------------------------- IPv4

  predicate IsOctet(p: string) {
    1 <= |p| <= 3 && AllDigits(p, 10) && Numeral(p, 10) <= 255
  }

  function Octets(parts: seq<string>): (r: Option<seq<byte>>)
    ensures r.Some? ==> |r.value| == |parts|
    ensures r.Some? <==> forall p :: p in parts ==> IsOctet(p)
  {
    if parts == [] then Some([])
    else if !IsOctet(parts[0]) then None
    else match Octets(parts[1..])
      case None => None
      case Some(bytes) => Some([Numeral(parts[0], 10)] + bytes)
  }

  function IPv4Of(text: string): (r: Option<seq<byte>>)
    ensures r.Some? ==> |r.value| == 4
  {
    var parts := Split(text, ".");
    if |parts| != 4 then None else Octets(parts)
  }

  method ParseIPv4(text: string) returns (r: Option<seq<byte>>)
    ensures r == IPv4Of(text)
  {
    var parts := Split(text, ".");
    if |parts| != 4 {
      return None;
    }
    var bytes: seq<byte> := [];
    for i := 0 to |parts|
      invariant Octets(parts[..i]) == Some(bytes)
    {
      var part := parts[i];
      OctetsSnoc(parts[..i], part);
      assert parts[..i] + [part] == parts[..i + 1];
      if !(1 <= |part| <= 3 && AllDigits(part, 10)) {
        assert part in parts;
        return None;
      }
      var n := Numeral(part, 10);
      if n > 255 {
        assert part in parts;
        return None;
      }
      bytes := bytes + [n];
    }
    assert parts[..|parts|] == parts;
    return Some(bytes);
  }

  lemma {:induction false} OctetsSnoc(parts: seq<string>, last: string)
    ensures Octets(parts).Some? && IsOctet(last) ==>
            Octets(parts + [last]) == Some(Octets(parts).value + [Numeral(last, 10)])
  {
    if parts == [] {
      assert Octets([last][1..]) == Some([]);
      if IsOctet(last) {
        var n: byte := Numeral(last, 10);
        assert [n] + [] == [] + [n];
      }
    } else {
      assert (parts + [last])[1..] == parts[1..] + [last];
      OctetsSnoc(parts[1..], last);
      if Octets(parts).Some? && IsOctet(last) {
        var n: byte := Numeral(last, 10);
        assert Octets(parts).value + [n] == [Octets(parts).value[0]] + (Octets(parts[1..]).value + [n]);
      }
    }
  }

  /** Dotted decimal, each octet without leading zeros. */
  function DottedQuad(v: seq<byte>): string {
    Join(seq(|v|, i requires 0 <= i < |v| => ToNumeral(v[i], 10)), ".")
  }

  /** Four octets joined by dots are read back, leading zeros or not. */
  lemma IPv4Spelled(parts: seq<string>)
    requires |parts| == 4 && Octets(parts).Some?
    ensures IPv4Of(Join(parts, ".")) == Octets(parts)
  {
    assert DigitOf('.') == 16;
    forall p | p in parts
      ensures '.' !in p
    {
    }
    SplitJoin(parts, '.');
  }

  /** One to three decimal digits that spell `n`. */
  predicate SpellsOctet(p: string, n: byte) {
    1 <= |p| <= 3 && (forall c :: c in p ==> c in "0123456789") && Numeral(p, 10) == n
  }

  ghost predicate SpellsOctets(parts: seq<string>, v: seq<byte>) {
    |parts| == |v| && forall i :: 0 <= i < |v| ==> SpellsOctet(parts[i], v[i])
  }

  lemma {:induction false} OctetsMeans(parts: seq<string>, v: seq<byte>)
    ensures Octets(parts) == Some(v) <==> SpellsOctets(parts, v)
  {
    hide Numeral, AllDigits;
    if parts != [] {
      DigitsAreListed(parts[0]);
      if v != [] {
        OctetsMeans(parts[1..], v[1..]);
        assert v == [v[0]] + v[1..];
      }
    }
  }

  /** Exactly four octets joined by dots are accepted, each of one to three digits and at
      most 255, and the answer is their values in order. */
  lemma IPv4AcceptsExactly(s: string, v: seq<byte>)
    ensures IPv4Of(s) == Some(v) <==>
            |v| == 4 && exists parts: seq<string> :: SpellsOctets(parts, v) && Join(parts, ".") == s
  {
    hide Split, Join, Octets, SpellsOctets;
    if IPv4Of(s) == Some(v) {
      assert Join(Split(s, "."), ".") == s;
      OctetsMeans(Split(s, "."), v);
    }
    forall parts: seq<string> | |v| == 4 && SpellsOctets(parts, v) && Join(parts, ".") == s
      ensures IPv4Of(s) == Some(v)
    {
      OctetsMeans(parts, v);
      IPv4Spelled(parts);
    }
  }

  lemma {:induction false} OctetsAre(parts: seq<string>, v: seq<byte>)
    requires |parts| == |v|
    requires forall i :: 0 <= i < |v| ==> IsOctet(parts[i]) && Numeral(parts[i], 10) == v[i]
    ensures Octets(parts) == Some(v)
  {
    if v != [] {
      OctetsAre(parts[1..], v[1..]);
      assert v == [v[0]] + v[1..];
    }
  }

  lemma DottedQuadReads(v: seq<byte>)
    requires |v| == 4
    ensures IPv4Of(DottedQuad(v)) == Some(v)
  {
    var parts := seq(4, i requires 0 <= i < |v| => ToNumeral(v[i], 10));
    forall i | 0 <= i < 4
      ensures IsOctet(parts[i])
    {
      assert Pow(10, 3) == 1000 by { assert Pow(10, 2) == 100; }
      NumeralLength(v[i], 10, 3);
    }
    OctetsAre(parts, v);
    IPv4Spelled(parts);
  }

  // -------------------------------------------------------------------- IPv6

  predicate IsGroup(g: string) {
    1 <= |g| <= 4 && AllDigits(g, 16)
  }

  lemma GroupBound(g: string)
    requires IsGroup(g)
    ensures Numeral(g, 16) < 0x1_0000
  {
    NumeralBelow(g, 16);
    assert Pow(16, 1) == 16 && Pow(16, 2) == 256 && Pow(16, 3) == 4096 && Pow(16, 4) == 65536;
  }

  function GroupBytes(g: string): (b: seq<byte>)
    requires IsGroup(g)
    ensures |b| == 2
  {
    GroupBound(g);
    [Numeral(g, 16) / 256, Numeral(g, 16) % 256]
  }

  function Groups(parts: seq<string>): (r: Option<seq<byte>>)
    ensures r.Some? ==> |r.value| == 2 * |parts|
    ensures r.Some? <==> forall p :: p in parts ==> IsGroup(p)
  {
    if parts == [] then Some([])
    else if !IsGroup(parts[0]) then None
    else match Groups(parts[1..])
      case None => None
      case Some(bytes) => Some(GroupBytes(parts[0]) + bytes)
  }

  lemma {:induction false} GroupsAppend(a: seq<string>, b: seq<string>)
    requires Groups(a).Some? && Groups(b).Some?
    ensures Groups(a + b) == Some(Groups(a).value + Groups(b).value)
  {
    if a == [] {
      assert a + b == b && [] + Groups(b).value == Groups(b).value;
    } else {
      assert (a + b)[1..] == a[1..] + b;
      GroupsAppend(a[1..], b);
      assert GroupBytes(a[0]) + (Groups(a[1..]).value + Groups(b).value) == Groups(a).value + Groups(b).value;
    }
  }

  /** `s.lastIndexOf(c)`, or -1. */
  function FindLast(s: string, c: char): (r: int)
    ensures -1 <= r < |s|
    ensures r >= 0 ==> s[r] == c
    ensures forall i :: r < i < |s| ==> s[i] != c
  {
    if s == "" then -1
    else if s[|s| - 1] == c then |s| - 1
    else FindLast(s[..|s| - 1], c)
  }

  function CutZone(text: string): string {
    var zone := Find(text, "%", 0);
    if zone == -1 then text else text[..zone]
  }

  /** The hex group that stands for two octets of a dotted quad. */
  function HexPair(hi: byte, lo: byte): string {
    ToNumeral((hi as int) * 256 + lo, 16)
  }

  /** A trailing dotted quad rewritten as its two hex groups. */
  function WithoutQuad(s: string): Option<string> {
    var lastColon := FindLast(s, ':');
    var tail := s[lastColon + 1..];
    if Find(tail, ".", 0) == -1 then Some(s)
    else match IPv4Of(tail)
      case None => None
      case Some(v4) =>
        Some(s[..lastColon + 1] + HexPair(v4[0], v4[1]) + ":" + HexPair(v4[2], v4[3]))
  }

  function Pieces(half: string): seq<string> {
    if half == "" then [] else Split(half, ":")
  }

  function FromHalves(halves: seq<string>): (r: Option<seq<byte>>)
    requires halves != []
    ensures r.Some? ==> |r.value| == 16
  {
    if |halves| > 2 then None
    else match Groups(Pieces(halves[0]))
      case None => None
      case Some(front) =>
        if |halves| == 1 then (if |front| == 16 then Some(front) else None)
        else match Groups(Pieces(halves[1]))
          case None => None
          case Some(back) =>
            if |front| + |back| > 16 then None
            else Some(front + Zeros(16 - |front| - |back|) + back)
  }

  function Zeros(n: nat): (z: seq<byte>)
    ensures |z| == n
  {
    seq(n, _ => 0)
  }

  /** `parseIPv6`: None, or exactly sixteen bytes, on every string. */
  function IPv6Of(text: string): (r: Option<seq<byte>>)
    ensures r.Some? ==> |r.value| == 16
  {
    var s := CutZone(text);
    if Find(s, ":", 0) == -1 then None
    else match WithoutQuad(s)
      case None => None
      case Some(t) => FromHalves(Split(t, "::"))
  }

  method PushGroup(groups: seq<byte>, g: string) returns (ok: bool, out: seq<byte>)
    ensures ok <==> IsGroup(g)
    ensures out == if ok then groups + GroupBytes(g) else groups
  {
    if !(1 <= |g| <= 4 && AllDigits(g, 16)) {
      return false, groups;
    }
    GroupBound(g);
    var n := Numeral(g, 16);
    return true, groups + [n / 256, n % 256];
  }

  method ParseIPv6(text: string) returns (r: Option<seq<byte>>)
    ensures r == IPv6Of(text)
  {
    hide Find, Split, FindLast, IPv4Of, FromHalves, WithoutQuad;
    var s := text;
    var zone := Find(s, "%", 0);
    if zone != -1 {
      s := s[..zone];
    }
    if Find(s, ":", 0) == -1 {
      return None;
    }
    var rewritten := RewriteQuad(s);
    if rewritten.None? {
      return None;
    }
    r := ExpandHalves(Split(rewritten.value, "::"));
  }

  method RewriteQuad(s: string) returns (r: Option<string>)
    ensures r == WithoutQuad(s)
  {
    hide Find, FindLast, IPv4Of, HexPair;
    var lastColon := FindLast(s, ':');
    var afterLastColon := s[lastColon + 1..];
    if Find(afterLastColon, ".", 0) == -1 {
      return Some(s);
    }
    var v4 := ParseIPv4(afterLastColon);
    if v4.None? {
      return None;
    }
    var b := v4.value;
    return Some(s[..lastColon + 1] + HexPair(b[0], b[1]) + ":" + HexPair(b[2], b[3]));
  }

  method ExpandHalves(halves: seq<string>) returns (r: Option<seq<byte>>)
    requires halves != []
    ensures r == FromHalves(halves)
  {
    if |halves| > 2 {
      return None;
    }
    var groups := HeadGroups(Pieces(halves[0]));
    if groups.None? {
      return None;
    }
    if |halves| == 1 {
      if |groups.value| != 16 {
        return None;
      }
      return groups;
    }
    var tail := TailGroups(groups.value, Pieces(halves[1]));
    if tail.None? {
      return None;
    }
    var fill := 16 - |groups.value| - |tail.value|;
    if fill < 0 {
      return None;
    }
    return Some(groups.value + Zeros(fill) + tail.value);
  }

  /** The loop before the "::". */
  method HeadGroups(head: seq<string>) returns (r: Option<seq<byte>>)
    ensures r == Groups(head)
  {
    var groups: seq<byte> := [];
    for i := 0 to |head|
      invariant Groups(head[..i]) == Some(groups)
    {
      var ok, pushed := PushGroup(groups, head[i]);
      if !ok {
        assert head[i] in head;
        return None;
      }
      GroupsSnoc(head[..i], head[i]);
      assert head[..i] + [head[i]] == head[..i + 1];
      groups := pushed;
    }
    assert head[..|head|] == head;
    return Some(groups);
  }

  /** The loop after it: each group is pushed, moved to `tail`, and truncated away. */
  method TailGroups(head: seq<byte>, rest: seq<string>) returns (r: Option<seq<byte>>)
    ensures r == Groups(rest)
  {
    var groups, tail: seq<byte> := head, [];
    for i := 0 to |rest|
      invariant groups == head
      invariant Groups(rest[..i]) == Some(tail)
    {
      var before := |groups|;
      var ok, pushed := PushGroup(groups, rest[i]);
      if !ok {
        assert rest[i] in rest;
        return None;
      }
      groups := pushed;
      GroupsSnoc(rest[..i], rest[i]);
      assert rest[..i] + [rest[i]] == rest[..i + 1];
      assert GroupBytes(rest[i]) == [groups[before], groups[before + 1]];
      tail := tail + [groups[before], groups[before + 1]];
      groups := groups[..before];
    }
    assert rest[..|rest|] == rest;
    return Some(tail);
  }

  lemma GroupsSnoc(parts: seq<string>, g: string)
    requires Groups(parts).Some? && IsGroup(g)
    ensures Groups(parts + [g]) == Some(Groups(parts).value + GroupBytes(g))
  {
    GroupsAppend(parts, [g]);
    assert Groups([g][1..]) == Some([]) && GroupBytes(g) + [] == GroupBytes(g);
  }
}
