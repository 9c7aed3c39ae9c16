/** api/ssrf_guard.js: the case of hex letters never matters to what an address is. */
module SsrfCase {
  import opened Bytes
  import opened Text
  import opened TextCase
  import opened SsrfAddresses
  import opened SsrfRanges
  import opened SsrfGuard

  lemma {:induction false} OctetsSame(a: seq<string>, b: seq<string>)
    requires SameParts(a, b)
    ensures Octets(a) == Octets(b)
  {
    if a != [] {
      NumeralSame(a[0], b[0], 10);
      OctetsSame(a[1..], b[1..]);
    }
  }

  lemma {:induction false} GroupsSame(a: seq<string>, b: seq<string>)
    requires SameParts(a, b)
    ensures Groups(a) == Groups(b)
  {
    if a != [] {
      hide SameButCase, Numeral;
      SameLength(a[0], b[0]);
      NumeralSame(a[0], b[0], 16);
      GroupsSame(a[1..], b[1..]);
    }
  }

  lemma IPv4Same(s: string, t: string)
    requires SameButCase(s, t)
    ensures IPv4Of(s) == IPv4Of(t)
  {
    hide Split, Octets;
    SplitSame(s, t, ".");
    OctetsSame(Split(s, "."), Split(t, "."));
  }

  lemma {:induction false} FindLastSame(s: string, t: string, c: char)
    requires SameButCase(s, t) && !IsLetter(c)
    ensures FindLast(s, c) == FindLast(t, c)
  {
    if s != "" {
      LetterFacts(s[|s| - 1], t[|s| - 1]);
      SliceSame(s, t, 0, |s| - 1);
      FindLastSame(s[..|s| - 1], t[..|s| - 1], c);
    }
  }

  lemma WithoutQuadSame(s: string, t: string)
    requires SameButCase(s, t)
    ensures WithoutQuad(s).Some? <==> WithoutQuad(t).Some?
    ensures WithoutQuad(s).Some? ==> SameButCase(WithoutQuad(s).value, WithoutQuad(t).value)
  {
    hide SameLetter, IPv4Of, Find, FindLast, HexPair;
    FindLastSame(s, t, ':');
    var k := FindLast(s, ':') + 1;
    SliceSame(s, t, k, |s|);
    SliceSame(s, t, 0, k);
    FindSame(s[k..], t[k..], ".", 0);
    IPv4Same(s[k..], t[k..]);
    SameToItself();
  }

  lemma SameToItself()
    ensures forall c: char :: SameLetter(c, c)
  {
  }

  lemma PiecesSame(s: string, t: string)
    requires SameButCase(s, t)
    ensures SameParts(Pieces(s), Pieces(t))
  {
    SplitSame(s, t, ":");
  }

  lemma FromHalvesSame(a: seq<string>, b: seq<string>)
    requires SameParts(a, b) && a != []
    ensures FromHalves(a) == FromHalves(b)
  {
    hide Pieces, Groups, SameButCase;
    forall i | 0 <= i < |a|
      ensures Groups(Pieces(a[i])) == Groups(Pieces(b[i]))
    {
      PiecesSame(a[i], b[i]);
      GroupsSame(Pieces(a[i]), Pieces(b[i]));
    }
  }

  /** Writing letters of an IPv6 literal in the other case never changes what it is read
      as, nor whether it is read at all. */
  lemma IPv6Same(s: string, t: string)
    requires SameButCase(s, t)
    ensures IPv6Of(s) == IPv6Of(t)
  {
    hide Find, Split, FromHalves, WithoutQuad, SameButCase;
    SameLength(s, t);
    FindSame(s, t, "%", 0);
    var zone := Find(s, "%", 0);
    if zone != -1 { SliceSame(s, t, 0, zone); }
    var a, b := CutZone(s), CutZone(t);
    FindSame(a, b, ":", 0);
    WithoutQuadSame(a, b);
    if WithoutQuad(a).Some? {
      var u, v := WithoutQuad(a).value, WithoutQuad(b).value;
      SplitSame(u, v, "::");
      FromHalvesSame(Split(u, "::"), Split(v, "::"));
    }
  }

  /** So no decision depends on it, as long as `net.isIP` does not either. */
  lemma CaseKeepsDecision(rt: Runtime, cfg: Config, s: string, t: string)
    requires SameButCase(s, t) && rt.isIP(s) == rt.isIP(t)
    ensures Decide(rt, cfg, s) == Decide(rt, cfg, t)
  {
    hide IPv4Of, IPv6Of, Loaded, RefusalText;
    IPv4Same(s, t);
    IPv6Same(s, t);
  }
}
