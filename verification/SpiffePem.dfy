/** Trust bundles as PEM: api/spiffe_client.js prints the blocks, api/tls_probe.js cuts them. */
module SpiffePem {
  import opened Bytes
  import opened Text
  import opened SpiffeDer

  // ------------------------------------------------------------------- base64

  function Symbol(d: nat): (c: char)
    requires d < 64
    ensures Sextet(c) == d
  {
    if d < 26 then ('A' as int + d) as char
    else if d < 52 then ('a' as int + d - 26) as char
    else if d < 62 then ('0' as int + d - 52) as char
    else if d == 62 then '+' else '/'
  }

  /** The value of a base64 character, 64 for any other. */
  function Sextet(c: char): (d: nat)
    ensures d <= 64
  {
    if 'A' <= c <= 'Z' then c as int - 'A' as int
    else if 'a' <= c <= 'z' then c as int - 'a' as int + 26
    else if '0' <= c <= '9' then c as int - '0' as int + 52
    else if c == '+' then 62
    else if c == '/' then 63
    else 64
  }

  predicate AllSextets(x: seq<nat>) {
    forall i :: 0 <= i < |x| ==> x[i] < 64
  }

  /** Three bytes as four sextets, and back. */
  function ToSextets(a: byte, b: byte, c: byte): (x: seq<nat>)
    ensures |x| == 4 && AllSextets(x)
  {
    [a / 4, a % 4 * 16 + b / 16, b % 16 * 4 + c / 64, c % 64]
  }

  function ToBytes(w: nat, x: nat, y: nat, z: nat): (b: seq<byte>)
    requires w < 64 && x < 64 && y < 64 && z < 64
    ensures |b| == 3
  {
    [w * 4 + x / 16, x % 16 * 16 + y / 4, y % 4 * 64 + z]
  }

  lemma GroupRoundTrip(a: byte, b: byte, c: byte)
    ensures var x := ToSextets(a, b, c); ToBytes(x[0], x[1], x[2], x[3]) == [a, b, c]
    ensures ToSextets(a, b, 0)[3] == 0
    ensures ToSextets(a, 0, 0)[2] == 0
  {
    HighLow16(a % 4, b / 16);
    HighLow4(b % 16, c / 64);
  }

  lemma HighLow16(high: nat, low: nat)
    requires low < 16
    ensures (high * 16 + low) / 16 == high && (high * 16 + low) % 16 == low
  {
  }

  lemma HighLow4(high: nat, low: nat)
    requires low < 4
    ensures (high * 4 + low) / 4 == high && (high * 4 + low) % 4 == low
  {
  }

  function Symbols(x: seq<nat>): (s: string)
    requires AllSextets(x)
    ensures |s| == |x|
  {
    if x == [] then "" else [Symbol(x[0])] + Symbols(x[1..])
  }

  function Base64(b: seq<byte>): string {
    if b == [] then ""
    else if |b| == 1 then Symbols(ToSextets(b[0], 0, 0)[..2]) + "=="
    else if |b| == 2 then Symbols(ToSextets(b[0], b[1], 0)[..3]) + "="
    else Symbols(ToSextets(b[0], b[1], b[2])) + Base64(b[3..])
  }

  /** The values of the base64 characters of `s`; padding, line breaks and anything else
      are passed over. */
  function Sextets(s: string): (x: seq<nat>)
    ensures AllSextets(x)
  {
    if s == "" then []
    else (if Sextet(s[0]) < 64 then [Sextet(s[0])] else []) + Sextets(s[1..])
  }

  function FromSextets(x: seq<nat>): seq<byte>
    requires AllSextets(x)
  {
    if |x| < 2 then []
    else if |x| == 2 then ToBytes(x[0], x[1], 0, 0)[..1]
    else if |x| == 3 then ToBytes(x[0], x[1], x[2], 0)[..2]
    else ToBytes(x[0], x[1], x[2], x[3]) + FromSextets(x[4..])
  }

  function FromBase64(s: string): seq<byte> {
    FromSextets(Sextets(s))
  }

  lemma {:induction false} SextetsAppend(s: string, t: string)
    ensures Sextets(s + t) == Sextets(s) + Sextets(t)
  {
    hide Sextet, AllSextets;
    if s == "" {
      assert s + t == t && Sextets(s) == [];
    } else {
      var head := if Sextet(s[0]) < 64 then [Sextet(s[0])] else [];
      assert (s + t)[1..] == s[1..] + t && (s + t)[0] == s[0];
      SextetsAppend(s[1..], t);
      assert (head + Sextets(s[1..])) + Sextets(t) == head + (Sextets(s[1..]) + Sextets(t));
    }
  }

  lemma {:induction false} SymbolsRead(x: seq<nat>)
    requires AllSextets(x)
    ensures Sextets(Symbols(x)) == x
  {
    if x != [] {
      SymbolsRead(x[1..]);
      assert Symbols(x)[1..] == Symbols(x[1..]);
    }
  }

  lemma PaddingIsSkipped(s: string)
    ensures Sextets(s + "=") == Sextets(s) && Sextets(s + "==") == Sextets(s)
  {
    assert Sextets("=") == [] by { assert "="[1..] == ""; }
    assert Sextets("==") == [] by { assert "=="[1..] == "="; }
    hide Sextets;
    SextetsAppend(s, "=");
    SextetsAppend(s, "==");
  }

  /** Decoding undoes encoding. */
  lemma {:induction false} Base64RoundTrip(b: seq<byte>)
    ensures FromBase64(Base64(b)) == b
  {
    hide ToSextets, ToBytes, Symbols, Sextets, AllSextets;
    if b == [] {
      SymbolsRead([]);
      NoSymbols();
    } else if |b| == 1 {
      GroupRoundTrip(b[0], 0, 0);
      ShortGroup(ToSextets(b[0], 0, 0), 2);
      PaddingIsSkipped(Symbols(ToSextets(b[0], 0, 0)[..2]));
    } else if |b| == 2 {
      GroupRoundTrip(b[0], b[1], 0);
      ShortGroup(ToSextets(b[0], b[1], 0), 3);
      PaddingIsSkipped(Symbols(ToSextets(b[0], b[1], 0)[..3]));
    } else {
      Base64RoundTrip(b[3..]);
      WholeGroup(b);
    }
  }

  lemma NoSymbols()
    ensures Symbols([]) == "" && AllSextets([])
  {
  }

  lemma ShortGroup(x: seq<nat>, n: nat)
    requires AllSextets(x) && |x| == 4 && n <= 4
    ensures AllSextets(x[..n]) && Sextets(Symbols(x[..n])) == x[..n]
  {
    assert AllSextets(x[..n]);
    SymbolsRead(x[..n]);
  }

  lemma FromFour(x: seq<nat>, rest: seq<nat>)
    requires AllSextets(x) && |x| == 4 && AllSextets(rest)
    ensures AllSextets(x + rest)
    ensures FromSextets(x + rest) == ToBytes(x[0], x[1], x[2], x[3]) + FromSextets(rest)
  {
    hide ToBytes;
    assert (x + rest)[4..] == rest;
  }

  lemma LongBase64(b: seq<byte>)
    requires |b| >= 3
    ensures Base64(b) == Symbols(ToSextets(b[0], b[1], b[2])) + Base64(b[3..])
  {
    hide ToSextets, Symbols;
  }

  lemma WholeGroup(b: seq<byte>)
    requires |b| >= 3 && FromBase64(Base64(b[3..])) == b[3..]
    ensures FromBase64(Base64(b)) == b
  {
    hide ToSextets, ToBytes, Symbols, Sextets, Base64, FromSextets, AllSextets;
    var x, rest := ToSextets(b[0], b[1], b[2]), Base64(b[3..]);
    LongBase64(b);
    GroupRoundTrip(b[0], b[1], b[2]);
    SymbolsRead(x);
    SextetsAppend(Symbols(x), rest);
    FromFour(x, Sextets(rest));
    assert b == [b[0], b[1], b[2]] + b[3..];
  }

  /** What base64 text is made of. */
  predicate IsBase64Char(c: char) {
    Sextet(c) < 64 || c == '='
  }

  predicate AllBase64(s: string) {
    forall i :: 0 <= i < |s| ==> IsBase64Char(s[i])
  }

  lemma {:induction false} SymbolChars(x: seq<nat>)
    requires AllSextets(x)
    ensures AllBase64(Symbols(x))
  {
    if x != [] {
      SymbolChars(x[1..]);
    }
  }

  lemma {:induction false} Base64Chars(b: seq<byte>)
    ensures AllBase64(Base64(b)) && (b != [] ==> |Base64(b)| >= 4)
  {
    hide ToSextets, Symbols;
    if |b| == 1 {
      SymbolChars(ToSextets(b[0], 0, 0)[..2]);
    } else if |b| == 2 {
      SymbolChars(ToSextets(b[0], b[1], 0)[..3]);
    } else if |b| >= 3 {
      SymbolChars(ToSextets(b[0], b[1], b[2]));
      Base64Chars(b[3..]);
    }
  }

  // ------------------------------------------------------------ printing PEM

  /** A newline after every 64 characters. */
  function Wrap(s: string): string {
    if |s| < 64 then s else s[..64] + "\n" + Wrap(s[64..])
  }

  function DropLastNewline(s: string): string {
    if s != "" && s[|s| - 1] == '\n' then s[..|s| - 1] else s
  }

  function Marker(kind: string, name: string): string {
    "-----" + kind + " " + name + "-----"
  }

  function DerToPem(der: seq<byte>, name: string): string {
    Marker("BEGIN", name) + "\n" + DropLastNewline(Wrap(Base64(der))) + "\n" + Marker("END", name) + "\n"
  }

  /** The base64 of a certificate as lines. */
  function Lines(s: string): seq<string> {
    if |s| <= 64 then [s] else [s[..64]] + Lines(s[64..])
  }

  lemma {:induction false} WrapIsLines(s: string)
    requires AllBase64(s)
    ensures DropLastNewline(Wrap(s)) == Join(Lines(s), "\n")
    ensures s != "" ==> Wrap(s) != ""
  {
    hide Sextet;
    assert !IsBase64Char('\n') by { NewlineIsNotBase64(); }
    if |s| < 64 {
    } else if |s| == 64 {
      assert s[64..] == "" && s[..64] == s;
    } else {
      var rest := s[64..];
      WrapIsLines(rest);
      assert Wrap(s) == s[..64] + "\n" + Wrap(rest);
      DropsAtTheEnd(s[..64] + "\n", Wrap(rest));
      assert Lines(s)[1..] == Lines(rest);
    }
  }

  lemma DropsAtTheEnd(before: string, last: string)
    requires last != ""
    ensures DropLastNewline(before + last) == before + DropLastNewline(last)
  {
    assert (before + last)[|before + last| - 1] == last[|last| - 1];
  }

  lemma NewlineIsNotBase64()
    ensures !IsBase64Char('\n') && !IsBase64Char('-')
  {
  }

  /** Every line of base64 holds 1 to 64 characters, all but the last exactly 64, and
      the lines are the base64 text in order. */
  lemma {:induction false} LinesAreFull(s: string)
    requires s != ""
    ensures var ls := Lines(s);
            && ls != [] && Join(ls, "") == s
            && (forall i :: 0 <= i < |ls| ==> 1 <= |ls[i]| <= 64)
            && (forall i :: 0 <= i < |ls| - 1 ==> |ls[i]| == 64)
  {
    if |s| > 64 {
      var rest := Lines(s[64..]);
      LinesAreFull(s[64..]);
      assert Lines(s) == [s[..64]] + rest && Lines(s)[1..] == rest;
      assert s == s[..64] + "" + s[64..];
    }
  }

  lemma LineChars(s: string, line: string)
    requires line in Lines(s)
    ensures forall c :: c in line ==> c in s
    decreases |s|
  {
    if |s| > 64 && line != s[..64] {
      LineChars(s[64..], line);
    }
  }

  /** The lines of a printed certificate, read back off the text between its markers. */
  lemma PemLines(der: seq<byte>)
    requires der != []
    ensures var ls := Split(DropLastNewline(Wrap(Base64(der))), "\n");
            && Join(ls, "") == Base64(der)
            && (forall i :: 0 <= i < |ls| ==> 1 <= |ls[i]| <= 64)
            && (forall i :: 0 <= i < |ls| - 1 ==> |ls[i]| == 64)
  {
    hide Base64, Wrap, DropLastNewline;
    var s := Base64(der);
    Base64Chars(der);
    WrapIsLines(s);
    LinesAreFull(s);
    NewlineIsNotBase64();
    forall line | line in Lines(s)
      ensures '\n' !in line
    {
      LineChars(s, line);
    }
    SplitJoin(Lines(s), '\n');
  }

  // ------------------------------------------------------------------ bundles

  function WithoutSpace(s: string): string {
    if s == "" then "" else (if IsSpace(s[0]) then "" else [s[0]]) + WithoutSpace(s[1..])
  }

  function PemOf(blocks: seq<seq<byte>>): string {
    if blocks == [] then "" else DerToPem(blocks[0], "CERTIFICATE") + PemOf(blocks[1..])
  }

  /** What one item of a bundle contributes. */
  function ItemToPem(item: string): string {
    var text := Trim(item);
    if text == "" then ""
    else if Find(text, "-----BEGIN", 0) != -1 then
      (if text[|text| - 1] == '\n' then text else text + "\n")
    else PemOf(SplitFrom(FromBase64(WithoutSpace(text)), 0))
  }

  function ItemsToPem(items: seq<string>): string {
    if items == [] then "" else ItemToPem(items[0]) + ItemsToPem(items[1..])
  }

  method BundleToPem(items: seq<string>) returns (pem: string)
    ensures pem == ItemsToPem(items)
  {
    hide ItemToPem;
    pem := "";
    for i := 0 to |items|
      invariant pem + ItemsToPem(items[i..]) == ItemsToPem(items)
    {
      assert items[i..][1..] == items[i + 1..];
      var block := PrintItem(items[i]);
      pem := pem + block;
    }
  }

  method PrintItem(item: string) returns (pem: string)
    ensures pem == ItemToPem(item)
  {
    hide PemOf, FromBase64, SplitFrom, WithoutSpace, Trim, Find;
    var text := Trim(item);
    if text == "" {
      return "";
    }
    if Find(text, "-----BEGIN", 0) != -1 {
      return if text[|text| - 1] == '\n' then text else text + "\n";
    }
    var blocks := SplitDerCertificates(FromBase64(WithoutSpace(text)));
    pem := PrintBlocks(blocks);
  }

  method PrintBlocks(blocks: seq<seq<byte>>) returns (pem: string)
    ensures pem == PemOf(blocks)
  {
    hide DerToPem;
    pem := "";
    for i := 0 to |blocks|
      invariant pem + PemOf(blocks[i..]) == PemOf(blocks)
    {
      assert blocks[i..][1..] == blocks[i + 1..];
      pem := pem + DerToPem(blocks[i], "CERTIFICATE");
    }
  }

  // ----------------------------------------------------- cutting PEM bundles

  const BEGIN_CERTIFICATE := "-----BEGIN CERTIFICATE-----"
  const END_CERTIFICATE := "-----END CERTIFICATE-----"

  /** `splitPemCertificates`: from each BEGIN marker to the nearest END marker after it. */
  function SplitPem(text: string): seq<string>
    decreases |text|
  {
    var begin := Find(text, BEGIN_CERTIFICATE, 0);
    if begin == -1 then []
    else
      var end := Find(text, END_CERTIFICATE, begin + |BEGIN_CERTIFICATE|);
      if end == -1 then []
      else [text[begin..end + |END_CERTIFICATE|]] + SplitPem(text[end + |END_CERTIFICATE|..])
  }

  /** A PEM block without its markers. */
  function Dearmour(block: string): seq<byte>
    requires IsBlock(block)
  {
    FromBase64(block[|BEGIN_CERTIFICATE|..|block| - |END_CERTIFICATE|])
  }

  predicate IsBlock(block: string) {
    |block| >= |BEGIN_CERTIFICATE| + |END_CERTIFICATE|
  }

  function DearmourAll(blocks: seq<string>): seq<seq<byte>>
    requires forall i :: 0 <= i < |blocks| ==> IsBlock(blocks[i])
  {
    if blocks == [] then [] else [Dearmour(blocks[0])] + DearmourAll(blocks[1..])
  }

  function BodyText(der: seq<byte>): string {
    "\n" + DropLastNewline(Wrap(Base64(der))) + "\n"
  }

  lemma MarkersAre()
    ensures Marker("BEGIN", "CERTIFICATE") == BEGIN_CERTIFICATE
    ensures Marker("END", "CERTIFICATE") == END_CERTIFICATE
  {
    BeginMarker();
    EndMarker();
  }

  lemma BeginMarker()
    ensures Marker("BEGIN", "CERTIFICATE") == BEGIN_CERTIFICATE
  {
  }

  lemma EndMarker()
    ensures Marker("END", "CERTIFICATE") == END_CERTIFICATE
  {
  }

  lemma {:induction false} WrappedSextets(s: string)
    requires AllBase64(s)
    ensures Sextets(Wrap(s)) == Sextets(s) && '-' !in Wrap(s)
  {
    NewlineIsNotBase64();
    hide IsBase64Char, Sextet, Sextets;
    if |s| >= 64 {
      WrappedSextets(s[64..]);
      assert s == s[..64] + s[64..];
      LineSextets(s[..64], s[64..], Wrap(s[64..]));
    }
  }

  lemma LineSextets(line: string, rest: string, wrapped: string)
    requires Sextets(wrapped) == Sextets(rest)
    ensures Sextets(line + "\n" + wrapped) == Sextets(line + rest)
  {
    hide Sextet;
    NewlineSextets();
    hide Sextets;
    SextetsAppend(line, rest);
    SextetsAppend(line + "\n", wrapped);
    SextetsAppend(line, "\n");
  }

  lemma NewlineSextets()
    ensures Sextets("\n") == []
  {
    assert "\n"[1..] == "";
  }

  lemma NewlinesAround(d: string)
    ensures Sextets("\n" + d + "\n") == Sextets(d)
  {
    hide Sextet;
    NewlineSextets();
    hide Sextets;
    SextetsAppend("\n" + d, "\n");
    SextetsAppend("\n", d);
  }

  lemma DroppedNewline(w: string)
    ensures Sextets(DropLastNewline(w)) == Sextets(w)
    ensures '-' !in w ==> '-' !in DropLastNewline(w)
  {
    hide Sextet;
    NewlineSextets();
    hide Sextets;
    var d := DropLastNewline(w);
    if d != w {
      assert w == d + "\n";
      SextetsAppend(d, "\n");
    }
  }

  lemma BodyReads(der: seq<byte>)
    ensures FromBase64(BodyText(der)) == der && '-' !in BodyText(der)
  {
    hide Base64, Wrap, FromSextets, Sextets, DropLastNewline;
    var s := Base64(der);
    Base64Chars(der);
    WrappedSextets(s);
    DroppedNewline(Wrap(s));
    NewlinesAround(DropLastNewline(Wrap(s)));
    Base64RoundTrip(der);
  }

  lemma BeginFound(before: string, rest: string)
    requires '-' !in before
    ensures Find(before + BEGIN_CERTIFICATE + rest, BEGIN_CERTIFICATE, 0) == |before|
  {
    hide Find;
    var s := before + BEGIN_CERTIFICATE + rest;
    assert s[|before|..|before| + |BEGIN_CERTIFICATE|] == BEGIN_CERTIFICATE;
    forall j: nat | j < |before|
      ensures !OccursAt(s, BEGIN_CERTIFICATE, j)
    {
      assert s[j] == before[j];
      assert s[j..j + |BEGIN_CERTIFICATE|][0] == s[j];
    }
    FindIs(s, BEGIN_CERTIFICATE, 0, |before|);
  }

  lemma EndFound(before: string, body: string, rest: string)
    requires '-' !in body
    ensures Find(before + body + END_CERTIFICATE + rest, END_CERTIFICATE, |before|) == |before + body|
  {
    hide Find;
    var s := before + body + END_CERTIFICATE + rest;
    var at := |before + body|;
    assert s[at..at + |END_CERTIFICATE|] == END_CERTIFICATE;
    forall j: nat | |before| <= j < at
      ensures !OccursAt(s, END_CERTIFICATE, j)
    {
      assert s[j] == body[j - |before|];
      assert s[j..j + |END_CERTIFICATE|][0] == s[j];
    }
    FindIs(s, END_CERTIFICATE, |before|, at);
  }

  /** The first block cut is the first one printed. */
  lemma FirstBlock(before: string, body: string, rest: string)
    requires '-' !in before && '-' !in body
    ensures SplitPem(before + BEGIN_CERTIFICATE + body + END_CERTIFICATE + rest) ==
            [BEGIN_CERTIFICATE + body + END_CERTIFICATE] + SplitPem(rest)
  {
    hide Find;
    var text := before + BEGIN_CERTIFICATE + body + END_CERTIFICATE + rest;
    assert text == before + BEGIN_CERTIFICATE + (body + END_CERTIFICATE + rest);
    BeginFound(before, body + END_CERTIFICATE + rest);
    assert text == (before + BEGIN_CERTIFICATE) + body + END_CERTIFICATE + rest;
    EndFound(before + BEGIN_CERTIFICATE, body, rest);
    var end := |before + BEGIN_CERTIFICATE + body|;
    assert text[|before|..end + |END_CERTIFICATE|] == BEGIN_CERTIFICATE + body + END_CERTIFICATE;
    assert text[end + |END_CERTIFICATE|..] == rest;
  }

  lemma CutsFirst(cert: seq<byte>, before: string, rest: string) returns (block: string)
    requires '-' !in before
    ensures SplitPem(before + (DerToPem(cert, "CERTIFICATE") + rest)) == [block] + SplitPem("\n" + rest)
    ensures IsBlock(block) && Dearmour(block) == cert
  {
    hide Find, FromBase64, SplitPem, BodyText, DerToPem;
    var body := BodyText(cert);
    block := BEGIN_CERTIFICATE + body + END_CERTIFICATE;
    BodyReads(cert);
    PemIs(cert);
    assert before + (DerToPem(cert, "CERTIFICATE") + rest) ==
           before + BEGIN_CERTIFICATE + body + END_CERTIFICATE + ("\n" + rest);
    FirstBlock(before, body, "\n" + rest);
    assert block[|BEGIN_CERTIFICATE|..|block| - |END_CERTIFICATE|] == body;
  }

  /** Printed and cut again, the blocks hold the same certificates in the same order. */
  lemma {:induction false} PrintedBlocksCut(certs: seq<seq<byte>>, before: string)
    requires '-' !in before
    ensures var blocks := SplitPem(before + PemOf(certs));
            && (forall i :: 0 <= i < |blocks| ==> IsBlock(blocks[i]))
            && DearmourAll(blocks) == certs
    decreases |certs|
  {
    hide SplitPem, Dearmour, IsBlock, DerToPem;
    if certs == [] {
      assert before + "" == before;
      NoBlock(before);
    } else {
      var rest := PemOf(certs[1..]);
      var block := CutsFirst(certs[0], before, rest);
      PrintedBlocksCut(certs[1..], "\n");
      var others := SplitPem("\n" + rest);
      assert ([block] + others)[1..] == others;
      assert certs == [certs[0]] + certs[1..];
    }
  }

  lemma PemIs(der: seq<byte>)
    ensures DerToPem(der, "CERTIFICATE") == BEGIN_CERTIFICATE + BodyText(der) + END_CERTIFICATE + "\n"
  {
    hide Base64, Wrap, DropLastNewline;
    MarkersAre();
  }

  lemma NoBlock(before: string)
    requires '-' !in before
    ensures SplitPem(before) == []
  {
    FindAbsent(before, BEGIN_CERTIFICATE, 0);
  }

  /** The text a caller supplies for each group of certificates: base64 of their bytes
      one after another. */
  function Supplied(groups: seq<seq<seq<byte>>>): seq<string> {
    if groups == [] then [] else [Base64(Flatten(groups[0]))] + Supplied(groups[1..])
  }

  lemma {:induction false} PemOfAppend(a: seq<seq<byte>>, b: seq<seq<byte>>)
    ensures PemOf(a + b) == PemOf(a) + PemOf(b)
  {
    if a == [] {
      assert a + b == b;
    } else {
      hide DerToPem;
      assert (a + b)[1..] == a[1..] + b && (a + b)[0] == a[0];
      PemOfAppend(a[1..], b);
    }
  }

  lemma {:induction false} NoSpace(s: string)
    requires forall i :: 0 <= i < |s| ==> !IsSpace(s[i])
    ensures WithoutSpace(s) == s
  {
    if s != "" {
      hide IsSpace;
      NoSpace(s[1..]);
    }
  }

  lemma Base64IsPlain(b: seq<byte>)
    ensures var s := Base64(b);
            && Trim(s) == s && WithoutSpace(s) == s && Find(s, "-----BEGIN", 0) == -1
  {
    hide Base64, Find, Trim, WithoutSpace;
    var s := Base64(b);
    Base64Chars(b);
    forall c | IsBase64Char(c)
      ensures !IsSpace(c) && c != '-'
    {
    }
    NoSpace(s);
    TrimKeeps(s);
    FindAbsent(s, "-----BEGIN", 0);
  }

  lemma SuppliedItem(certs: seq<seq<byte>>)
    requires AllElements(certs)
    ensures ItemToPem(Base64(Flatten(certs))) == PemOf(certs)
  {
    hide Base64, FromBase64, SplitFrom, PemOf, Find, Trim, WithoutSpace;
    var der := Flatten(certs);
    Base64IsPlain(der);
    Base64RoundTrip(der);
    SplitOfConcatenation(certs);
    Base64Chars(der);
    if der == [] {
      NoCertificates(certs);
    }
  }

  lemma NoCertificates(certs: seq<seq<byte>>)
    requires AllElements(certs) && Flatten(certs) == []
    ensures certs == [] && PemOf(certs) == "" && Base64([]) == ""
  {
    if certs != [] {
      assert certs[0] in certs;
      ElementNotEmpty(certs[0]);
      assert false;
    }
  }

  lemma {:induction false} SuppliedItems(groups: seq<seq<seq<byte>>>)
    requires forall g :: g in groups ==> AllElements(g)
    ensures ItemsToPem(Supplied(groups)) == PemOf(Flatten(groups))
  {
    if groups != [] {
      hide Base64, ItemToPem, PemOf, AllElements;
      assert groups[0] in groups;
      SuppliedItem(groups[0]);
      SuppliedItems(groups[1..]);
      assert Supplied(groups)[1..] == Supplied(groups[1..]);
      PemOfAppend(groups[0], Flatten(groups[1..]));
    } else {
      assert Flatten(groups) == [];
    }
  }

  /** From whatever groups a caller sends certificates in, printing the bundle as PEM,
      cutting it into blocks and decoding each gives back all of them in order. */
  lemma PipelineRoundTrip(groups: seq<seq<seq<byte>>>)
    requires forall g :: g in groups ==> AllElements(g)
    ensures var blocks := SplitPem(ItemsToPem(Supplied(groups)));
            && (forall i :: 0 <= i < |blocks| ==> IsBlock(blocks[i]))
            && DearmourAll(blocks) == Flatten(groups)
  {
    hide SplitPem, ItemsToPem, Supplied, PemOf, DearmourAll, AllElements, Dearmour;
    SuppliedItems(groups);
    PrintedBlocksCut(Flatten(groups), "");
    assert "" + PemOf(Flatten(groups)) == PemOf(Flatten(groups));
  }

  lemma TrimsBlanks(before: string, text: string, after: string)
    requires AllSpace(before) && AllSpace(after) && text != "" && !IsSpace(text[0]) && !IsSpace(text[|text| - 1])
    ensures Trim(before + text + after) == text
  {
    hide IsSpace, TrimStart, TrimEnd;
    TrimStartTo(before, text + after);
    assert before + text + after == before + (text + after);
    TrimEndTo(text, after);
  }

  lemma {:induction false} TrimEndTo(text: string, after: string)
    requires AllSpace(after) && text != "" && !IsSpace(text[|text| - 1])
    ensures TrimEnd(text + after) == text
  {
    hide IsSpace;
    if after == "" {
      assert text + after == text;
    } else {
      assert (text + after)[..|text + after| - 1] == text + after[..|after| - 1];
      TrimEndTo(text, after[..|after| - 1]);
    }
  }

  /** PEM a caller sends is passed on as it is, on lines of its own. */
  lemma PemItem(before: string, text: string, after: string, k: nat)
    requires AllSpace(before) && AllSpace(after) && text != "" && !IsSpace(text[0]) && !IsSpace(text[|text| - 1])
    requires k + 10 <= |text| && text[k..k + 10] == "-----BEGIN"
    ensures ItemToPem(before + text + after) == text + "\n"
  {
    hide IsSpace, TrimStart, TrimEnd, Find;
    TrimsBlanks(before, text, after);
    assert OccursAt(text, "-----BEGIN", k);
    SpaceIsListed('\n');
  }

  /** What base64 with white space anywhere in it is made of. */
  predicate Blanked(s: string) {
    forall i :: 0 <= i < |s| ==> IsBase64Char(s[i]) || IsSpace(s[i])
  }

  lemma {:induction false} SpacesSkipped(s: string)
    requires AllSpace(s)
    ensures Sextets(s) == []
  {
    if s != "" {
      SpaceIsNoSextet(s[0]);
      hide IsSpace, Sextet;
      SpacesSkipped(s[1..]);
    }
  }

  lemma SpaceIsNoSextet(c: char)
    requires IsSpace(c)
    ensures Sextet(c) == 64
  {
  }

  lemma {:induction false} SpaceRemoved(s: string)
    ensures Sextets(WithoutSpace(s)) == Sextets(s)
  {
    if s != "" {
      SpaceRemoved(s[1..]);
      if IsSpace(s[0]) {
        SpaceIsNoSextet(s[0]);
        assert WithoutSpace(s) == WithoutSpace(s[1..]);
      } else {
        hide IsSpace, Sextet;
        assert ([s[0]] + WithoutSpace(s[1..]))[1..] == WithoutSpace(s[1..]);
      }
    }
  }

  /** A base64 item is read off its base64 characters alone, however it is broken by white
      space and whatever of that is around it. */
  lemma BlankedItem(s: string)
    requires Blanked(s)
    ensures ItemToPem(s) == PemOf(SplitFrom(FromBase64(s), 0))
  {
    hide IsSpace, Sextet, Sextets, FromSextets, Trim, TrimStart, TrimEnd, Find, PemOf, SplitFrom, WithoutSpace;
    var before, after := TrimExactly(s);
    var text := Trim(s);
    SpacesSkipped(before);
    SpacesSkipped(after);
    SextetsAppend(before + text, after);
    SextetsAppend(before, text);
    assert Sextets(s) == Sextets(text);
    DashIsNeither();
    assert forall i :: 0 <= i < |text| ==> text[i] == s[|before| + i];
    FindAbsent(text, "-----BEGIN", 0);
    SpaceRemoved(text);
    NothingRead();
  }

  lemma DashIsNeither()
    ensures !IsBase64Char('-') && !IsSpace('-')
  {
  }

  lemma NothingRead()
    ensures Sextets("") == [] && FromSextets([]) == [] && PemOf(SplitFrom([], 0)) == ""
  {
  }

  /** So white space put in anywhere changes nothing. */
  lemma BlanksDoNotShow(a: string, blanks: string, b: string)
    requires Blanked(a) && Blanked(b) && AllSpace(blanks)
    ensures ItemToPem(a + blanks + b) == ItemToPem(a + b)
  {
    hide IsSpace, IsBase64Char, Sextet, Sextets, FromSextets, PemOf, SplitFrom, ItemToPem;
    BlankedItem(a + blanks + b);
    BlankedItem(a + b);
    SpacesSkipped(blanks);
    SextetsAppend(a + blanks, b);
    SextetsAppend(a, blanks);
    SextetsAppend(a, b);
    assert Sextets(a + blanks + b) == Sextets(a + b);
  }

  /** How printed certificates begin and end. */
  predicate PrintedLook(pem: string) {
    |pem| > 10 && pem[..10] == "-----BEGIN" && pem[|pem| - 1] == '\n' && pem[|pem| - 2] == '-'
  }

  lemma LooksPrinted(first: string, rest: string)
    requires PrintedLook(first) && (rest == "" || PrintedLook(rest))
    ensures PrintedLook(first + rest)
  {
    assert (first + rest)[..10] == first[..10];
    if rest == "" {
      assert first + rest == first;
    }
  }

  lemma OnePrinted(der: seq<byte>)
    ensures PrintedLook(DerToPem(der, "CERTIFICATE"))
  {
    hide DropLastNewline, Wrap, Base64;
    PemIs(der);
  }

  lemma {:induction false} PrintedEnds(certs: seq<seq<byte>>)
    requires certs != []
    ensures PrintedLook(PemOf(certs))
  {
    hide DerToPem, PemOf, PrintedLook;
    FirstPrinted(certs);
    OnePrinted(certs[0]);
    if |certs| > 1 {
      PrintedEnds(certs[1..]);
    } else {
      NothingPrinted(certs[1..]);
    }
    LooksPrinted(DerToPem(certs[0], "CERTIFICATE"), PemOf(certs[1..]));
  }

  lemma FirstPrinted(certs: seq<seq<byte>>)
    requires certs != []
    ensures PemOf(certs) == DerToPem(certs[0], "CERTIFICATE") + PemOf(certs[1..])
  {
    hide DerToPem;
  }

  lemma NothingPrinted(certs: seq<seq<byte>>)
    requires certs == []
    ensures PemOf(certs) == ""
  {
  }

  lemma TrimsOneNewline(s: string)
    requires |s| >= 2 && !IsSpace(s[0]) && s[|s| - 1] == '\n' && !IsSpace(s[|s| - 2])
    ensures Trim(s) == s[..|s| - 1]
  {
    assert TrimStart(s) == s;
    assert TrimEnd(s[..|s| - 1]) == s[..|s| - 1];
  }

  /** PEM already printed passes through unchanged, so printing a bundle twice is printing
      it once. */
  lemma PrintingIsIdempotent(certs: seq<seq<byte>>)
    requires certs != []
    ensures ItemsToPem([PemOf(certs)]) == PemOf(certs)
  {
    hide PemOf, FromBase64, SplitFrom, WithoutSpace, Trim;
    var pem := PemOf(certs);
    PrintedEnds(certs);
    assert pem[0] == pem[..10][0];
    TrimsOneNewline(pem);
    var text := pem[..|pem| - 1];
    assert text[0..10] == "-----BEGIN" && OccursAt(text, "-----BEGIN", 0);
    FindIs(text, "-----BEGIN", 0, 0);
    assert text + "\n" == pem;
    assert ItemsToPem([pem][1..]) == "" && pem + "" == pem;
  }
}
