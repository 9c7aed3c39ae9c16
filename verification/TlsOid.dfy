/** api/tls_probe.js: the signature algorithm OID of a DER certificate. */
module TlsOid {
  import opened Bytes
  import opened Text
  import opened Krb5Frame

  /** A number of the language: reading past the end of the bytes gives `undefined`, and
      arithmetic on that gives NaN, which compares unequal to every tag. */
  datatype Num = Int(value: nat) | NaN

  function ByteAt(bytes: seq<byte>, at: Num): Num {
    if at.Int? && at.value < |bytes| then Int(bytes[at.value]) else NaN
  }

  function Plus(a: Num, b: Num): Num {
    if a.Int? && b.Int? then Int(a.value + b.value) else NaN
  }

  // ------------------------------------------------------------------ headers

  datatype Header = Header(tag: Num, length: Num, start: Num)

  function LongLength(bytes: seq<byte>, at: nat, count: nat): Num {
    if count == 0 then Int(0)
    else if at + count <= |bytes| then Int(Value(bytes[at..at + count]))
    else NaN
  }

  lemma LongLengthGrows(bytes: seq<byte>, at: nat, count: nat)
    ensures var length, b := LongLength(bytes, at, count), ByteAt(bytes, Int(at + count));
            LongLength(bytes, at, count + 1) ==
            if length.Int? && b.Int? then Int(length.value * 256 + b.value) else NaN
  {
    if at + count < |bytes| {
      var field := bytes[at..at + count + 1];
      assert field[..count] == bytes[at..at + count];
      assert Value(field) == Value(field[..count]) * 256 + field[count];
    }
  }

  /** `readHeader` with the shared index at `at`; it leaves the index at `start`. */
  function HeaderAt(bytes: seq<byte>, at: Num): Header {
    var tag := ByteAt(bytes, at);
    var length := ByteAt(bytes, Plus(at, Int(1)));
    var start := Plus(at, Int(2));
    if length.Int? && length.value >= 0x80 then
      var count := length.value - 0x80;
      Header(tag, LongLength(bytes, start.value, count), Int(start.value + count))
    else Header(tag, length, start)
  }

  class Reader {
    const bytes: seq<byte>
    var at: Num

    constructor (der: seq<byte>)
      ensures bytes == der && at == Int(0)
    {
      bytes, at := der, Int(0);
    }

    method ReadHeader() returns (h: Header)
      modifies this
      ensures h == HeaderAt(bytes, old(at)) && at == h.start
    {
      var tag := ByteAt(bytes, at);
      at := Plus(at, Int(1));
      var length := ByteAt(bytes, at);
      at := Plus(at, Int(1));
      if length.Int? && length.value >= 0x80 {
        var count := length.value - 0x80;
        ghost var from := at.value;
        length := Int(0);
        for i := 0 to count
          invariant at == Int(from + i)
          invariant length == LongLength(bytes, from, i)
        {
          var b := ByteAt(bytes, at);
          LongLengthGrows(bytes, from, i);
          length := if length.Int? && b.Int? then Int(length.value * 256 + b.value) else NaN;
          at := Plus(at, Int(1));
        }
      }
      return Header(tag, length, at);
    }
  }

  /** This reader, the Kerberos one and (by SpiffeDer.AgreesWithOuterTlv) the splitter
      agree: whatever header `readOuterTlv` accepts, `readHeader` reads the same way. */
  lemma AgreesWithOuterTlv(bytes: seq<byte>, at: nat)
    requires at <= |bytes| && OuterTlv(bytes[at..]).Ok?
    ensures var outer := OuterTlv(bytes[at..]).value;
            HeaderAt(bytes, Int(at)) == Header(Int(outer.tag), Int(outer.length), Int(at + outer.headerLength))
  {
    var rest := bytes[at..];
    assert rest[0] == bytes[at] && rest[1] == bytes[at + 1];
    if rest[1] > 0x80 {
      var count := rest[1] as int - 0x80;
      assert rest[2..2 + count] == bytes[at + 2..at + 2 + count];
    }
  }

  // ----------------------------------------------------------------- the arcs

  /** The loop over the later bytes, from `i`, with `value` accumulated so far. */
  function ArcsFrom(body: seq<byte>, i: nat, value: nat): seq<nat>
    decreases |body| - i
  {
    if i >= |body| then []
    else
      var v := value * 128 + body[i] % 128;
      if body[i] < 0x80 then [v] + ArcsFrom(body, i + 1, 0) else ArcsFrom(body, i + 1, v)
  }

  function Ints(arcs: seq<nat>): seq<Num> {
    seq(|arcs|, i requires 0 <= i < |arcs| => Int(arcs[i]))
  }

  /** The two arcs of the first byte, then the others. */
  function PartsOf(body: seq<byte>): seq<Num> {
    if body == [] then [NaN, NaN] else Ints([body[0] / 40, body[0] % 40] + ArcsFrom(body, 1, 0))
  }

  method ReadArcs(body: seq<byte>) returns (parts: seq<Num>)
    ensures parts == PartsOf(body)
  {
    if |body| == 0 {
      return [NaN, NaN];
    }
    var arcs: seq<nat> := [body[0] / 40, body[0] % 40];
    var value: nat := 0;
    for i := 1 to |body|
      invariant [body[0] / 40, body[0] % 40] + ArcsFrom(body, 1, 0) == arcs + ArcsFrom(body, i, value)
    {
      value := value * 128 + body[i] % 128;
      if body[i] < 0x80 {
        arcs := arcs + [value];
        value := 0;
      }
    }
    return Ints(arcs);
  }

  /** `bytes.slice(start, start + length)`, clamped to the bytes there are. */
  function SliceFrom(bytes: seq<byte>, start: Num, length: Num): seq<byte> {
    var end := Plus(start, length);
    if end.NaN? || start.value >= |bytes| then []
    else if end.value > |bytes| then bytes[start.value..]
    else bytes[start.value..end.value]
  }

  /** The parts of the OID, or None where the walk answers null. */
  function AlgorithmParts(bytes: seq<byte>): Option<seq<Num>> {
    var certificate := HeaderAt(bytes, Int(0));
    if certificate.tag != Int(0x30) then None
    else
      var tbs := HeaderAt(bytes, certificate.start);
      var algorithm := HeaderAt(bytes, Plus(tbs.start, tbs.length));
      if algorithm.tag != Int(0x30) then None
      else
        var oid := HeaderAt(bytes, algorithm.start);
        if oid.tag != Int(0x06) then None
        else Some(PartsOf(SliceFrom(bytes, oid.start, oid.length)))
  }

  function NumText(n: Num): string {
    if n.NaN? then "NaN" else ToNumeral(n.value, 10)
  }

  function NumTexts(parts: seq<Num>): seq<string> {
    seq(|parts|, i requires 0 <= i < |parts| => NumText(parts[i]))
  }

  /** `parts.join('.')` */
  function Dotted(parts: seq<Num>): string {
    Join(NumTexts(parts), ".")
  }

  method SignatureAlgorithmOid(der: seq<byte>) returns (oid: Option<string>)
    ensures oid == match AlgorithmParts(der) case None => None case Some(parts) => Some(Dotted(parts))
  {
    var reader := new Reader(der);
    var certificate := reader.ReadHeader();
    if certificate.tag != Int(0x30) {
      return None;
    }
    var tbs := reader.ReadHeader();
    reader.at := Plus(tbs.start, tbs.length);
    var algorithm := reader.ReadHeader();
    if algorithm.tag != Int(0x30) {
      return None;
    }
    var id := reader.ReadHeader();
    if id.tag != Int(0x06) {
      return None;
    }
    var parts := ReadArcs(SliceFrom(der, id.start, id.length));
    return Some(Dotted(parts));
  }

  // -------------------------------------------------------------- the encoder

  /** Base 128, most significant first, every byte but the last marked (section 8.19.2 of
      X.690). */
  function Base128(n: nat, marked: bool): (b: seq<byte>)
    ensures b != []
  {
    var low: byte := n % 128 + if marked then 0x80 else 0;
    if n < 128 then [low] else Base128(n / 128, true) + [low]
  }

  function EncodeArcs(arcs: seq<nat>): seq<byte> {
    if arcs == [] then [] else Base128(arcs[0], false) + EncodeArcs(arcs[1..])
  }

  /** The content of an OBJECT IDENTIFIER: the first two arcs share a subidentifier. */
  function EncodeOid(arcs: seq<nat>): seq<byte>
    requires |arcs| >= 2
  {
    Base128(40 * arcs[0] + arcs[1], false) + EncodeArcs(arcs[2..])
  }

  /** The first arc is 0, 1 or 2, and the second is below 40 under the first two
      (section 8.19.4 of X.690); every later arc is unbounded. */
  predicate ValidArcs(arcs: seq<nat>) {
    |arcs| >= 2 && arcs[0] <= 2 && (arcs[0] < 2 ==> arcs[1] < 40)
  }

  /** One turn of the loop. */
  lemma OneByte(body: seq<byte>, i: nat, value: nat)
    requires i < |body|
    ensures var v := value * 128 + body[i] % 128;
            ArcsFrom(body, i, value) ==
            if body[i] < 0x80 then [v] + ArcsFrom(body, i + 1, 0) else ArcsFrom(body, i + 1, v)
  {
  }

  lemma {:induction false} ReadsBase128(body: seq<byte>, before: seq<byte>, n: nat, marked: bool, rest: seq<byte>)
    requires body == before + Base128(n, marked) + rest
    ensures var next := |before| + |Base128(n, marked)|;
            ArcsFrom(body, |before|, 0) ==
            if marked then ArcsFrom(body, next, n) else [n] + ArcsFrom(body, next, 0)
    decreases n
  {
    hide ArcsFrom;
    var b := Base128(n, marked);
    var last := |before| + |b| - 1;
    assert body[last] == b[|b| - 1];
    OneByte(body, last, n / 128);
    if n >= 128 {
      var front := Base128(n / 128, true);
      assert b[|front|..] + rest == [b[|front|]] + rest;
      ReadsBase128(body, before, n / 128, true, b[|front|..] + rest);
    }
  }

  lemma {:induction false} ReadsArcs(body: seq<byte>, before: seq<byte>, arcs: seq<nat>)
    requires body == before + EncodeArcs(arcs)
    ensures ArcsFrom(body, |before|, 0) == arcs
    decreases |arcs|
  {
    if arcs != [] {
      var b, rest := Base128(arcs[0], false), EncodeArcs(arcs[1..]);
      hide ArcsFrom, Base128, EncodeArcs;
      ReadsBase128(body, before, arcs[0], false, rest);
      ReadsArcs(body, before + b, arcs[1..]);
    }
  }

  lemma {:induction false} FirstByteOfLong(n: nat)
    requires n >= 128
    ensures Base128(n, false)[0] >= 0x81 && Base128(n, true)[0] >= 0x81
  {
    if n / 128 >= 128 {
      FirstByteOfLong(n / 128);
    }
  }

  /** The base-128 loop inverts the encoder for every list of arcs, of any size, exactly
      when the second arc is below 40. The code takes the first byte apart on its own, so
      a subidentifier 2.40 or above comes out with a first arc of 3 to 6. */
  lemma PartsInvertEncoding(arcs: seq<nat>)
    requires ValidArcs(arcs)
    ensures PartsOf(EncodeOid(arcs)) == Ints(arcs) <==> arcs[1] < 40
    ensures arcs[1] >= 40 ==> 3 <= PartsOf(EncodeOid(arcs))[0].value <= 6 && PartsOf(EncodeOid(arcs))[0].Int?
  {
    var first := 40 * arcs[0] + arcs[1];
    var body := EncodeOid(arcs);
    if arcs[1] < 40 {
      assert Base128(first, false) == [first];
      assert body == [first] + EncodeArcs(arcs[2..]);
      ReadsArcs(body, [first], arcs[2..]);
      assert [body[0] / 40, body[0] % 40] + arcs[2..] == arcs;
    } else {
      assert arcs[0] == 2 && body[0] == Base128(first, false)[0];
      if first >= 128 {
        FirstByteOfLong(first);
      }
      assert body[0] / 40 >= 3;
      assert Ints(arcs)[0] == Int(2);
    }
  }

  /** The mechanism the Kerberos pre-flight asks for is 1.2.840.113554.1.2.2, encoded. */
  lemma MechanismIsKerberos()
    ensures KRB5_MECH_OID == [0x06, 0x09] + EncodeOid([1, 2, 840, 113554, 1, 2, 2])
  {
    LongArcs();
    hide Base128, EncodeArcs;
    var arcs: seq<nat> := [1, 2, 840, 113554, 1, 2, 2];
    var none: seq<nat> := [];
    EncodesEach(arcs, 2);
    EncodesEach(arcs, 3);
    EncodesEach(arcs, 4);
    EncodesEach(arcs, 5);
    EncodesEach(arcs, 6);
    assert arcs[7..] == none;
    assert EncodeArcs(arcs[4..]) == [0x01, 0x02, 0x02];
    assert EncodeArcs(arcs[2..]) == [0x86, 0x48] + [0x86, 0xf7, 0x12] + [0x01, 0x02, 0x02];
  }

  lemma LongArcs()
    ensures Base128(840, false) == [0x86, 0x48] && Base128(113554, false) == [0x86, 0xf7, 0x12]
    ensures Base128(42, false) == [0x2a] && Base128(1, false) == [0x01] && Base128(2, false) == [0x02]
    ensures EncodeArcs([]) == []
  {
    assert Base128(113554 / 128, true) == [0x86, 0xf7];
  }

  lemma EncodesEach(arcs: seq<nat>, k: nat)
    requires k < |arcs|
    ensures EncodeArcs(arcs[k..]) == Base128(arcs[k], false) + EncodeArcs(arcs[k + 1..])
  {
    hide Base128;
    assert arcs[k..][1..] == arcs[k + 1..];
  }

  // ------------------------------------------------------------ a certificate

  /** Any length field, of up to 127 length bytes. One of none, the byte 80, is read as 0;
      section 8.1.3.6 of X.690 gives it another meaning. */
  predicate AnyLength(field: seq<byte>, n: nat) {
    || (|field| == 1 && field[0] < 0x80 && n == field[0])
    || (1 <= |field| <= 128 && field[0] == 0x80 + |field| - 1 && n == Value(field[1..]))
  }

  /** The tags of the four headers the walk reads. */
  datatype Tags = Tags(certificate: byte, tbs: byte, algorithm: byte, oid: byte)

  /** All but the second are looked at. */
  predicate Expected(tags: Tags) {
    tags.certificate == 0x30 && tags.algorithm == 0x30 && tags.oid == 0x06
  }

  lemma ReadsHeader(before: seq<byte>, tag: byte, field: seq<byte>, n: nat, rest: seq<byte>)
    requires AnyLength(field, n)
    ensures HeaderAt(before + ([tag] + field + rest), Int(|before|)) ==
            Header(Int(tag), Int(n), Int(|before| + 1 + |field|))
  {
    var bytes := before + ([tag] + field + rest);
    assert bytes[|before|] == tag && bytes[|before| + 1] == field[0];
    if |field| > 1 {
      assert bytes[|before| + 2..|before| + 1 + |field|] == field[1..];
    }
  }

  lemma Regroup<T>(a: seq<T>, b: seq<T>, c: seq<T>)
    ensures a + b + c == a + (b + c)
  {
  }

  lemma SliceIs(before: seq<byte>, oid: seq<byte>, rest: seq<byte>)
    ensures SliceFrom(before + (oid + rest), Int(|before|), Int(|oid|)) == oid
  {
  }

  /** A certificate's bytes as section 4.1 of RFC 5280 lays them out, as far as the walk
      looks: an element of any tbsCertificate, then an element that starts with an OID. The
      lengths of the two outer elements are never used, and anything may follow the OID. */
  function Certificate(tags: Tags, f0: seq<byte>, f1: seq<byte>, tbs: seq<byte>,
                       f2: seq<byte>, f3: seq<byte>, oid: seq<byte>, rest: seq<byte>): seq<byte> {
    [tags.certificate] + f0 + ([tags.tbs] + f1 + (tbs + Algorithm(tags, f2, f3, oid, rest)))
  }

  function Algorithm(tags: Tags, f2: seq<byte>, f3: seq<byte>, oid: seq<byte>, rest: seq<byte>): seq<byte> {
    [tags.algorithm] + f2 + ([tags.oid] + f3 + (oid + rest))
  }

  /** The last two headers of the walk and what they lead to. */
  lemma ReadsAlgorithm(before: seq<byte>, tags: Tags, f2: seq<byte>, n2: nat,
                       f3: seq<byte>, oid: seq<byte>, rest: seq<byte>)
    requires AnyLength(f2, n2) && AnyLength(f3, |oid|)
    ensures var bytes, at := before + Algorithm(tags, f2, f3, oid, rest), |before| + 1 + |f2|;
            && HeaderAt(bytes, Int(|before|)) == Header(Int(tags.algorithm), Int(n2), Int(at))
            && HeaderAt(bytes, Int(at)) == Header(Int(tags.oid), Int(|oid|), Int(at + 1 + |f3|))
            && SliceFrom(bytes, Int(at + 1 + |f3|), Int(|oid|)) == oid
  {
    hide HeaderAt, AnyLength, SliceFrom;
    var h2, h3 := [tags.algorithm] + f2, [tags.oid] + f3;
    var inner := h3 + (oid + rest);
    var b3, b4 := before + h2, before + h2 + h3;
    ReadsHeader(before, tags.algorithm, f2, n2, inner);
    Regroup(before, h2, inner);
    ReadsHeader(b3, tags.oid, f3, |oid|, oid + rest);
    Regroup(b3, h3, oid + rest);
    SliceIs(b4, oid, rest);
  }

  /** The first two headers, and where the second says the algorithm starts. */
  lemma ReadsOuter(tags: Tags, f0: seq<byte>, n0: nat, f1: seq<byte>, tbs: seq<byte>, algorithm: seq<byte>)
    requires AnyLength(f0, n0) && AnyLength(f1, |tbs|)
    ensures var bytes := [tags.certificate] + f0 + ([tags.tbs] + f1 + (tbs + algorithm));
            var before := [tags.certificate] + f0 + ([tags.tbs] + f1) + tbs;
            && HeaderAt(bytes, Int(0)) == Header(Int(tags.certificate), Int(n0), Int(1 + |f0|))
            && HeaderAt(bytes, Int(1 + |f0|)) == Header(Int(tags.tbs), Int(|tbs|), Int(2 + |f0| + |f1|))
            && bytes == before + algorithm && |before| == 2 + |f0| + |f1| + |tbs|
  {
    hide HeaderAt, AnyLength;
    var r1, b1 := [tags.tbs] + f1 + (tbs + algorithm), [tags.certificate] + f0;
    assert [] + (b1 + r1) == b1 + r1;
    ReadsHeader([], tags.certificate, f0, n0, r1);
    ReadsHeader(b1, tags.tbs, f1, |tbs|, tbs + algorithm);
    Regroup(b1, [tags.tbs] + f1, tbs + algorithm);
    Regroup(b1 + ([tags.tbs] + f1), tbs, algorithm);
  }

  /** For every certificate-shaped value, whatever its tbsCertificate holds, whatever
      follows the OID and whatever the outer lengths say, the walk finds the outer
      algorithm's OID, or answers null if one of the three tags it looks at is another. */
  lemma FindsAlgorithm(tags: Tags, f0: seq<byte>, n0: nat, f1: seq<byte>, tbs: seq<byte>,
                       f2: seq<byte>, n2: nat, f3: seq<byte>, oid: seq<byte>, rest: seq<byte>)
    requires AnyLength(f0, n0) && AnyLength(f1, |tbs|) && AnyLength(f2, n2) && AnyLength(f3, |oid|)
    ensures AlgorithmParts(Certificate(tags, f0, f1, tbs, f2, f3, oid, rest)) ==
            if Expected(tags) then Some(PartsOf(oid)) else None
  {
    hide HeaderAt, AnyLength, PartsOf, SliceFrom, Algorithm;
    ReadsOuter(tags, f0, n0, f1, tbs, Algorithm(tags, f2, f3, oid, rest));
    ReadsAlgorithm([tags.certificate] + f0 + ([tags.tbs] + f1) + tbs, tags, f2, n2, f3, oid, rest);
  }

  /** From bytes to text: what is reported for a certificate is the dotted form of its outer
      algorithm's OID if and only if the second arc of that is below 40. */
  lemma ReportsAlgorithm(tags: Tags, f0: seq<byte>, n0: nat, f1: seq<byte>, tbs: seq<byte>,
                         f2: seq<byte>, n2: nat, f3: seq<byte>, arcs: seq<nat>, rest: seq<byte>)
    requires Expected(tags) && ValidArcs(arcs)
    requires AnyLength(f0, n0) && AnyLength(f1, |tbs|) && AnyLength(f2, n2) && AnyLength(f3, |EncodeOid(arcs)|)
    ensures var parts := AlgorithmParts(Certificate(tags, f0, f1, tbs, f2, f3, EncodeOid(arcs), rest));
            parts.Some? && (Dotted(parts.value) == Dotted(Ints(arcs)) <==> arcs[1] < 40)
  {
    hide AlgorithmParts, Certificate, AnyLength, PartsOf, EncodeOid, Dotted;
    FindsAlgorithm(tags, f0, n0, f1, tbs, f2, n2, f3, EncodeOid(arcs), rest);
    ReportsDottedOid(arcs);
  }

  lemma FirstCharOfJoin(parts: seq<string>)
    requires parts != [] && parts[0] != ""
    ensures Join(parts, ".") != "" && Join(parts, ".")[0] == parts[0][0]
  {
    if |parts| > 1 {
      assert Join(parts, ".") == parts[0] + "." + Join(parts[1..], ".");
    }
  }

  lemma DottedStart(parts: seq<Num>)
    requires parts != [] && parts[0].Int? && parts[0].value < 10
    ensures Dotted(parts) != "" && DigitOf(Dotted(parts)[0]) == parts[0].value
  {
    hide Join;
    var texts := NumTexts(parts);
    FirstCharOfJoin(texts);
    assert texts[0] == [DigitChar(parts[0].value)];
  }

  /** The text reported is the OID's dotted form exactly when its second arc is below 40. */
  lemma ReportsDottedOid(arcs: seq<nat>)
    requires ValidArcs(arcs)
    ensures Dotted(PartsOf(EncodeOid(arcs))) == Dotted(Ints(arcs)) <==> arcs[1] < 40
  {
    PartsInvertEncoding(arcs);
    hide Dotted, EncodeOid, PartsOf;
    if arcs[1] >= 40 {
      DottedStart(PartsOf(EncodeOid(arcs)));
      DottedStart(Ints(arcs));
    }
  }

  /** An OID element of no content is not refused: it is reported as "NaN.NaN". */
  lemma EmptyOidReported()
    ensures Dotted(PartsOf([])) == "NaN.NaN"
  {
    var texts := NumTexts([NaN, NaN]);
    assert texts == ["NaN", "NaN"];
    assert texts[1..] == ["NaN"];
  }
}
