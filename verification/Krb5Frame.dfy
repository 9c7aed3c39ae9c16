/** api/krb5_frame.js: the pre-flight on what is relayed, and TCP framing. */
module Krb5Frame {
  import opened Bytes

  const MAX_REQUEST_BYTES := 65536
  const MIN_MESSAGE_BYTES := 2
  const AS_REQ: byte := 0x6a
  const TGS_REQ: byte := 0x6c
  const AP_REQ: byte := 0x6e
  const GSS: byte := 0x60
  const KRB5_MECH_OID: seq<byte> := [0x06, 0x09, 0x2a, 0x86, 0x48, 0x86, 0xf7, 0x12, 0x01, 0x02, 0x02]
  const AP_REQ_TOKEN_ID: seq<byte> := [0x01, 0x00]

  datatype FrameError =
    | NoMessage | NotARequest | TooLong
    | TooShort | IndefiniteLength | LengthFieldTooLong | LengthFieldTruncated
    | LengthMismatch
    | TokenTooShort | NotKerberosMechanism | NotApReqToken | NotWrappedApReq
    | ReservedBit | EmptyReply | AnnouncedTooBig

  // ------------------------------------------------------------- DER elements

  datatype Tlv = Tlv(tag: byte, length: nat, headerLength: nat, totalLength: nat)

  /** The outermost tag and length: what `ReadOuterTlv` computes with its loop. */
  function OuterTlv(bytes: seq<byte>): Result<Tlv, FrameError> {
    if |bytes| < MIN_MESSAGE_BYTES then Err(TooShort)
    else if bytes[1] < 0x80 then Ok(Tlv(bytes[0], bytes[1], 2, 2 + bytes[1]))
    else if bytes[1] == 0x80 then Err(IndefiniteLength)
    else
      var count := bytes[1] - 0x80;
      if count > 4 then Err(LengthFieldTooLong)
      else if |bytes| < 2 + count then Err(LengthFieldTruncated)
      else
        var length := Value(bytes[2..2 + count]);
        Ok(Tlv(bytes[0], length, 2 + count, 2 + count + length))
  }

  method ReadOuterTlv(bytes: seq<byte>) returns (r: Result<Tlv, FrameError>)
    ensures r == OuterTlv(bytes)
  {
    if |bytes| < MIN_MESSAGE_BYTES {
      return Err(TooShort);
    }
    var tag, lengthByte := bytes[0], bytes[1];
    var length: nat, headerLength: nat;
    if lengthByte < 0x80 {
      length, headerLength := lengthByte, 2;
    } else if lengthByte == 0x80 {
      return Err(IndefiniteLength);
    } else {
      var count := lengthByte - 0x80;
      if count > 4 {
        return Err(LengthFieldTooLong);
      }
      if |bytes| < 2 + count {
        return Err(LengthFieldTruncated);
      }
      length := 0;
      for i := 0 to count
        invariant length == Value(bytes[2..2 + i])
      {
        assert bytes[2..2 + i + 1][..i] == bytes[2..2 + i];
        length := length * 256 + bytes[2 + i];
      }
      headerLength := 2 + count;
    }
    return Ok(Tlv(tag, length, headerLength, headerLength + length));
  }

  /** A definite length of at most four bytes, as the octets between tag and content. */
  predicate LengthField(field: seq<byte>, n: nat) {
    || (|field| == 1 && field[0] < 0x80 && n == field[0])
    || (2 <= |field| <= 5 && field[0] == 0x80 + |field| - 1 && n == Value(field[1..]))
  }

  /** `whole` is one element of tag `tag` with nothing before or after it. */
  ghost predicate IsElement(tag: byte, whole: seq<byte>) {
    exists field, content :: LengthField(field, |content|) && whole == [tag] + field + content
  }

  /** A header is accepted exactly when a length field follows the tag, and it then
      announces exactly what the field spells. */
  lemma OuterTlvReads(tag: byte, field: seq<byte>, n: nat, rest: seq<byte>)
    requires LengthField(field, n)
    ensures OuterTlv([tag] + field + rest) == Ok(Tlv(tag, n, 1 + |field|, 1 + |field| + n))
  {
    var whole := [tag] + field + rest;
    assert whole[1] == field[0];
    if |field| > 1 {
      assert whole[2..1 + |field|] == field[1..];
    }
  }

  /** Why a header is not read: it is cut short, its length is indefinite, or its length
      field has more than four bytes. */
  lemma HeaderRefusals(bytes: seq<byte>)
    ensures OuterTlv(bytes) == Err(TooShort) <==> |bytes| < 2
    ensures OuterTlv(bytes) == Err(IndefiniteLength) <==> |bytes| >= 2 && bytes[1] == 0x80
    ensures OuterTlv(bytes) == Err(LengthFieldTooLong) <==> |bytes| >= 2 && bytes[1] > 0x84
    ensures OuterTlv(bytes) == Err(LengthFieldTruncated) <==>
            2 <= |bytes| < 2 + bytes[1] as int - 0x80 && bytes[1] <= 0x84
    ensures OuterTlv(bytes).Ok? <==> exists field, n, rest ::
              LengthField(field, n) && |bytes| >= 2 && bytes == [bytes[0]] + field + rest
  {
    if OuterTlv(bytes).Ok? {
      var field := OuterTlvSplits(bytes);
    }
    forall field, n, rest | LengthField(field, n) && |bytes| >= 2 && bytes == [bytes[0]] + field + rest
      ensures OuterTlv(bytes).Ok?
    {
      OuterTlvReads(bytes[0], field, n, rest);
    }
  }

  lemma OuterTlvSplits(bytes: seq<byte>) returns (field: seq<byte>)
    requires OuterTlv(bytes).Ok?
    ensures LengthField(field, OuterTlv(bytes).value.length)
    ensures |field| + 1 == OuterTlv(bytes).value.headerLength <= |bytes|
    ensures bytes == [bytes[0]] + field + bytes[1 + |field|..]
  {
    var h := OuterTlv(bytes).value.headerLength;
    field := bytes[1..h];
    if h > 2 {
      assert field[1..] == bytes[2..h];
    }
  }

  /** An element filling its input is recognised by its announced total alone. */
  lemma FillsInput(bytes: seq<byte>)
    ensures (exists tag: byte :: IsElement(tag, bytes)) <==>
            OuterTlv(bytes).Ok? && OuterTlv(bytes).value.totalLength == |bytes|
    ensures OuterTlv(bytes).Ok? && OuterTlv(bytes).value.totalLength == |bytes| ==> IsElement(bytes[0], bytes)
  {
    forall tag: byte | IsElement(tag, bytes)
      ensures OuterTlv(bytes).Ok? && OuterTlv(bytes).value.totalLength == |bytes| && tag == bytes[0]
    {
      var field, content :| LengthField(field, |content|) && bytes == [tag] + field + content;
      OuterTlvReads(tag, field, |content|, content);
    }
    if OuterTlv(bytes).Ok? && OuterTlv(bytes).value.totalLength == |bytes| {
      var field := OuterTlvSplits(bytes);
      assert LengthField(field, |bytes[1 + |field|..]|);
      assert IsElement(bytes[0], bytes);
    }
  }

  /** Under its first byte, that is. */
  lemma FillsFirst(bytes: seq<byte>)
    requires bytes != []
    ensures IsElement(bytes[0], bytes) <==> OuterTlv(bytes).Ok? && OuterTlv(bytes).value.totalLength == |bytes|
  {
    hide IsElement, OuterTlv;
    FillsInput(bytes);
  }

  // ------------------------------------------------------------ the pre-flight

  function AssertSizeAndLength(bytes: seq<byte>): Result<Tlv, FrameError> {
    if |bytes| > MAX_REQUEST_BYTES then Err(TooLong)
    else
      var outer := OuterTlv(bytes);
      if outer.Ok? && outer.value.totalLength != |bytes| then Err(LengthMismatch) else outer
  }

  /** The pre-flight for the KDC endpoint; the answer is the tag of the request. */
  function AssertKerberosRequest(bytes: seq<byte>): Result<byte, FrameError> {
    if bytes == [] then Err(NoMessage)
    else if bytes[0] != AS_REQ && bytes[0] != TGS_REQ then Err(NotARequest)
    else match AssertSizeAndLength(bytes)
      case Err(e) => Err(e)
      case Ok(_) => Ok(bytes[0])
  }

  /** The pre-flight for the service endpoint. */
  function AssertServiceRequest(bytes: seq<byte>): Result<byte, FrameError> {
    if bytes == [] then Err(NoMessage)
    else if bytes[0] != AP_REQ && bytes[0] != GSS then Err(NotARequest)
    else match AssertSizeAndLength(bytes)
      case Err(e) => Err(e)
      case Ok(outer) =>
        if bytes[0] == AP_REQ then Ok(bytes[0])
        else match AssertToken(bytes[outer.headerLength..])
          case Err(e) => Err(e)
          case Ok(_) => Ok(bytes[0])
  }

  /** The content of a GSS token: mechanism, token id, and one AP-REQ filling the rest. */
  function AssertToken(value: seq<byte>): Result<(), FrameError> {
    var n := |KRB5_MECH_OID|;
    if |value| < n + 2 then Err(TokenTooShort)
    else if value[..n] != KRB5_MECH_OID then Err(NotKerberosMechanism)
    else
      var rest := value[n..];
      if rest[0] != 0x01 || rest[1] != 0x00 then Err(NotApReqToken)
      else
        var inner := rest[2..];
        if inner == [] || inner[0] != AP_REQ then Err(NotWrappedApReq)
        else match OuterTlv(inner)
          case Err(e) => Err(e)
          case Ok(tlv) => if tlv.totalLength != |inner| then Err(LengthMismatch) else Ok(())
  }

  /** What RFC 2743 and RFC 4121 allow a service to be sent: a bare AP-REQ, or a token
      naming the Kerberos mechanism and wrapping one, with every byte accounted for. */
  ghost predicate ServiceShape(bytes: seq<byte>) {
    && |bytes| <= 65536
    && (IsElement(0x6e, bytes) || WrapsApReq(bytes))
  }

  ghost predicate WrapsApReq(bytes: seq<byte>) {
    exists field, inner ::
      && IsElement(0x6e, inner)
      && LengthField(field, |KRB5_MECH_OID + [0x01, 0x00] + inner|)
      && bytes == [0x60] + field + (KRB5_MECH_OID + [0x01, 0x00] + inner)
  }

  lemma TokenShape(value: seq<byte>)
    ensures AssertToken(value).Ok? <==>
            exists inner :: IsElement(AP_REQ, inner) && value == KRB5_MECH_OID + AP_REQ_TOKEN_ID + inner
  {
    var n := |KRB5_MECH_OID|;
    if AssertToken(value).Ok? {
      var inner := value[n + 2..];
      assert value[n..][2..] == inner && value[n..][0] == value[n] && value[n..][1] == value[n + 1];
      FillsInput(inner);
      assert value == value[..n] + [value[n], value[n + 1]] + inner;
    }
    forall inner | IsElement(AP_REQ, inner) && value == KRB5_MECH_OID + AP_REQ_TOKEN_ID + inner
      ensures AssertToken(value).Ok?
    {
      FillsInput(inner);
      assert value[..n] == KRB5_MECH_OID && value[n..] == AP_REQ_TOKEN_ID + inner;
      assert value[n..][2..] == inner;
    }
  }

  /** Why a token is refused: the first of its three parts that is wrong is the one named. */
  lemma TokenRefusals(mechanism: seq<byte>, id: seq<byte>, inner: seq<byte>)
    requires |mechanism| == |KRB5_MECH_OID| && |id| == 2
    ensures AssertToken(mechanism + id + inner) ==
            if mechanism != KRB5_MECH_OID then Err(NotKerberosMechanism)
            else if id != AP_REQ_TOKEN_ID then Err(NotApReqToken)
            else if inner == [] || inner[0] != AP_REQ then Err(NotWrappedApReq)
            else if OuterTlv(inner).Err? then Err(OuterTlv(inner).error)
            else if IsElement(AP_REQ, inner) then Ok(()) else Err(LengthMismatch)
  {
    var value, n := mechanism + id + inner, |KRB5_MECH_OID|;
    assert value[..n] == mechanism && value[n..] == id + inner;
    assert value[n..][2..] == inner && value[n..][0] == id[0] && value[n..][1] == id[1];
    assert id == [id[0], id[1]];
    FillsInput(inner);
  }

  lemma AcceptedIsShaped(bytes: seq<byte>)
    requires AssertServiceRequest(bytes).Ok?
    ensures ServiceShape(bytes)
  {
    hide AssertToken;
    FillsInput(bytes);
    if bytes[0] == GSS {
      var field := OuterTlvSplits(bytes);
      var value := bytes[1 + |field|..];
      TokenShape(value);
      var inner :| IsElement(AP_REQ, inner) && value == KRB5_MECH_OID + AP_REQ_TOKEN_ID + inner;
      assert WrapsApReq(bytes);
    }
  }

  /** A token is judged by its content. */
  lemma TokenIsJudged(field: seq<byte>, value: seq<byte>)
    requires LengthField(field, |value|) && |[GSS] + field + value| <= MAX_REQUEST_BYTES
    ensures AssertServiceRequest([GSS] + field + value).Ok? <==> AssertToken(value).Ok?
  {
    hide AssertToken, OuterTlv, LengthField;
    var bytes := [GSS] + field + value;
    OuterTlvReads(GSS, field, |value|, value);
    assert bytes[1 + |field|..] == value;
  }

  lemma ShapedIsAccepted(bytes: seq<byte>)
    requires ServiceShape(bytes)
    ensures AssertServiceRequest(bytes).Ok?
  {
    if IsElement(AP_REQ, bytes) {
      hide IsElement, OuterTlv, AssertToken;
      FillsInput(bytes);
      BareIsAccepted(bytes);
    } else {
      hide IsElement, LengthField, AssertServiceRequest, AssertToken;
      var field, inner :|
        && IsElement(AP_REQ, inner)
        && LengthField(field, |KRB5_MECH_OID + AP_REQ_TOKEN_ID + inner|)
        && bytes == [GSS] + field + (KRB5_MECH_OID + AP_REQ_TOKEN_ID + inner);
      var value := KRB5_MECH_OID + AP_REQ_TOKEN_ID + inner;
      TokenShape(value);
      TokenIsJudged(field, value);
    }
  }

  lemma BareIsAccepted(bytes: seq<byte>)
    requires IsElement(AP_REQ, bytes) && |bytes| <= MAX_REQUEST_BYTES
    requires OuterTlv(bytes).Ok? && OuterTlv(bytes).value.totalLength == |bytes|
    ensures AssertServiceRequest(bytes).Ok?
  {
    hide OuterTlv, AssertToken;
  }

  /** The service pre-flight accepts exactly the payloads of that shape. */
  lemma ServiceAcceptsExactly(bytes: seq<byte>)
    ensures AssertServiceRequest(bytes).Ok? <==> ServiceShape(bytes)
  {
    if AssertServiceRequest(bytes).Ok? { AcceptedIsShaped(bytes); }
    if ServiceShape(bytes) { ShapedIsAccepted(bytes); }
  }

  /** The KDC pre-flight accepts exactly one whole AS-REQ or TGS-REQ, and no payload
      passes both pre-flights. */
  lemma KdcAcceptsExactly(bytes: seq<byte>)
    ensures AssertKerberosRequest(bytes).Ok? <==>
            |bytes| <= 65536 && (IsElement(0x6a, bytes) || IsElement(0x6c, bytes))
    ensures !(AssertKerberosRequest(bytes).Ok? && AssertServiceRequest(bytes).Ok?)
  {
    FillsInput(bytes);
  }

  /** Which refusal either pre-flight gives, and that acceptance names the first byte. A
      token refused for its content is refused as TokenRefusals says. */
  lemma RequestRefusals(bytes: seq<byte>, service: bool)
    ensures var r := if service then AssertServiceRequest(bytes) else AssertKerberosRequest(bytes);
            var tags: set<byte> := if service then {0x60, 0x6e} else {0x6a, 0x6c};
            if bytes == [] then r == Err(NoMessage)
            else if bytes[0] !in tags then r == Err(NotARequest)
            else if |bytes| > 65536 then r == Err(TooLong)
            else if OuterTlv(bytes).Err? then r == Err(OuterTlv(bytes).error)
            else if !IsElement(bytes[0], bytes) then r == Err(LengthMismatch)
            else if bytes[0] != 0x60 then r == Ok(bytes[0])
            else
              var token := AssertToken(bytes[OuterTlv(bytes).value.headerLength..]);
              r == if token.Ok? then Ok(bytes[0]) else Err(token.error)
  {
    hide AssertToken, OuterTlv, IsElement;
    if bytes != [] { FillsFirst(bytes); }
  }

  /** Fewer bytes than the mechanism and the token id take are refused as such. */
  lemma ShortToken(value: seq<byte>)
    ensures AssertToken(value) == Err(TokenTooShort) ==> |value| < 13
    ensures |value| < 13 ==> AssertToken(value) == Err(TokenTooShort)
  {
    if |value| >= 13 {
      assert value == value[..11] + value[11..13] + value[13..];
      TokenRefusals(value[..11], value[11..13], value[13..]);
    }
  }

  // --------------------------------------------------------------- TCP framing

  /** RFC 4120 section 7.2.2: a four-byte length, then the message. */
  function Framed(bytes: seq<byte>): seq<byte>
    requires |bytes| < Pow(256, 4)
  {
    Spell(|bytes|, 4) + bytes
  }

  method FrameForTcp(bytes: seq<byte>) returns (out: array<byte>)
    requires |bytes| < 0x1_0000_0000
    ensures fresh(out) && |bytes| < Pow(256, 4) && out[..] == Framed(bytes)
  {
    Pow256To4();
    var n := |bytes|;
    var prefix: seq<byte> := [n / 0x100_0000, n / 0x1_0000 % 256, n / 0x100 % 256, n % 256];
    PrefixSpells(n, prefix);
    out := new byte[4 + n](_ => 0);
    forall i | 0 <= i < 4 {
      out[i] := prefix[i];
    }
    forall i | 0 <= i < n {
      out[4 + i] := bytes[i];
    }
    assert out[..] == prefix + bytes;
  }

  lemma PrefixSpells(n: nat, prefix: seq<byte>)
    requires n < Pow(256, 4) == 0x1_0000_0000
    requires prefix == [n / 0x100_0000, n / 0x1_0000 % 256, n / 0x100 % 256, n % 256]
    ensures prefix == Spell(n, 4)
  {
    hide Pow, Value, Spell;
    ValueOfFour(prefix);
    BytesOf(n, n / 0x100, n / 0x1_0000, n / 0x100_0000);
    ValueInjective(prefix, Spell(n, 4));
  }

  /** Each quotient is the one before it divided by 256. */
  lemma BytesOf(n: nat, a: nat, b: nat, c: nat)
    requires a == n / 0x100 && b == n / 0x1_0000 && c == n / 0x100_0000
    ensures n == ((c * 256 + b % 256) * 256 + a % 256) * 256 + n % 256
  {
    assert b == a / 256;
    assert c == b / 256;
  }

  lemma Pow256To4()
    ensures Pow(256, 4) == 0x1_0000_0000
  {
    assert Pow(256, 1) == 256;
    assert Pow(256, 2) == 0x1_0000;
    assert Pow(256, 3) == 0x100_0000;
  }

  lemma ValueOfFour(b: seq<byte>)
    requires |b| == 4
    ensures Value(b) == (((b[0] as int) * 256 + b[1]) * 256 + b[2]) * 256 + b[3]
  {
    assert b[..3][..2] == b[..2] && b[..2][..1] == b[..1] && b[..1][..0] == [];
    assert Value(b[..1]) == b[0];
    assert Value(b[..2]) == (b[0] as int) * 256 + b[1];
    assert Value(b[..3]) == ((b[0] as int) * 256 + b[1]) * 256 + b[2];
  }

  datatype Frame = Incomplete(need: nat) | Complete(message: seq<byte>, consumed: nat)

  /** Read one framed reply off the front of what has arrived so far. */
  function ReadTcpFrame(buffer: seq<byte>, maxBytes: nat): Result<Frame, FrameError> {
    if |buffer| < 4 then Ok(Incomplete(4 - |buffer|))
    else
      var declared := Value(buffer[..4]);
      if declared >= 0x8000_0000 then Err(ReservedBit)
      else if declared < MIN_MESSAGE_BYTES then Err(EmptyReply)
      else if declared > maxBytes then Err(AnnouncedTooBig)
      else if |buffer| < 4 + declared then Ok(Incomplete(4 + declared - |buffer|))
      else Ok(Complete(buffer[4..4 + declared], 4 + declared))
  }

  predicate Decided(read: Result<Frame, FrameError>) {
    read.Ok? ==> read.value.Complete?
  }

  /** A verdict, once reached, is the verdict on every longer buffer too. */
  lemma FrameStable(buffer: seq<byte>, more: seq<byte>, maxBytes: nat)
    requires Decided(ReadTcpFrame(buffer, maxBytes))
    ensures ReadTcpFrame(buffer + more, maxBytes) == ReadTcpFrame(buffer, maxBytes)
  {
    assert (buffer + more)[..4] == buffer[..4];
    if ReadTcpFrame(buffer, maxBytes).Ok? {
      var n := Value(buffer[..4]);
      assert (buffer + more)[4..4 + n] == buffer[4..4 + n];
    }
  }

  /** An undecided buffer says exactly how many more bytes the length prefix, or then
      the message, still needs: one byte short of that it is still undecided. */
  lemma NeedIsExact(buffer: seq<byte>, more: seq<byte>, maxBytes: nat)
    requires !Decided(ReadTcpFrame(buffer, maxBytes))
    ensures |more| < ReadTcpFrame(buffer, maxBytes).value.need ==>
            ReadTcpFrame(buffer + more, maxBytes) ==
            Ok(Incomplete(ReadTcpFrame(buffer, maxBytes).value.need - |more|))
    ensures |buffer| >= 4 && |more| >= ReadTcpFrame(buffer, maxBytes).value.need ==>
            Decided(ReadTcpFrame(buffer + more, maxBytes))
  {
    if |buffer| >= 4 {
      assert (buffer + more)[..4] == buffer[..4];
    }
  }

  /** Reading undoes framing, whatever follows, for exactly the messages this relay
      honours; any other is refused for its length before its bytes are read. */
  lemma FrameRoundTrip(message: seq<byte>, rest: seq<byte>, maxBytes: nat)
    requires |message| < Pow(256, 4)
    ensures ReadTcpFrame(Framed(message) + rest, maxBytes) ==
            if |message| >= 0x8000_0000 then Err(ReservedBit)
            else if |message| < 2 then Err(EmptyReply)
            else if |message| > maxBytes then Err(AnnouncedTooBig)
            else Ok(Complete(message, 4 + |message|))
  {
    var b := Framed(message) + rest;
    assert b[..4] == Spell(|message|, 4);
    assert b[4..4 + |message|] == message;
  }
}
