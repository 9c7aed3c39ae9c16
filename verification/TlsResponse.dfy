/** api/tls_probe.js: undoing chunked framing and reading a response off the wire. */
module TlsResponse {
  import opened Bytes
  import opened Text
  import opened TextCase

  const CRLF: seq<byte> := [13, 10]

  /** Bytes as the text `toString('latin1')` gives. */
  function Latin1(bytes: seq<byte>): string {
    seq(|bytes|, i requires 0 <= i < |bytes| => bytes[i] as char)
  }

  // ------------------------------------------------------------ chunked bodies

  /** How a walk over chunks ends. Backward is a negative size, which `parseInt` reads
      and the grammar of section 7.1 of RFC 9112 does not have. */
  datatype Status = Complete | Partial | Backward

  datatype Decoded = Decoded(body: seq<byte>, status: Status)

  /** The size a chunk line announces: everything before ';', trimmed, read in base 16. */
  function SizeOf(line: seq<byte>): Option<int> {
    ParseInt(Trim(Split(Latin1(line), ";")[0]), 16)
  }

  /** What one turn of the loop at `at` finds. */
  datatype Turn = Stop(status: Status) | CutShort(start: nat) | Take(start: nat, end: nat)

  function ChunkAt(buffer: seq<byte>, at: nat): (step: Turn)
    ensures step.CutShort? ==> at < step.start <= |buffer|
    ensures step.Take? ==> at < step.start < step.end <= |buffer|
  {
    var eol := Find(buffer, CRLF, at);
    if at >= |buffer| || eol == -1 then Stop(Partial)
    else
      var size := SizeOf(buffer[at..eol]);
      if size.None? then Stop(Partial)
      else if size.value == 0 then Stop(Complete)
      else if size.value < 0 then Stop(Backward)
      else if eol + 2 + size.value > |buffer| then CutShort(eol + 2)
      else Take(eol + 2, eol + 2 + size.value)
  }

  /** What a size line does, wherever it stands: text that is no number ends the walk as cut
      short, zero ends it, a negative number alone sends it backward. */
  lemma SizeDecides(before: seq<byte>, line: seq<byte>, rest: seq<byte>)
    requires Find(line + CRLF, CRLF, 0) == |line|
    ensures var step := ChunkAt(before + (line + CRLF + rest), |before|);
            && (SizeOf(line).None? ==> step == Stop(Partial))
            && (step == Stop(Complete) <==> SizeOf(line) == Some(0))
            && (step == Stop(Backward) <==> SizeOf(line).Some? && SizeOf(line).value < 0)
  {
    hide SizeOf, Find, ChunkAt, CRLF;
    LineStands(before, line, rest);
    TurnAtLine(before + (line + CRLF + rest), |before|, line);
  }

  lemma TurnAtLine(b: seq<byte>, at: nat, line: seq<byte>)
    requires at < |b| && Find(b, CRLF, at) == at + |line| && b[at..at + |line|] == line
    ensures var step := ChunkAt(b, at);
            && (SizeOf(line).None? ==> step == Stop(Partial))
            && (step == Stop(Complete) <==> SizeOf(line) == Some(0))
            && (step == Stop(Backward) <==> SizeOf(line).Some? && SizeOf(line).value < 0)
  {
    hide SizeOf, Find;
  }

  lemma LineStands(before: seq<byte>, line: seq<byte>, rest: seq<byte>)
    requires Find(line + CRLF, CRLF, 0) == |line|
    ensures var b := before + (line + CRLF + rest);
            |before| < |b| && Find(b, CRLF, |before|) == |before| + |line| && b[|before|..|before| + |line|] == line
  {
    hide Find;
    FindExtend(line + CRLF, rest, CRLF, 0);
    FindShift(before, line + CRLF + rest, CRLF, 0);
  }

  /** The walk of `decodeChunked` from position `at`. */
  function Decode(buffer: seq<byte>, at: nat): Decoded
    decreases |buffer| - at
  {
    match ChunkAt(buffer, at)
    case Stop(status) => Decoded([], status)
    case CutShort(start) => Decoded(buffer[start..], Partial)
    case Take(start, end) =>
      var rest := Decode(buffer, end + 2);
      Decoded(buffer[start..end] + rest.body, rest.status)
  }

  /** One turn of the walk. */
  lemma DecodeIs(buffer: seq<byte>, at: nat)
    ensures var step := ChunkAt(buffer, at);
            && (step.Stop? ==> Decode(buffer, at) == Decoded([], step.status))
            && (step.CutShort? ==> Decode(buffer, at) == Decoded(buffer[step.start..], Partial))
            && (step.Take? ==>
                  var rest := Decode(buffer, step.end + 2);
                  Decode(buffer, at) == Decoded(buffer[step.start..step.end] + rest.body, rest.status))
  {
  }

  lemma NothingAtEnd(s: seq<byte>, at: nat)
    requires at >= |s|
    ensures Decode(s, at) == Decoded([], Partial)
  {
  }

  // ------------------------------------- the loop, negative sizes and all

  /** `indexOf`, which takes a negative position from the end. */
  function LineEnd(buffer: seq<byte>, at: int): (eol: int)
    ensures eol == -1 || 0 <= eol <= |buffer| - 2
  {
    Find(buffer, CRLF, if at >= 0 then at else if at + |buffer| >= 0 then at + |buffer| else 0)
  }

  /** `toString('latin1', at, eol)`, which takes a negative position for the start. */
  function LineAt(buffer: seq<byte>, at: int, eol: nat): seq<byte>
    requires eol <= |buffer|
  {
    var from := if at < 0 then 0 else at;
    if from <= eol then buffer[from..eol] else []
  }

  /** `slice(start, end)`, which takes a negative end from the end. */
  function SliceTo(buffer: seq<byte>, start: nat, end: int): seq<byte>
    requires end <= |buffer|
  {
    var to := if end < 0 then end + |buffer| else end;
    if start <= to then buffer[start..to] else []
  }

  /** A position `k` before the end is that position, and one before the start the start;
      only the text of a line does not know it. */
  lemma PositionsFromEnd(buffer: seq<byte>, k: nat, start: nat, eol: nat)
    requires k > 0 && eol <= |buffer|
    ensures var from := if k <= |buffer| then |buffer| - k else 0;
            && LineEnd(buffer, 0 - k) == LineEnd(buffer, from)
            && (k <= |buffer| ==> SliceTo(buffer, start, 0 - k) == SliceTo(buffer, start, from))
            && (k > |buffer| ==> SliceTo(buffer, start, 0 - k) == [])
            && LineAt(buffer, 0 - k, eol) == buffer[..eol]
    ensures start <= eol ==>
              SliceTo(buffer, start, eol) == LineAt(buffer, start, eol) == buffer[start..eol]
    ensures start > eol ==> SliceTo(buffer, start, eol) == LineAt(buffer, start, eol) == []
  {
    hide Find;
  }

  /** What the loop gives from `at`, or None if it has not ended after so many turns. */
  function Walk(buffer: seq<byte>, at: int, turns: nat): Option<Decoded>
    decreases turns
  {
    if at >= |buffer| then Some(Decoded([], Partial))
    else
      var eol := LineEnd(buffer, at);
      if eol == -1 then Some(Decoded([], Partial))
      else
        var size := SizeOf(LineAt(buffer, at, eol));
        if size.None? then Some(Decoded([], Partial))
        else if size.value == 0 then Some(Decoded([], Complete))
        else
          var start := eol + 2;
          if start + size.value > |buffer| then Some(Decoded(buffer[start..], Partial))
          else if turns == 0 then None
          else
            match Walk(buffer, start + size.value + 2, turns - 1)
            case None => None
            case Some(rest) =>
              Some(Decoded(SliceTo(buffer, start, start + size.value) + rest.body, rest.status))
  }

  ghost predicate LoopEnds(buffer: seq<byte>) {
    exists turns: nat :: Walk(buffer, 0, turns).Some?
  }

  lemma {:induction false} WalkIsStable(buffer: seq<byte>, at: int, turns: nat, more: nat)
    requires turns <= more && Walk(buffer, at, turns).Some?
    ensures Walk(buffer, at, more) == Walk(buffer, at, turns)
    decreases turns
  {
    hide SizeOf, LineEnd, LineAt, SliceTo;
    if at < |buffer| && LineEnd(buffer, at) != -1 {
      var eol := LineEnd(buffer, at);
      var size := SizeOf(LineAt(buffer, at, eol));
      if size.Some? && size.value != 0 && eol + 2 + size.value <= |buffer| {
        WalkIsStable(buffer, eol + 2 + size.value + 2, turns - 1, more - 1);
      }
    }
  }

  /** One turn of the loop at a size that is not negative. */
  lemma WalkIs(buffer: seq<byte>, at: nat, turns: nat, rest: Decoded)
    requires ChunkAt(buffer, at) != Stop(Backward)
    ensures var step := ChunkAt(buffer, at);
            && (step.Stop? ==> Walk(buffer, at, turns) == Some(Decoded([], step.status)))
            && (step.CutShort? ==> Walk(buffer, at, turns) == Some(Decoded(buffer[step.start..], Partial)))
            && (step.Take? && turns > 0 && Walk(buffer, step.end + 2, turns - 1) == Some(rest) ==>
                  Walk(buffer, at, turns) == Some(Decoded(buffer[step.start..step.end] + rest.body, rest.status)))
  {
    hide SizeOf, Find;
  }

  /** Where no size is negative, the loop ends and gives what the specification says. */
  lemma {:induction false} WalkIsDecode(buffer: seq<byte>, at: nat, turns: nat)
    requires Decode(buffer, at).status != Backward && turns + at >= |buffer|
    ensures Walk(buffer, at, turns) == Some(Decode(buffer, at))
    decreases turns
  {
    hide ChunkAt, Decode, Walk;
    DecodeIs(buffer, at);
    match ChunkAt(buffer, at)
    case Stop(_) => WalkIs(buffer, at, turns, Decoded([], Partial));
    case CutShort(_) => WalkIs(buffer, at, turns, Decoded([], Partial));
    case Take(_, end) =>
      WalkIsDecode(buffer, end + 2, turns - 1);
      WalkIs(buffer, at, turns, Decode(buffer, end + 2));
  }

  /** The parts pushed so far and what the loop still has to give make up the whole. */
  ghost predicate OnCourse(buffer: seq<byte>, at: int, left: nat, parts: seq<seq<byte>>, whole: Decoded) {
    var rest := Walk(buffer, at, left);
    rest.Some? && whole == Decoded(Flatten(parts) + rest.value.body, rest.value.status)
  }

  lemma LastTurn(buffer: seq<byte>, at: int, left: nat, parts: seq<seq<byte>>, whole: Decoded, last: Decoded)
    requires OnCourse(buffer, at, left, parts, whole) && Walk(buffer, at, left) == Some(last)
    ensures last.body == [] ==> whole == Decoded(Flatten(parts), last.status)
    ensures whole == Decoded(Flatten(parts + [last.body]), last.status)
  {
    FlattenSnoc(parts, last.body);
  }

  lemma NextTurn(buffer: seq<byte>, at: int, left: nat, parts: seq<seq<byte>>, whole: Decoded, eol: nat, size: int)
    requires at < |buffer| && eol == LineEnd(buffer, at) && SizeOf(LineAt(buffer, at, eol)) == Some(size)
    requires size != 0 && eol + 2 + size <= |buffer|
    requires OnCourse(buffer, at, left, parts, whole)
    ensures left > 0
    ensures OnCourse(buffer, eol + 2 + size + 2, left - 1,
                     parts + [SliceTo(buffer, eol + 2, eol + 2 + size)], whole)
  {
    hide SizeOf, LineEnd, LineAt, SliceTo;
    var part, rest := SliceTo(buffer, eol + 2, eol + 2 + size), Walk(buffer, eol + 2 + size + 2, left - 1);
    FlattenSnoc(parts, part);
    assert (Flatten(parts) + part) + rest.value.body == Flatten(parts) + (part + rest.value.body);
  }

  method DecodeChunked(buffer: seq<byte>) returns (body: seq<byte>, complete: bool)
    requires LoopEnds(buffer)
    ensures exists turns: nat :: Walk(buffer, 0, turns) == Some(Decoded(body, if complete then Complete else Partial))
  {
    hide SizeOf, LineEnd, LineAt, SliceTo, OnCourse;
    ghost var turns: nat :| Walk(buffer, 0, turns).Some?;
    ghost var whole := Walk(buffer, 0, turns).value;
    ghost var left := turns;
    var parts: seq<seq<byte>> := [];
    var at: int := 0;
    StartsOnCourse(buffer, turns);
    while at < |buffer|
      invariant OnCourse(buffer, at, left, parts, whole)
      decreases left
    {
      var eol := LineEnd(buffer, at);
      if eol == -1 {
        LastTurn(buffer, at, left, parts, whole, Decoded([], Partial));
        return Flatten(parts), false;
      }
      var size := SizeOf(LineAt(buffer, at, eol));
      if size.None? {
        LastTurn(buffer, at, left, parts, whole, Decoded([], Partial));
        return Flatten(parts), false;
      }
      if size.value == 0 {
        LastTurn(buffer, at, left, parts, whole, Decoded([], Complete));
        return Flatten(parts), true;
      }
      var start := eol + 2;
      if start + size.value > |buffer| {
        LastTurn(buffer, at, left, parts, whole, Decoded(buffer[start..], Partial));
        return Flatten(parts + [buffer[start..]]), false;
      }
      NextTurn(buffer, at, left, parts, whole, eol, size.value);
      parts := parts + [SliceTo(buffer, start, start + size.value)];
      at := start + size.value + 2;
      left := left - 1;
    }
    LastTurn(buffer, at, left, parts, whole, Decoded([], Partial));
    return Flatten(parts), false;
  }

  lemma StartsOnCourse(buffer: seq<byte>, turns: nat)
    requires Walk(buffer, 0, turns).Some?
    ensures OnCourse(buffer, 0, turns, [], Walk(buffer, 0, turns).value)
  {
    hide Walk;
    assert [] + Walk(buffer, 0, turns).value.body == Walk(buffer, 0, turns).value.body;
  }

  /** Whatever number of turns is allowed, a loop that ends gives one answer; and where no
      size is negative it ends, with the answer the theorems below are about. */
  lemma LoopGives(buffer: seq<byte>, turns: nat, more: nat)
    ensures Walk(buffer, 0, turns).Some? && Walk(buffer, 0, more).Some? ==>
              Walk(buffer, 0, turns) == Walk(buffer, 0, more)
    ensures Decode(buffer, 0).status != Backward ==>
              LoopEnds(buffer) &&
              (Walk(buffer, 0, turns).Some? ==> Walk(buffer, 0, turns) == Some(Decode(buffer, 0)))
  {
    hide Walk, Decode;
    if Walk(buffer, 0, turns).Some? && Walk(buffer, 0, more).Some? {
      if turns <= more { WalkIsStable(buffer, 0, turns, more); } else { WalkIsStable(buffer, 0, more, turns); }
    }
    if Decode(buffer, 0).status != Backward {
      WalkIsDecode(buffer, 0, |buffer|);
      if Walk(buffer, 0, turns).Some? {
        if turns <= |buffer| {
          WalkIsStable(buffer, 0, turns, |buffer|);
        } else {
          WalkIsDecode(buffer, 0, turns);
        }
      }
    }
  }

  const MINUS_SIX: seq<byte> := [45, 54, 13, 10]

  lemma MinusSix()
    ensures LineEnd(MINUS_SIX, 0) == 2 && SizeOf(LineAt(MINUS_SIX, 0, 2)) == Some(-6)
  {
    hide ParseInt, Trim;
    assert MINUS_SIX[0..2] == [45, 54] && MINUS_SIX[1..3] == [54, 13] && MINUS_SIX[2..4] == CRLF;
    FindIs(MINUS_SIX, CRLF, 0, 2);
    assert Latin1(MINUS_SIX[0..2]) == "-6";
    FindChar("-6", ';');
    assert Split("-6", ";") == ["-6"];
    TrimKeeps("-6");
    ReadsMinusSix();
  }

  lemma ReadsMinusSix()
    ensures ParseInt("-6", 16) == Some(-6)
  {
    assert TrimStart("-6") == "-6" && "-6"[1..] == "6";
    assert DigitRun("6", 16) == 1 && "6"[..1] == "6" && "6"[..0] == "";
  }

  /** Why the loop has to be required to end: on the line "-6" it never does. */
  lemma {:induction false} NegativeSizeStalls(turns: nat)
    ensures Walk(MINUS_SIX, 0, turns).None?
  {
    MinusSix();
    hide SizeOf, LineEnd, LineAt, SliceTo;
    if turns > 0 {
      NegativeSizeStalls(turns - 1);
    }
  }

  lemma StepGrows(b: seq<byte>, c: seq<byte>, at: nat)
    ensures var step, longer := ChunkAt(b, at), ChunkAt(b + c, at);
            && (step.Take? || step == Stop(Complete) || step == Stop(Backward) ==> longer == step)
            && (step.CutShort? ==> !longer.Stop? && longer.start == step.start && (longer.Take? ==> longer.end > |b|))
  {
    hide SizeOf;
    if at < |b| && Find(b, CRLF, at) != -1 {
      FindExtend(b, c, CRLF, at);
      hide Find;
      var eol := Find(b, CRLF, at);
      SliceWithin(b, c, at, eol);
    }
  }

  /** More bytes only ever lengthen the body, and nothing changes once it is complete. */
  lemma {:induction false} DecodeGrows(b: seq<byte>, c: seq<byte>, at: nat)
    ensures Decode(b, at).body <= Decode(b + c, at).body
    ensures Decode(b, at).status == Complete ==> Decode(b + c, at) == Decode(b, at)
    decreases |b| - at
  {
    hide ChunkAt, Decode;
    StepGrows(b, c, at);
    DecodeIs(b, at);
    DecodeIs(b + c, at);
    match ChunkAt(b, at)
    case Stop(_) =>
    case CutShort(start) =>
      SliceWithin(b, c, start, |b|);
    case Take(start, end) =>
      SliceWithin(b, c, start, end);
      DecodeGrows(b, c, end + 2);
  }

  function Moved(step: Turn, n: nat): Turn {
    match step
    case Stop(_) => step
    case CutShort(start) => CutShort(n + start)
    case Take(start, end) => Take(n + start, n + end)
  }

  lemma StepShift(p: seq<byte>, s: seq<byte>, at: nat)
    ensures ChunkAt(p + s, |p| + at) == Moved(ChunkAt(s, at), |p|)
  {
    hide SizeOf;
    FindShift(p, s, CRLF, at);
    hide Find;
    var eol := Find(s, CRLF, at);
    if at < |s| && eol != -1 {
      SliceBeyond(p, s, at, eol);
    }
  }

  /** The walk does not see what lies before it. */
  lemma {:induction false} DecodeShift(p: seq<byte>, s: seq<byte>, at: nat)
    ensures Decode(p + s, |p| + at) == Decode(s, at)
    decreases |s| - at
  {
    hide ChunkAt, Decode;
    StepShift(p, s, at);
    DecodeIs(s, at);
    DecodeIs(p + s, |p| + at);
    match ChunkAt(s, at)
    case Stop(_) =>
    case CutShort(start) =>
      assert |p + s| == |p| + |s|;
      SliceBeyond(p, s, start, |s|);
    case Take(start, end) =>
      assert ChunkAt(p + s, |p| + at) == Take(|p| + start, |p| + end);
      SliceBeyond(p, s, start, end);
      DecodeShift(p, s, end + 2);
  }

  // -------------------------------------------------------------- the encoder

  /** The white space section 7.1.1 of RFC 9112 allows around an extension's semicolon. */
  predicate AllBlank(s: string) {
    forall i :: 0 <= i < |s| ==> s[i] == ' ' || s[i] == '\t'
  }

  /** A chunk line announcing `n`: hex digits in either case with any leading zeros, then
      any blanks, then nothing or an extension, and no line break before its own. */
  ghost predicate SizeLine(line: seq<byte>, n: nat) {
    && Find(line + CRLF, CRLF, 0) == |line|
    && exists digits, blanks, extension ::
         && Latin1(line) == digits + blanks + extension
         && digits != "" && AllDigits(digits, 16) && Numeral(digits, 16) == n
         && AllBlank(blanks)
         && (extension == "" || extension[0] == ';')
  }

  lemma {:induction false} TrimsBlanks(s: string, blanks: string)
    requires s != "" && !IsSpace(s[0]) && !IsSpace(s[|s| - 1]) && AllBlank(blanks)
    ensures Trim(s + blanks) == s
  {
    if blanks == "" {
      assert s + blanks == s;
      TrimKeeps(s);
    } else {
      var shorter := blanks[..|blanks| - 1];
      var t := s + blanks;
      assert t[..|t| - 1] == s + shorter && t[|t| - 1] == blanks[|blanks| - 1] && t[0] == s[0];
      TrimsBlanks(s, shorter);
    }
  }

  lemma SplitFirst(digits: string, extension: string)
    requires ';' !in digits && (extension == "" || extension[0] == ';')
    ensures Split(digits + extension, ";")[0] == digits
  {
    var s := digits + extension;
    if extension == "" {
      assert s == digits;
      FindChar(digits, ';');
    } else {
      forall j: nat | j < |digits|
        ensures !OccursAt(s, ";", j)
      {
        assert s[j] == digits[j] && s[j..j + 1] == [s[j]];
      }
      assert s[|digits|..|digits| + 1] == ";";
      FindIs(s, ";", 0, |digits|);
      assert s[..|digits|] == digits;
    }
  }

  lemma SizeLineReads(line: seq<byte>, n: nat)
    requires SizeLine(line, n)
    ensures SizeOf(line) == Some(n)
  {
    hide Split, Trim, ParseInt, Numeral, Find, Latin1;
    var digits, blanks, extension :|
      && Latin1(line) == digits + blanks + extension
      && digits != "" && AllDigits(digits, 16) && Numeral(digits, 16) == n
      && AllBlank(blanks)
      && (extension == "" || extension[0] == ';');
    forall c | IsSpace(c) || c == ';'
      ensures DigitOf(c) == 16
    {
    }
    SplitFirst(digits + blanks, extension);
    TrimsBlanks(digits, blanks);
    ParseIntNumeral(digits, 16);
  }

  datatype Chunk = Chunk(line: seq<byte>, data: seq<byte>)

  ghost predicate ValidChunks(chunks: seq<Chunk>) {
    forall i :: 0 <= i < |chunks| ==> chunks[i].data != [] && SizeLine(chunks[i].line, |chunks[i].data|)
  }

  /** The chunks as sent, up to and including the line that ends the body. */
  function Wire(chunks: seq<Chunk>, last: seq<byte>): seq<byte> {
    if chunks == [] then last + CRLF
    else chunks[0].line + CRLF + chunks[0].data + CRLF + Wire(chunks[1..], last)
  }

  /** The body the chunks carry. */
  function Payload(chunks: seq<Chunk>): seq<byte> {
    if chunks == [] then [] else chunks[0].data + Payload(chunks[1..])
  }

  /** The part of the body that lies within the first `k` bytes sent. */
  function PayloadWithin(chunks: seq<Chunk>, k: int): seq<byte> {
    if chunks == [] then []
    else
      var data := chunks[0].data;
      var had := k - |chunks[0].line| - 2;
      if had <= 0 then []
      else if had < |data| then data[..had]
      else data + PayloadWithin(chunks[1..], had - |data| - 2)
  }

  lemma {:induction false} WithinIsPrefix(chunks: seq<Chunk>, k: int)
    ensures PayloadWithin(chunks, k) <= Payload(chunks)
  {
    if chunks != [] {
      WithinIsPrefix(chunks[1..], k - |chunks[0].line| - 2 - |chunks[0].data| - 2);
    }
  }

  /** A line cut short holds no line break. */
  lemma CutLine(line: seq<byte>, rest: seq<byte>, k: nat)
    requires Find(line + CRLF, CRLF, 0) == |line| && k <= |line| + 1
    requires k <= |line + CRLF + rest|
    ensures Find((line + CRLF + rest)[..k], CRLF, 0) == -1
  {
    var s := (line + CRLF + rest)[..k];
    assert s == (line + CRLF)[..k];
    forall j: nat
      ensures !OccursAt(s, CRLF, j)
    {
      if j + 2 <= k {
        assert !OccursAt(line + CRLF, CRLF, j);
        assert s[j..j + 2] == (line + CRLF)[j..j + 2];
      }
    }
  }

  lemma WholeLine(line: seq<byte>, rest: seq<byte>, k: nat)
    requires Find(line + CRLF, CRLF, 0) == |line|
    requires |line| + 2 <= k <= |line + CRLF + rest|
    ensures Find((line + CRLF + rest)[..k], CRLF, 0) == |line|
    ensures (line + CRLF + rest)[..k][..|line|] == line
  {
    var more := rest[..k - |line| - 2];
    TakeBeyond(line + CRLF, rest, k);
    FindExtend(line + CRLF, more, CRLF, 0);
  }

  /** Cutting the last-chunk line off leaves nothing decided; with it the body is complete. */
  lemma LastLine(last: seq<byte>, rest: seq<byte>, k: nat)
    requires SizeLine(last, 0) && k <= |last + CRLF + rest|
    ensures Decode((last + CRLF + rest)[..k], 0) == Decoded([], if k >= |last| + 2 then Complete else Partial)
  {
    hide SizeOf, Find;
    SizeLineReads(last, 0);
    hide SizeLine;
    if k <= |last| + 1 {
      CutLine(last, rest, k);
    } else {
      WholeLine(last, rest, k);
    }
  }

  lemma FirstStep(c: Chunk, tail: seq<byte>, k: nat)
    requires c.data != [] && SizeLine(c.line, |c.data|) && k <= |c.line + CRLF + tail|
    ensures var start := |c.line| + 2;
            ChunkAt((c.line + CRLF + tail)[..k], 0) ==
            if k < start then Stop(Partial)
            else if k < start + |c.data| then CutShort(start)
            else Take(start, start + |c.data|)
  {
    hide SizeOf, Find;
    SizeLineReads(c.line, |c.data|);
    hide SizeLine;
    if k < |c.line| + 2 {
      CutLine(c.line, tail, k);
    } else {
      WholeLine(c.line, tail, k);
    }
  }

  lemma FirstChunk(c: Chunk, rest: seq<byte>, k: nat)
    requires c.data != [] && SizeLine(c.line, |c.data|)
    requires k <= |c.line + CRLF + (c.data + CRLF + rest)|
    ensures var d := Decode((c.line + CRLF + (c.data + CRLF + rest))[..k], 0);
            var had := k - |c.line| - 2;
            if had <= 0 then d == Decoded([], Partial)
            else if had < |c.data| then d == Decoded(c.data[..had], Partial)
            else if had < |c.data| + 2 then d == Decoded(c.data, Partial)
            else var e := Decode(rest[..had - |c.data| - 2], 0); d == Decoded(c.data + e.body, e.status)
  {
    hide SizeLine, ChunkAt, Decode;
    var tail := c.data + CRLF + rest;
    FirstStep(c, tail, k);
    var s := (c.line + CRLF + tail)[..k];
    var start, end := |c.line| + 2, |c.line| + 2 + |c.data|;
    DecodeIs(s, 0);
    if k >= start {
      assert tail == c.data + (CRLF + rest);
      DataKept(c.line + CRLF, c.data, CRLF + rest, k);
    }
    if k >= end + 2 {
      AfterChunk(c, rest, k);
    } else if k >= end {
      NothingAtEnd(s, end + 2);
    }
  }

  lemma DataKept(before: seq<byte>, data: seq<byte>, after: seq<byte>, k: nat)
    requires |before| <= k <= |before + (data + after)|
    ensures var s, end := (before + (data + after))[..k], |before| + |data|;
            && (k >= end ==> s[|before|..end] == data)
            && (k <= end ==> s[|before|..] == data[..k - |before|])
  {
  }

  lemma AfterChunk(c: Chunk, rest: seq<byte>, k: nat)
    requires |c.line| + |c.data| + 4 <= k <= |c.line + CRLF + (c.data + CRLF + rest)|
    ensures var after := |c.line| + |c.data| + 4;
            Decode((c.line + CRLF + (c.data + CRLF + rest))[..k], after) == Decode(rest[..k - after], 0)
  {
    hide ChunkAt;
    var before := c.line + CRLF + c.data + CRLF;
    var kept := rest[..k - |before|];
    assert (c.line + CRLF + (c.data + CRLF + rest))[..k] == before + kept;
    DecodeShift(before, kept, 0);
  }

  /** For every chunking of a body, whatever follows it, and every number of bytes kept:
      exactly the part of the body inside those bytes is reported, and it is reported
      complete exactly when the last-chunk line was kept whole. */
  lemma {:induction false} DecodeOfCut(chunks: seq<Chunk>, last: seq<byte>, rest: seq<byte>, k: nat)
    requires ValidChunks(chunks) && SizeLine(last, 0) && k <= |Wire(chunks, last) + rest|
    ensures Decode((Wire(chunks, last) + rest)[..k], 0) ==
            Decoded(PayloadWithin(chunks, k), if k >= |Wire(chunks, last)| then Complete else Partial)
  {
    hide SizeLine, Decode;
    if chunks == [] {
      LastLine(last, rest, k);
    } else {
      var c, tail := chunks[0], Wire(chunks[1..], last) + rest;
      assert Wire(chunks, last) + rest == c.line + CRLF + (c.data + CRLF + tail);
      FirstChunk(c, tail, k);
      var had := k - |c.line| - 2;
      if had >= |c.data| + 2 {
        DecodeOfCut(chunks[1..], last, rest, had - |c.data| - 2);
      } else {
        assert PayloadWithin(chunks[1..], had - |c.data| - 2) == [];
        assert c.data + [] == c.data;
      }
    }
  }

  /** Decoding inverts every chunked encoding. */
  lemma DecodeInverts(chunks: seq<Chunk>, last: seq<byte>, rest: seq<byte>)
    requires ValidChunks(chunks) && SizeLine(last, 0)
    ensures Decode(Wire(chunks, last) + rest, 0) == Decoded(Payload(chunks), Complete)
  {
    var whole := Wire(chunks, last) + rest;
    DecodeOfCut(chunks, last, rest, |whole|);
    assert whole[..|whole|] == whole;
    AllWithin(chunks, last, |whole|);
  }

  lemma {:induction false} AllWithin(chunks: seq<Chunk>, last: seq<byte>, k: nat)
    requires k >= |Wire(chunks, last)|
    ensures PayloadWithin(chunks, k) == Payload(chunks)
  {
    if chunks != [] {
      AllWithin(chunks[1..], last, k - |chunks[0].line| - 2 - |chunks[0].data| - 2);
      assert |chunks[0].data| == 0 || chunks[0].data != [];
    }
  }

  // --------------------------------------------------------- the response head

  const BLANK_LINE: seq<byte> := [13, 10, 13, 10]

  function LowerChar(c: char): char {
    if 'A' <= c <= 'Z' || ('\U{C0}' <= c <= '\U{DE}' && c != '\U{D7}') then (c as int + 32) as char else c
  }

  function Lower(s: string): string {
    seq(|s|, i requires 0 <= i < |s| => LowerChar(s[i]))
  }

  /** One header line; a repeated name is joined, and a line without a name is skipped. */
  function AddHeader(headers: map<string, string>, line: string): map<string, string> {
    var colon := Find(line, ":", 0);
    if colon <= 0 then headers
    else
      var name, value := Lower(Trim(line[..colon])), Trim(line[colon + 1..]);
      headers[name := if name in headers then headers[name] + ", " + value else value]
  }

  function AddHeaders(headers: map<string, string>, lines: seq<string>): map<string, string>
    decreases |lines|
  {
    if lines == [] then headers else AddHeaders(AddHeader(headers, lines[0]), lines[1..])
  }

  method ReadHeaders(lines: seq<string>) returns (headers: map<string, string>)
    ensures headers == AddHeaders(map[], lines)
  {
    headers := map[];
    for i := 0 to |lines|
      invariant AddHeaders(headers, lines[i..]) == AddHeaders(map[], lines)
    {
      assert lines[i..][1..] == lines[i + 1..];
      headers := AddHeader(headers, lines[i]);
    }
  }

  predicate IsChunked(headers: map<string, string>) {
    "transfer-encoding" in headers && Find(Lower(headers["transfer-encoding"]), "chunked", 0) != -1
  }

  datatype Response =
    | NoBlankLine(raw: seq<byte>)
    | Read(statusLine: string, headers: map<string, string>, chunked: bool, complete: bool, body: seq<byte>)

  function HeadersOf(head: seq<byte>): map<string, string> {
    AddHeaders(map[], Split(Latin1(head), "\r\n")[1..])
  }

  /** The response in `buffer`, with chunked framing removed. */
  function ParseHttpResponse(buffer: seq<byte>): Response {
    var separator := Find(buffer, BLANK_LINE, 0);
    if separator == -1 then NoBlankLine(buffer)
    else
      var head, body := buffer[..separator], buffer[separator + 4..];
      var statusLine, headers := Split(Latin1(head), "\r\n")[0], HeadersOf(head);
      if IsChunked(headers) then
        var decoded := Decode(body, 0);
        Read(statusLine, headers, true, decoded.status == Complete, decoded.body)
      else Read(statusLine, headers, false, true, body)
  }

  /** `parsed.bodyComplete !== false`: true for a response without a blank line too. */
  predicate ReportedComplete(r: Response) {
    r.Read? ==> r.complete
  }

  lemma HeadCut(head: seq<byte>, body: seq<byte>, k: nat)
    requires Find(head + BLANK_LINE, BLANK_LINE, 0) == |head| && k <= |head + BLANK_LINE + body|
    ensures var s := (head + BLANK_LINE + body)[..k];
            if k < |head| + 4 then Find(s, BLANK_LINE, 0) == -1
            else Find(s, BLANK_LINE, 0) == |head| && s[..|head|] == head && s[|head| + 4..] == body[..k - |head| - 4]
  {
    hide Find;
    var h := head + BLANK_LINE;
    var s := (h + body)[..k];
    if k < |h| {
      forall j: nat
        ensures !OccursAt(s, BLANK_LINE, j)
      {
        if j + 4 <= k {
          assert !OccursAt(h, BLANK_LINE, j);
          assert s[j..j + 4] == h[j..j + 4];
        }
      }
    } else {
      TakeBeyond(h, body, k);
      FindExtend(h, body[..k - |h|], BLANK_LINE, 0);
    }
  }

  /** The blank line that ends a head is two line ends, each a carriage return and a line
      feed (section 2.1 of RFC 9112). */
  lemma LineEndsAre()
    ensures Latin1(CRLF) == "\r\n" && BLANK_LINE == CRLF + CRLF
  {
  }

  /** Of a response whose head was kept whole: the status line is the head up to its first
      line end, and the headers are those of the lines after it. */
  lemma HeadIsRead(head: seq<byte>, body: seq<byte>, k: nat)
    requires Find(head + BLANK_LINE, BLANK_LINE, 0) == |head| && |head| + 4 <= k <= |head + BLANK_LINE + body|
    ensures var r, eol := ParseHttpResponse((head + BLANK_LINE + body)[..k]), Find(Latin1(head), "\r\n", 0);
            && r.Read? && r.headers == HeadersOf(head) && r.chunked == IsChunked(HeadersOf(head))
            && r.statusLine == if eol == -1 then Latin1(head) else Latin1(head)[..eol]
  {
    HeadCut(head, body, k);
    hide Find, HeadersOf, IsChunked, Decode;
  }

  /** A response that is not chunked is handed back as it was sent, cut anywhere, and is
      never reported incomplete. */
  lemma VerbatimOfCut(head: seq<byte>, body: seq<byte>, k: nat)
    requires Find(head + BLANK_LINE, BLANK_LINE, 0) == |head| && !IsChunked(HeadersOf(head))
    requires |head| + 4 <= k <= |head + BLANK_LINE + body|
    ensures var r := ParseHttpResponse((head + BLANK_LINE + body)[..k]);
            r.Read? && !r.chunked && r.complete && r.body == body[..k - |head| - 4] && r.headers == HeadersOf(head)
  {
    hide Find, HeadersOf, IsChunked, Split;
    HeadCut(head, body, k);
  }

  /** The name and value of a header line, or None for a line that has no name. */
  function Field(line: string): Option<(string, string)> {
    var colon := Find(line, ":", 0);
    if colon <= 0 then None else Some((Lower(Trim(line[..colon])), Trim(line[colon + 1..])))
  }

  /** Every value sent under a name, in order. */
  function ValuesOf(lines: seq<string>, name: string): seq<string> {
    if lines == [] then []
    else
      var field := Field(lines[0]);
      (if field.Some? && field.value.0 == name then [field.value.1] else []) + ValuesOf(lines[1..], name)
  }

  function Joined(first: Option<string>, values: seq<string>): Option<string> {
    if first.Some? then Some(Join([first.value] + values, ", "))
    else if values == [] then None else Some(Join(values, ", "))
  }

  function HeaderOf(headers: map<string, string>, name: string): Option<string> {
    if name in headers then Some(headers[name]) else None
  }

  lemma {:induction false} JoinFirst(a: string, b: string, rest: seq<string>)
    ensures Join([a, b] + rest, ", ") == Join([a + ", " + b] + rest, ", ")
  {
    assert ([a, b] + rest)[1..] == [b] + rest;
    assert ([a + ", " + b] + rest)[1..] == rest && ([b] + rest)[1..] == rest;
    if rest == [] {
      assert [b] + rest == [b];
    } else {
      assert Join([b] + rest, ", ") == b + ", " + Join(rest, ", ");
    }
  }

  lemma {:induction false} AllValuesKept(headers: map<string, string>, lines: seq<string>, name: string)
    ensures HeaderOf(AddHeaders(headers, lines), name) == Joined(HeaderOf(headers, name), ValuesOf(lines, name))
    decreases |lines|
  {
    hide Find, Lower, Trim, Join;
    if lines == [] {
      if name in headers { JoinOne(headers[name]); }
    } else {
      var field, rest := Field(lines[0]), ValuesOf(lines[1..], name);
      var next := AddHeader(headers, lines[0]);
      AllValuesKept(next, lines[1..], name);
      if field.Some? && field.value.0 == name {
        assert ValuesOf(lines, name) == [field.value.1] + rest;
        if name in headers {
          JoinFirst(headers[name], field.value.1, rest);
          assert [headers[name]] + ([field.value.1] + rest) == [headers[name], field.value.1] + rest;
        }
      } else {
        assert ValuesOf(lines, name) == rest;
      }
    }
  }

  lemma JoinOne(a: string)
    ensures Join([a] + [], ", ") == a
  {
    assert [a] + [] == [a];
  }

  /** No header sent is dropped or overwritten: under each name, whatever its case, stand
      all the values sent under it, in order, joined by commas; a name not sent is absent. */
  lemma HeadersAreComplete(head: seq<byte>, name: string)
    ensures var values := ValuesOf(Split(Latin1(head), "\r\n")[1..], name);
            HeaderOf(HeadersOf(head), name) == if values == [] then None else Some(Join(values, ", "))
  {
    hide AddHeaders, ValuesOf, Split, Latin1;
    AllValuesKept(map[], Split(Latin1(head), "\r\n")[1..], name);
  }

  /** The capitals of Latin-1 outside ASCII, and their small letters. */
  const LATIN_CAPITALS :=
    "\U{C0}\U{C1}\U{C2}\U{C3}\U{C4}\U{C5}\U{C6}\U{C7}\U{C8}\U{C9}\U{CA}\U{CB}\U{CC}\U{CD}\U{CE}\U{CF}" +
    "\U{D0}\U{D1}\U{D2}\U{D3}\U{D4}\U{D5}\U{D6}\U{D8}\U{D9}\U{DA}\U{DB}\U{DC}\U{DD}\U{DE}"
  const LATIN_SMALLS :=
    "\U{E0}\U{E1}\U{E2}\U{E3}\U{E4}\U{E5}\U{E6}\U{E7}\U{E8}\U{E9}\U{EA}\U{EB}\U{EC}\U{ED}\U{EE}\U{EF}" +
    "\U{F0}\U{F1}\U{F2}\U{F3}\U{F4}\U{F5}\U{F6}\U{F8}\U{F9}\U{FA}\U{FB}\U{FC}\U{FD}\U{FE}"

  lemma LatinLower(i: nat)
    requires i < 30
    ensures |LATIN_CAPITALS| == |LATIN_SMALLS| == 30 && LowerChar(LATIN_CAPITALS[i]) == LATIN_SMALLS[i]
  {
  }

  lemma AsciiLower(i: nat)
    requires i < 26
    ensures LowerChar(CAPITALS[i]) == SMALLS[i] && LowerChar(SMALLS[i]) == SMALLS[i]
  {
    CapitalIs(i);
    SmallIs(i);
  }

  predicate HasNoCapital(s: string) {
    forall i :: 0 <= i < |s| ==> LowerChar(s[i]) == s[i]
  }

  lemma LowersTo(s: string, name: string)
    requires SameButCase(s, name) && HasNoCapital(name)
    ensures Lower(s) == name
  {
    forall i | 0 <= i < |s|
      ensures LowerChar(s[i]) == name[i]
    {
      assert SameLetter(s[i], name[i]);
      if s[i] != name[i] {
        var k: nat :| k < 26 && SameAt(s[i], name[i], k);
        AsciiLower(k);
        CapitalIs(k);
        SmallIs(k);
      }
    }
  }

  /** A header line with its name in any case. */
  lemma FieldInAnyCase(written: string, name: string, value: string)
    requires SameButCase(written, name) && HasNoCapital(name)
    requires name != "" && ':' !in name && !IsSpace(name[0]) && !IsSpace(name[|name| - 1])
    ensures Field(written + ":" + value) == Some((name, Trim(value)))
  {
    hide Lower, Trim, Find, SameLetter, HasNoCapital;
    var line := written + ":" + value;
    SameLength(written, name);
    FindSame(written, name, ":", 0);
    FindChar(written, ':');
    FindChar(name, ':');
    CutAtMark(written, ':', value);
    LetterFacts(written[0], name[0]);
    LetterFacts(written[|name| - 1], name[|name| - 1]);
    TrimKeeps(written);
    LowersTo(written, name);
  }

  lemma {:induction false} ValueIsListed(lines: seq<string>, i: nat, name: string, value: string) returns (k: nat)
    requires i < |lines| && Field(lines[i]) == Some((name, value))
    ensures k < |ValuesOf(lines, name)| && ValuesOf(lines, name)[k] == value
  {
    hide Field;
    if i == 0 {
      k := 0;
    } else {
      k := ValueIsListed(lines[1..], i - 1, name, value);
      var field := Field(lines[0]);
      k := k + if field.Some? && field.value.0 == name then 1 else 0;
    }
  }

  /** A value sent under any casing of a name stands under that name. */
  lemma HeaderStands(head: seq<byte>, i: nat, written: string, name: string, value: string) returns (at: nat)
    requires var lines := Split(Latin1(head), "\r\n"); 1 <= i < |lines| && lines[i] == written + ":" + value
    requires SameButCase(written, name) && HasNoCapital(name)
    requires name != "" && ':' !in name && !IsSpace(name[0]) && !IsSpace(name[|name| - 1])
    ensures name in HeadersOf(head) && OccursAt(HeadersOf(head)[name], Trim(value), at)
  {
    hide Split, Latin1, HeadersOf, Field, Trim, SameButCase, HasNoCapital;
    var lines := Split(Latin1(head), "\r\n");
    FieldInAnyCase(written, name, value);
    assert lines[1..][i - 1] == lines[i];
    var k := ValueIsListed(lines[1..], i - 1, name, Trim(value));
    HeadersAreComplete(head, name);
    at := JoinHolds(ValuesOf(lines[1..], name), k, ", ");
  }

  lemma LowerOccurs(s: string, pat: string, at: nat)
    requires OccursAt(s, pat, at)
    ensures OccursAt(Lower(s), Lower(pat), at)
  {
    assert Lower(s)[at..at + |pat|] == Lower(s[at..at + |pat|]);
  }

  lemma TransferEncodingIsName()
    ensures HasNoCapital("transfer-encoding") && HasNoCapital("chunked")
  {
  }

  /** A head one line of which says, in whatever case, that the transfer encoding holds the
      word chunked is one whose body is decoded. */
  lemma SaysChunked(head: seq<byte>, i: nat, written: string, value: string,
                    before: string, word: string, after: string)
    requires var lines := Split(Latin1(head), "\r\n"); 1 <= i < |lines| && lines[i] == written + ":" + value
    requires SameButCase(written, "transfer-encoding")
    requires Trim(value) == before + word + after && SameButCase(word, "chunked")
    ensures IsChunked(HeadersOf(head))
  {
    hide Split, Latin1, HeadersOf, Trim, SameButCase, HasNoCapital, Lower;
    TransferEncodingIsName();
    var at := HeaderStands(head, i, written, "transfer-encoding", value);
    var all := HeadersOf(head)["transfer-encoding"];
    LowersTo(word, "chunked");
    SameLength(word, "chunked");
    assert Trim(value)[|before|..|before| + |word|] == word;
    assert all[at + |before|..at + |before| + |word|] == all[at..at + |Trim(value)|][|before|..|before| + |word|];
    LowerOccurs(all, word, at + |before|);
  }

  /** And no other: the values sent under that name, joined, hold the word. */
  lemma ChunkedExactly(head: seq<byte>)
    ensures var values := ValuesOf(Split(Latin1(head), "\r\n")[1..], "transfer-encoding");
            IsChunked(HeadersOf(head)) <==>
            values != [] && exists at :: OccursAt(Lower(Join(values, ", ")), "chunked", at)
  {
    hide HeadersOf, ValuesOf, Split, Latin1, Lower, Join;
    HeadersAreComplete(head, "transfer-encoding");
  }

  /** The case of the digits of a chunk size does not matter. */
  lemma SizeSame(a: seq<byte>, b: seq<byte>)
    requires SameButCase(Latin1(a), Latin1(b))
    ensures SizeOf(a) == SizeOf(b)
  {
    hide Split, TrimStart, TrimEnd, ParseInt, SameButCase;
    SplitSame(Latin1(a), Latin1(b), ";");
    var s, t := Split(Latin1(a), ";")[0], Split(Latin1(b), ";")[0];
    TrimStartSame(s, t);
    TrimEndSame(TrimStart(s), TrimStart(t));
    ParseIntSame(Trim(s), Trim(t), 16);
  }

  /** A chunked response cut anywhere: the body reported is the part of the true body
      that was kept, and it is reported complete exactly when the last-chunk line was
      kept, or when not even the head was, since then there is nothing to have cut short. */
  lemma ResponseOfCut(head: seq<byte>, chunks: seq<Chunk>, last: seq<byte>, rest: seq<byte>, k: nat)
    requires Find(head + BLANK_LINE, BLANK_LINE, 0) == |head| && IsChunked(HeadersOf(head))
    requires ValidChunks(chunks) && SizeLine(last, 0)
    requires k <= |head + BLANK_LINE + (Wire(chunks, last) + rest)|
    ensures var sent := head + BLANK_LINE + (Wire(chunks, last) + rest);
            var r := ParseHttpResponse(sent[..k]);
            var top := |head| + 4;
            && (r.Read? <==> k >= top)
            && (r.Read? ==> r.chunked && r.body == PayloadWithin(chunks, k - top) && r.body <= Payload(chunks))
            && (ReportedComplete(r) <==> k < top || k >= top + |Wire(chunks, last)|)
  {
    hide Find, Decode, Wire, SizeLine, HeadersOf, IsChunked, Split;
    var wire := Wire(chunks, last) + rest;
    HeadCut(head, wire, k);
    if k >= |head| + 4 {
      DecodeOfCut(chunks, last, rest, k - |head| - 4);
      WithinIsPrefix(chunks, k - |head| - 4);
    }
  }
}
