/** api/spiffe_client.js: concatenated DER split into its certificates. */
module SpiffeDer {
  import opened Bytes
  import opened Krb5Frame

  const SEQUENCE: byte := 0x30

  /** Where the element at `offset` ends, or None where the walk of
      `splitDerCertificates` stops. */
  function ElementEnd(buffer: seq<byte>, offset: nat): (end: Option<nat>)
    requires offset < |buffer|
    ensures end.Some? ==> offset + 2 <= end.value <= |buffer|
  {
    if buffer[offset] != SEQUENCE || offset + 2 > |buffer| then None
    else
      var first := buffer[offset + 1];
      if first < 0x80 then
        var end := offset + 2 + first;
        if end > |buffer| then None else Some(end)
      else
        var count := first - 0x80;
        if count == 0 || count > 4 || offset + 2 + count > |buffer| then None
        else
          var end := offset + 2 + count + Value(buffer[offset + 2..offset + 2 + count]);
          if end > |buffer| then None else Some(end)
  }

  function SplitFrom(buffer: seq<byte>, offset: nat): seq<seq<byte>>
    decreases |buffer| - offset
  {
    if offset >= |buffer| then []
    else match ElementEnd(buffer, offset)
      case None => []
      case Some(end) => [buffer[offset..end]] + SplitFrom(buffer, end)
  }

  method ReadElement(buffer: seq<byte>, offset: nat) returns (end: Option<nat>)
    requires offset < |buffer|
    ensures end == ElementEnd(buffer, offset)
  {
    if buffer[offset] != SEQUENCE {
      return None;
    }
    if offset + 2 > |buffer| {
      return None;
    }
    var first := buffer[offset + 1];
    var headerLength: nat, bodyLength: nat;
    if first < 0x80 {
      headerLength, bodyLength := 2, first;
    } else {
      var count := first - 0x80;
      if count == 0 || count > 4 || offset + 2 + count > |buffer| {
        return None;
      }
      headerLength, bodyLength := 2 + count, 0;
      for i := 0 to count
        invariant bodyLength == Value(buffer[offset + 2..offset + 2 + i])
      {
        assert buffer[offset + 2..offset + 2 + i + 1][..i] == buffer[offset + 2..offset + 2 + i];
        bodyLength := bodyLength * 256 + buffer[offset + 2 + i];
      }
    }
    if offset + headerLength + bodyLength > |buffer| {
      return None;
    }
    return Some(offset + headerLength + bodyLength);
  }

  method SplitDerCertificates(buffer: seq<byte>) returns (out: seq<seq<byte>>)
    ensures out == SplitFrom(buffer, 0)
  {
    hide ElementEnd;
    out := [];
    var offset := 0;
    while offset < |buffer|
      invariant 0 <= offset <= |buffer|
      invariant SplitFrom(buffer, 0) == out + SplitFrom(buffer, offset)
      decreases |buffer| - offset
    {
      var end := ReadElement(buffer, offset);
      if end.None? {
        break;
      }
      out := out + [buffer[offset..end.value]];
      offset := end.value;
    }
  }

  // ---------------------------------------------- agreement with krb5_frame.js

  /** This reader moves past an element exactly when the Kerberos reader accepts its
      header, its tag is SEQUENCE and it fits, and then by the total that one announces. */
  lemma AgreesWithOuterTlv(buffer: seq<byte>, offset: nat)
    requires offset < |buffer|
    ensures var outer := OuterTlv(buffer[offset..]);
            ElementEnd(buffer, offset) ==
            if outer.Ok? && outer.value.tag == 0x30 && offset + outer.value.totalLength <= |buffer|
            then Some(offset + outer.value.totalLength) else None
  {
    var rest := buffer[offset..];
    assert rest[0] == buffer[offset];
    if |rest| >= 2 {
      assert rest[1] == buffer[offset + 1];
      var count := rest[1] as int - 0x80;
      if 0 < count <= 4 && 2 + count <= |rest| {
        assert rest[2..2 + count] == buffer[offset + 2..offset + 2 + count];
      }
    }
  }

  /** Exactly the whole SEQUENCE elements are passed over. */
  lemma ElementEndIs(buffer: seq<byte>, offset: nat, end: nat)
    requires offset < |buffer|
    ensures ElementEnd(buffer, offset) == Some(end) <==>
            offset <= end <= |buffer| && IsElement(0x30, buffer[offset..end])
  {
    hide ElementEnd, LengthField;
    AgreesWithOuterTlv(buffer, offset);
    var rest := buffer[offset..];
    if ElementEnd(buffer, offset) == Some(end) {
      WholeElement(rest, end - offset);
      assert rest[..end - offset] == buffer[offset..end];
    }
    if offset <= end <= |buffer| && IsElement(SEQUENCE, buffer[offset..end]) {
      var field, content :|
        LengthField(field, |content|) && buffer[offset..end] == [SEQUENCE] + field + content;
      assert rest == [SEQUENCE] + field + (content + buffer[end..]);
      OuterTlvReads(SEQUENCE, field, |content|, content + buffer[end..]);
    }
  }

  lemma WholeElement(rest: seq<byte>, total: nat)
    requires OuterTlv(rest).Ok? && OuterTlv(rest).value.totalLength == total <= |rest|
    ensures IsElement(rest[0], rest[..total])
  {
    var field := OuterTlvSplits(rest);
    hide OuterTlv, LengthField;
    var content := rest[1 + |field|..total];
    assert rest[..total] == [rest[0]] + field + content;
  }

  // ------------------------------------------------------ exact and maximal

  ghost predicate AllElements(blocks: seq<seq<byte>>) {
    forall b :: b in blocks ==> IsElement(0x30, b)
  }

  /** No whole SEQUENCE element begins `rest`. */
  ghost predicate StartsNoElement(rest: seq<byte>) {
    forall n: nat :: n <= |rest| ==> !IsElement(0x30, rest[..n])
  }

  lemma ElementNotEmpty(b: seq<byte>)
    requires IsElement(0x30, b)
    ensures |b| >= 2
  {
  }

  lemma StopsExactly(buffer: seq<byte>, offset: nat)
    requires offset <= |buffer|
    ensures (offset == |buffer| || ElementEnd(buffer, offset).None?) <==> StartsNoElement(buffer[offset..])
  {
    hide ElementEnd, IsElement;
    var rest := buffer[offset..];
    forall n: nat | n <= |rest|
      ensures IsElement(SEQUENCE, rest[..n]) <==> offset < |buffer| && ElementEnd(buffer, offset) == Some(offset + n)
    {
      assert rest[..n] == buffer[offset..offset + n];
      if offset < |buffer| {
        ElementEndIs(buffer, offset, offset + n);
      } else if IsElement(SEQUENCE, rest[..n]) {
        ElementNotEmpty(rest[..n]);
        assert false;
      }
    }
    if offset < |buffer| && ElementEnd(buffer, offset).Some? {
      assert IsElement(SEQUENCE, rest[..ElementEnd(buffer, offset).value - offset]);
    }
  }

  /** The blocks are whole SEQUENCE elements, they are the input's own bytes in order from
      its start, and what is left over begins with no further element. */
  lemma {:induction false} SplitIsExact(buffer: seq<byte>, offset: nat)
    requires offset <= |buffer|
    ensures var blocks := SplitFrom(buffer, offset);
            && AllElements(blocks)
            && Flatten(blocks) <= buffer[offset..]
            && StartsNoElement(buffer[offset..][|Flatten(blocks)|..])
    decreases |buffer| - offset
  {
    hide ElementEnd, IsElement, StartsNoElement;
    StopsExactly(buffer, offset);
    if offset < |buffer| && ElementEnd(buffer, offset).Some? {
      var end := ElementEnd(buffer, offset).value;
      ElementEndIs(buffer, offset, end);
      SplitIsExact(buffer, end);
      var rest := SplitFrom(buffer, end);
      assert buffer[offset..] == buffer[offset..end] + buffer[end..];
      assert Flatten(SplitFrom(buffer, offset)) == buffer[offset..end] + Flatten(rest);
      assert buffer[offset..][|buffer[offset..end] + Flatten(rest)|..] == buffer[end..][|Flatten(rest)|..];
    } else {
      assert buffer[offset..][0..] == buffer[offset..];
    }
  }

  /** There is one way to do that: blocks with those three properties are the split. */
  lemma {:induction false} SplitIsUnique(blocks: seq<seq<byte>>, rest: seq<byte>, before: seq<byte>)
    requires AllElements(blocks) && StartsNoElement(rest)
    ensures SplitFrom(before + Flatten(blocks) + rest, |before|) == blocks
    decreases |blocks|
  {
    hide ElementEnd, IsElement, StartsNoElement;
    var buffer := before + Flatten(blocks) + rest;
    if blocks == [] {
      assert buffer[|before|..] == rest;
      StopsExactly(buffer, |before|);
    } else {
      var b := blocks[0];
      assert b in blocks;
      ElementNotEmpty(b);
      var end := |before| + |b|;
      assert buffer[|before|..end] == b;
      ElementEndIs(buffer, |before|, end);
      assert buffer == (before + b) + Flatten(blocks[1..]) + rest;
      SplitIsUnique(blocks[1..], rest, before + b);
    }
  }

  lemma StartsNoElementInNothing()
    ensures StartsNoElement([])
  {
    forall n: nat | n <= 0
      ensures !IsElement(SEQUENCE, [][..n])
    {
      if IsElement(SEQUENCE, [][..n]) {
        ElementNotEmpty([][..n]);
        assert false;
      }
    }
  }

  /** Splitting undoes concatenation. */
  lemma SplitOfConcatenation(certs: seq<seq<byte>>)
    requires AllElements(certs)
    ensures SplitFrom(Flatten(certs), 0) == certs
  {
    hide SplitFrom;
    StartsNoElementInNothing();
    SplitIsUnique(certs, [], []);
    assert [] + Flatten(certs) + [] == Flatten(certs);
  }

  /** Once `a` is wholly consumed, appending `b` appends the split of `b`. */
  lemma SplitComposes(a: seq<byte>, b: seq<byte>)
    requires Flatten(SplitFrom(a, 0)) == a
    ensures SplitFrom(a + b, 0) == SplitFrom(a, 0) + SplitFrom(b, 0)
  {
    hide SplitFrom, StartsNoElement, IsElement;
    SplitIsExact(a, 0);
    SplitIsExact(b, 0);
    assert a[0..] == a && b[0..] == b;
    var x, y := SplitFrom(a, 0), SplitFrom(b, 0);
    var rest := b[|Flatten(y)|..];
    FlattenAppend(x, y);
    assert AllElements(x + y);
    SplitIsUnique(x + y, rest, []);
    assert b == Flatten(y) + rest;
    assert [] + Flatten(x + y) + rest == a + b;
  }
}
