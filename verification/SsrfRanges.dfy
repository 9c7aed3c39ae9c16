/** api/ssrf_guard.js, ranges: what the mask loop of a CIDR block means as numbers. */
module SsrfRanges {
  import opened Bytes
  import opened Bits

  datatype Address = Address(bytes: seq<byte>, family: nat)

  datatype Range =
    | Span(family: nat, lo: seq<byte>, hi: seq<byte>, text: string)
    | Cidr(family: nat, bytes: seq<byte>, prefix: nat, text: string)

  function Size(family: nat): nat {
    if family == 4 then 4 else 16
  }

  predicate WellFormed(a: Address) {
    (a.family == 4 || a.family == 6) && |a.bytes| == Size(a.family)
  }

  predicate WellFormedRange(r: Range) {
    && (r.family == 4 || r.family == 6)
    && match r
       case Span(_, lo, hi, _) => |lo| == |hi| == Size(r.family)
       case Cidr(_, bytes, prefix, _) => |bytes| == Size(r.family) && prefix <= 8 * Size(r.family)
  }

  // ---------------------------------------------------------- byte comparison

  /** -1, 0 or 1, as `compareBytes` answers for two addresses of one family. */
  function Compare(a: seq<byte>, b: seq<byte>): int
    requires |a| == |b|
  {
    if a == [] then 0
    else if a[0] != b[0] then (if a[0] < b[0] then -1 else 1)
    else Compare(a[1..], b[1..])
  }

  method CompareBytes(a: seq<byte>, b: seq<byte>) returns (c: int)
    requires |a| == |b|
    ensures c == Compare(a, b)
  {
    for i := 0 to |a|
      invariant Compare(a, b) == Compare(a[i..], b[i..])
    {
      if a[i] != b[i] {
        return if a[i] < b[i] then -1 else 1;
      }
      assert a[i..][1..] == a[i + 1..] && b[i..][1..] == b[i + 1..];
    }
    return 0;
  }

  /** Comparing bytes is comparing the big-endian numbers they spell. */
  lemma {:induction false} CompareIsOrder(a: seq<byte>, b: seq<byte>)
    requires |a| == |b|
    ensures Compare(a, b) < 0 <==> Value(a) < Value(b)
    ensures Compare(a, b) == 0 <==> Value(a) == Value(b)
  {
    if a != [] {
      hide Value;
      var w := Pow(256, |a| - 1);
      ValueHead(a);
      ValueHead(b);
      ValueBound(a[1..]);
      ValueBound(b[1..]);
      MulLess(a[0], b[0], w);
      MulLess(b[0], a[0], w);
      CompareIsOrder(a[1..], b[1..]);
    }
  }

  // ------------------------------------------------------------ the mask loop

  predicate MaskMatch(a: seq<byte>, b: seq<byte>, remaining: nat)
    requires |a| == |b|
  {
    if a == [] || remaining == 0 then true
    else
      var take := if remaining < 8 then remaining else 8;
      BitAnd(a[0], Mask(take)) == BitAnd(b[0], Mask(take)) && MaskMatch(a[1..], b[1..], remaining - take)
  }

  predicate Within(a: Address, r: Range)
    requires WellFormed(a) && WellFormedRange(r)
  {
    && a.family == r.family
    && match r
       case Span(_, lo, hi, _) => Compare(a.bytes, lo) >= 0 && Compare(a.bytes, hi) <= 0
       case Cidr(_, bytes, prefix, _) => MaskMatch(a.bytes, bytes, prefix)
  }

  method WithinRange(a: Address, r: Range) returns (inside: bool)
    requires WellFormed(a) && WellFormedRange(r)
    ensures inside == Within(a, r)
  {
    if a.family != r.family {
      return false;
    }
    if r.Span? {
      var low := CompareBytes(a.bytes, r.lo);
      var high := CompareBytes(a.bytes, r.hi);
      return low >= 0 && high <= 0;
    }
    var remaining, i := r.prefix, 0;
    while i < |a.bytes| && remaining > 0
      invariant i <= |a.bytes|
      invariant MaskMatch(a.bytes, r.bytes, r.prefix) == MaskMatch(a.bytes[i..], r.bytes[i..], remaining)
    {
      var take := if remaining < 8 then remaining else 8;
      var mask := Mask(take);
      assert a.bytes[i..][1..] == a.bytes[i + 1..] && r.bytes[i..][1..] == r.bytes[i + 1..];
      if BitAnd(a.bytes[i], mask) != BitAnd(r.bytes[i], mask) {
        return false;
      }
      remaining := remaining - take;
      i := i + 1;
    }
    return true;
  }

  /** The size of a block of addresses of `n` bytes with `prefix` bits fixed. */
  function BlockSize(n: nat, prefix: nat): (d: nat)
    requires prefix <= 8 * n
    ensures d > 0
  {
    Pow(2, 8 * n - prefix)
  }

  lemma {:induction false} Pow256(n: nat)
    ensures Pow(256, n) == Pow(2, 8 * n)
  {
    if n > 0 {
      Pow256(n - 1);
      PowersOfTwo();
      PowAdd(2, 8, 8 * (n - 1));
    }
  }

  /** (h * (m * d) + v) / d */
  lemma DivHigh(x: nat, h: nat, m: nat, d: nat, v: nat)
    requires d > 0 && x == h * (m * d) + v
    ensures x / d == h * m + v / d
  {
    assert v == v / d * d + v % d;
    assert h * (m * d) == (h * m) * d;
    assert (h * m) * d + v / d * d == (h * m + v / d) * d;
    DivIs(x, d, h * m + v / d, v % d);
  }

  /** (h * w + v) / (k * w), when v is below w */
  lemma DivTop(h: nat, w: nat, v: nat, k: nat)
    requires k > 0 && v < w
    ensures k * w > 0 && (h * w + v) / (k * w) == h / k
  {
    var q, r := h / k, h % k;
    assert h == q * k + r;
    assert h * w == q * (k * w) + r * w;
    MulLess(r, k, w);
    DivIs(h * w + v, k * w, q, r * w + v);
  }

  /** h * m + v decides h and v when v is below m */
  lemma HighLowUnique(h: nat, v: nat, g: nat, u: nat, m: nat)
    requires v < m && u < m
    ensures h * m + v == g * m + u <==> h == g && v == u
  {
    MulLess(h, g, m);
    MulLess(g, h, m);
  }

  lemma DivBelow(v: nat, m: nat, d: nat)
    requires d > 0 && v < m * d
    ensures v / d < m
  {
    assert v == v / d * d + v % d;
    MulLess(m - 1, v / d, d);
    if v / d >= m {
      MulAtLeast(v / d, m, d);
      assert false;
    }
  }

  lemma MulAtLeast(a: nat, b: nat, d: nat)
    requires a >= b
    ensures a * d >= b * d
  {
    MulLess(b, a, d);
  }

  /** The mask loop agrees with integers: two addresses match on `prefix` bits exactly
      when their big-endian values are equal after division by 2^(bits - prefix). */
  lemma {:induction false} MaskIsDivision(a: seq<byte>, b: seq<byte>, prefix: nat)
    requires |a| == |b| && prefix <= 8 * |a|
    ensures MaskMatch(a, b, prefix) <==>
            Value(a) / BlockSize(|a|, prefix) == Value(b) / BlockSize(|a|, prefix)
  {
    hide Value, BitAnd, Mask;
    ValueBound(a);
    ValueBound(b);
    Pow256(|a|);
    if prefix == 0 {
      ZeroDiv(Value(a), BlockSize(|a|, prefix));
      ZeroDiv(Value(b), BlockSize(|a|, prefix));
    } else {
      var n := |a| - 1;
      ValueHead(a);
      ValueHead(b);
      ValueBound(a[1..]);
      ValueBound(b[1..]);
      Pow256(n);
      if prefix >= 8 {
        WholeByteMask(a, b, prefix);
        WholeByte(a, b, prefix);
        MaskIsDivision(a[1..], b[1..], prefix - 8);
      } else {
        PartByte(a, b, prefix);
      }
    }
  }

  lemma ZeroDiv(v: nat, d: nat)
    requires v < d
    ensures v / d == 0
  {
    DivIs(v, d, 0, v);
  }

  /** The quotient of h * (m * d) + v by d, when v is below m * d. */
  lemma HighQuotient(x: nat, h: nat, v: nat, m: nat, d: nat)
    requires d > 0 && v < m * d && x == h * (m * d) + v
    ensures x / d == h * m + v / d && v / d < m
  {
    DivHigh(x, h, m, d, v);
    DivBelow(v, m, d);
  }

  lemma HighLowDivision(x: nat, h: nat, v: nat, y: nat, g: nat, u: nat, m: nat, d: nat)
    requires d > 0 && v < m * d && u < m * d
    requires x == h * (m * d) + v && y == g * (m * d) + u
    ensures x / d == y / d <==> h == g && v / d == u / d
  {
    HighQuotient(x, h, v, m, d);
    HighQuotient(y, g, u, m, d);
    HighLowUnique(h, v / d, g, u / d, m);
  }

  lemma WholeByteMask(a: seq<byte>, b: seq<byte>, prefix: nat)
    requires |a| == |b| > 0 && 8 <= prefix
    ensures MaskMatch(a, b, prefix) <==> a[0] == b[0] && MaskMatch(a[1..], b[1..], prefix - 8)
  {
    hide BitAnd, Mask;
    MaskKeepsHighBits(a[0], b[0], 8);
    PowersOfTwo();
  }

  lemma WholeByte(a: seq<byte>, b: seq<byte>, prefix: nat)
    requires |a| == |b| > 0 && 8 <= prefix <= 8 * |a|
    ensures Value(a) / BlockSize(|a|, prefix) == Value(b) / BlockSize(|a|, prefix) <==>
            a[0] == b[0] &&
            Value(a[1..]) / BlockSize(|a| - 1, prefix - 8) == Value(b[1..]) / BlockSize(|a| - 1, prefix - 8)
  {
    hide Value, Pow;
    var n := |a| - 1;
    var d, m := BlockSize(n, prefix - 8), Pow(2, prefix - 8);
    Pow256(n);
    PowAdd(2, prefix - 8, 8 * n - (prefix - 8));
    ValueHead(a);
    ValueHead(b);
    ValueBound(a[1..]);
    ValueBound(b[1..]);
    HighLowDivision(Value(a), a[0], Value(a[1..]), Value(b), b[0], Value(b[1..]), m, d);
  }

  lemma PartByte(a: seq<byte>, b: seq<byte>, prefix: nat)
    requires |a| == |b| > 0 && 0 < prefix < 8
    ensures MaskMatch(a, b, prefix) <==>
            Value(a) / BlockSize(|a|, prefix) == Value(b) / BlockSize(|a|, prefix)
  {
    hide Value, BitAnd, Mask;
    MaskKeepsHighBits(a[0], b[0], prefix);
    var n := |a| - 1;
    var k, w := Pow(2, 8 - prefix), Pow(256, n);
    Pow256(n);
    PowAdd(2, 8 - prefix, 8 * n);
    assert BlockSize(|a|, prefix) == k * w;
    ValueHead(a);
    ValueHead(b);
    ValueBound(a[1..]);
    ValueBound(b[1..]);
    DivTop(a[0], w, Value(a[1..]), k);
    DivTop(b[0], w, Value(b[1..]), k);
  }

  // ------------------------------------------------------ blocks as intervals

  /** First and last number of the block `v` lies in. */
  function First(v: nat, d: nat): nat
    requires d > 0
  {
    v / d * d
  }

  lemma BlockIsInterval(x: nat, v: nat, d: nat)
    requires d > 0
    ensures x / d == v / d <==> First(v, d) <= x <= First(v, d) + (d - 1)
  {
    assert x == x / d * d + x % d;
    MulLess(x / d, v / d, d);
    MulLess(v / d, x / d, d);
  }

  lemma BlockBelow(v: nat, m: nat, d: nat)
    requires d > 0 && v < m * d
    ensures First(v, d) + (d - 1) < m * d
  {
    DivBelow(v, m, d);
    MulLess(v / d, m, d);
  }

  lemma BlockFits(v: nat, n: nat, prefix: nat)
    requires prefix <= 8 * n && v < Pow(256, n)
    ensures First(v, BlockSize(n, prefix)) + (BlockSize(n, prefix) - 1) < Pow(256, n)
  {
    hide Pow, First;
    Pow256(n);
    PowAdd(2, prefix, 8 * n - prefix);
    BlockBelow(v, Pow(2, prefix), BlockSize(n, prefix));
  }

  function FirstOf(bytes: seq<byte>, prefix: nat): (r: seq<byte>)
    requires prefix <= 8 * |bytes|
    ensures |r| == |bytes|
  {
    ValueBound(bytes);
    BlockFits(Value(bytes), |bytes|, prefix);
    Spell(First(Value(bytes), BlockSize(|bytes|, prefix)), |bytes|)
  }

  function LastOf(bytes: seq<byte>, prefix: nat): (r: seq<byte>)
    requires prefix <= 8 * |bytes|
    ensures |r| == |bytes|
  {
    ValueBound(bytes);
    BlockFits(Value(bytes), |bytes|, prefix);
    var d := BlockSize(|bytes|, prefix);
    Spell(First(Value(bytes), d) + (d - 1), |bytes|)
  }

  function PairOf(r: Range): Range
    requires WellFormedRange(r) && r.Cidr?
  {
    Span(r.family, FirstOf(r.bytes, r.prefix), LastOf(r.bytes, r.prefix), r.text)
  }

  /** Written as its first and last address, a CIDR block holds the same addresses. */
  lemma CidrIsItsPair(a: Address, r: Range)
    requires WellFormed(a) && WellFormedRange(r) && r.Cidr?
    ensures WellFormedRange(PairOf(r)) && Within(a, PairOf(r)) == Within(a, r)
  {
    hide Value, Spell, MaskMatch, Compare;
    if a.family == r.family {
      var d := BlockSize(|r.bytes|, r.prefix);
      MaskIsDivision(a.bytes, r.bytes, r.prefix);
      BlockIsInterval(Value(a.bytes), Value(r.bytes), d);
      CompareIsOrder(a.bytes, FirstOf(r.bytes, r.prefix));
      CompareIsOrder(a.bytes, LastOf(r.bytes, r.prefix));
    }
  }

  /** A division done in two steps. */
  lemma DivDiv(x: nat, d: nat, m: nat)
    requires d > 0 && m > 0
    ensures d * m > 0 && x / (d * m) == x / d / m
  {
    QuotientOfQuotient(x, d, m, x / d, x % d, x / d / m, x / d % m);
  }

  lemma QuotientOfQuotient(x: nat, d: nat, m: nat, y: nat, r: nat, q: nat, s: nat)
    requires x == y * d + r && r < d && y == q * m + s && s < m
    ensures d * m > 0 && x / (d * m) == q
  {
    MulLess(s, m, d);
    TwoSteps(q, m, s, d, r);
    DivIs(x, d * m, q, s * d + r);
  }

  lemma TwoSteps(q: nat, m: nat, s: nat, d: nat, r: nat)
    ensures (q * m + s) * d + r == q * (d * m) + (s * d + r)
  {
  }

  lemma SameInLarger(x: nat, y: nat, d: nat, m: nat)
    requires d > 0 && m > 0 && x / d == y / d
    ensures d * m > 0 && x / (d * m) == y / (d * m)
  {
    DivDiv(x, d, m);
    DivDiv(y, d, m);
  }

  lemma BlockSizeGrows(n: nat, wide: nat, narrow: nat)
    requires wide <= narrow <= 8 * n
    ensures BlockSize(n, wide) == BlockSize(n, narrow) * Pow(2, narrow - wide)
  {
    PowAdd(2, 8 * n - narrow, narrow - wide);
  }

  /** Two blocks of one family are nested or disjoint: if they share one address, the
      longer prefix's block lies wholly inside the shorter's. */
  lemma NestedOrDisjoint(wide: Range, narrow: Range, shared: Address, a: Address)
    requires WellFormedRange(wide) && wide.Cidr? && WellFormedRange(narrow) && narrow.Cidr?
    requires wide.prefix <= narrow.prefix
    requires WellFormed(shared) && WellFormed(a)
    requires Within(shared, wide) && Within(shared, narrow)
    ensures Within(a, narrow) ==> Within(a, wide)
  {
    hide Value, MaskMatch, Pow, BlockSize;
    var n := |wide.bytes|;
    var d, m := BlockSize(n, narrow.prefix), Pow(2, narrow.prefix - wide.prefix);
    BlockSizeGrows(n, wide.prefix, narrow.prefix);
    MaskIsDivision(shared.bytes, wide.bytes, wide.prefix);
    MaskIsDivision(shared.bytes, narrow.bytes, narrow.prefix);
    if a.family == wide.family {
      MaskIsDivision(a.bytes, wide.bytes, wide.prefix);
      MaskIsDivision(a.bytes, narrow.bytes, narrow.prefix);
      if Within(a, narrow) {
        SameInLarger(Value(a.bytes), Value(shared.bytes), d, m);
      }
    }
  }
}
