/** Byte strings, searching and big-endian numbers, shared by every other module. */
module Bytes {
  type byte = x: int | 0 <= x < 256

  /** What a function of the program gives back when it can also throw or answer null. */
  datatype Result<+T, +E> = Ok(value: T) | Err(error: E)
  datatype Option<+T> = None | Some(value: T)

  // ---------------------------------------------------------------- sequences

  function Flatten<T>(parts: seq<seq<T>>): seq<T> {
    if parts == [] then [] else parts[0] + Flatten(parts[1..])
  }

  lemma {:induction false} FlattenAppend<T>(a: seq<seq<T>>, b: seq<seq<T>>)
    ensures Flatten(a + b) == Flatten(a) + Flatten(b)
  {
    if a == [] {
      assert a + b == b;
    } else {
      assert (a + b)[0] == a[0] && (a + b)[1..] == a[1..] + b;
      FlattenAppend(a[1..], b);
    }
  }

  lemma FlattenSnoc<T>(a: seq<seq<T>>, x: seq<T>)
    ensures Flatten(a + [x]) == Flatten(a) + x
  {
    FlattenAppend(a, [x]);
    assert Flatten([x]) == x + Flatten<T>([]);
  }

  /** The lengths of all parts together. */
  function Total<T>(parts: seq<seq<T>>): nat {
    |Flatten(parts)|
  }

  lemma TotalSnoc<T>(parts: seq<seq<T>>, x: seq<T>)
    ensures Total(parts + [x]) == Total(parts) + |x|
  {
    FlattenSnoc(parts, x);
  }

  lemma TakeBeyond<T>(a: seq<T>, b: seq<T>, k: nat)
    requires |a| <= k <= |a + b|
    ensures (a + b)[..k] == a + b[..k - |a|]
  {
  }

  lemma SliceWithin<T>(a: seq<T>, b: seq<T>, i: nat, j: nat)
    requires i <= j <= |a|
    ensures (a + b)[i..j] == a[i..j]
  {
  }

  lemma SliceBeyond<T>(a: seq<T>, b: seq<T>, i: nat, j: nat)
    requires i <= j <= |b|
    ensures (a + b)[|a| + i..|a| + j] == b[i..j]
  {
  }

  // ---------------------------------------------------------------- searching

  predicate OccursAt<T(==)>(s: seq<T>, pat: seq<T>, at: nat) {
    at + |pat| <= |s| && s[at..at + |pat|] == pat
  }

  /** `indexOf(pat, from)`: the first occurrence at or after `from`, or -1. */
  function Find<T(==)>(s: seq<T>, pat: seq<T>, from: nat): (r: int)
    ensures r == -1 || (from <= r && OccursAt(s, pat, r))
    ensures r != -1 ==> forall j: nat :: from <= j < r ==> !OccursAt(s, pat, j)
    ensures r == -1 ==> forall j: nat :: from <= j ==> !OccursAt(s, pat, j)
    decreases |s| - from
  {
    if from + |pat| > |s| then -1
    else if s[from..from + |pat|] == pat then from
    else Find(s, pat, from + 1)
  }

  /** An occurrence with none before it is the one `Find` reports. */
  lemma FindIs<T>(s: seq<T>, pat: seq<T>, from: nat, at: nat)
    requires from <= at && OccursAt(s, pat, at)
    requires forall j: nat :: from <= j < at ==> !OccursAt(s, pat, j)
    ensures Find(s, pat, from) == at
  {
  }

  /** More input never moves an occurrence already found. */
  lemma FindExtend<T>(s: seq<T>, t: seq<T>, pat: seq<T>, from: nat)
    requires Find(s, pat, from) != -1
    ensures Find(s + t, pat, from) == Find(s, pat, from)
  {
    var r := Find(s, pat, from);
    assert (s + t)[r..r + |pat|] == s[r..r + |pat|];
    forall j: nat | from <= j < r
      ensures !OccursAt(s + t, pat, j)
    {
      assert !OccursAt(s, pat, j) && j + |pat| <= |s|;
      assert (s + t)[j..j + |pat|] == s[j..j + |pat|];
    }
    FindIs(s + t, pat, from, r);
  }

  /** Dropping what lies before the search only shifts the answer. */
  lemma FindShift<T>(p: seq<T>, s: seq<T>, pat: seq<T>, from: nat)
    ensures Find(p + s, pat, |p| + from) ==
            if Find(s, pat, from) == -1 then -1 else |p| + Find(s, pat, from)
  {
    forall i: nat | |p| <= i
      ensures OccursAt(p + s, pat, i) <==> OccursAt(s, pat, i - |p|)
    {
      if i - |p| + |pat| <= |s| {
        assert (p + s)[i..i + |pat|] == s[i - |p|..i - |p| + |pat|];
      }
    }
    var q := Find(s, pat, from);
    if q != -1 {
      assert OccursAt(p + s, pat, |p| + q);
    }
  }

  // ------------------------------------------------------- big-endian numbers

  function Pow(b: nat, n: nat): (p: nat)
    ensures b > 0 ==> p > 0
  {
    if n == 0 then 1 else b * Pow(b, n - 1)
  }

  lemma {:induction false} PowAdd(b: nat, m: nat, n: nat)
    ensures Pow(b, m + n) == Pow(b, m) * Pow(b, n)
  {
    if m > 0 {
      PowAdd(b, m - 1, n);
      MulAssociates(b, Pow(b, m - 1), Pow(b, n));
    }
  }

  lemma MulAssociates(a: nat, b: nat, c: nat)
    ensures a * (b * c) == (a * b) * c
  {
  }

  /** The number a run of bytes spells, most significant first: the loop
      `length = length * 256 + byte` the three length readers share. */
  function Value(bs: seq<byte>): nat {
    if bs == [] then 0 else Value(bs[..|bs| - 1]) * 256 + bs[|bs| - 1]
  }

  lemma {:induction false} ValueAppend(a: seq<byte>, b: seq<byte>)
    ensures Value(a + b) == Value(a) * Pow(256, |b|) + Value(b)
  {
    if b == [] {
      assert a + b == a;
    } else {
      var n := |b| - 1;
      ValueAppend(a, b[..n]);
      assert (a + b)[..|a + b| - 1] == a + b[..n];
      var v, p := Value(a), Pow(256, n);
      assert Value(a + b) == (v * p + Value(b[..n])) * 256 + b[n];
      assert (v * p) * 256 == v * (256 * p);
    }
  }

  lemma {:induction false} ValueBound(bs: seq<byte>)
    ensures Value(bs) < Pow(256, |bs|)
  {
    if bs != [] {
      ValueBound(bs[..|bs| - 1]);
    }
  }

  lemma ValueHead(bs: seq<byte>)
    requires bs != []
    ensures Value(bs) == bs[0] * Pow(256, |bs| - 1) + Value(bs[1..])
  {
    ValueAppend(bs[..1], bs[1..]);
    assert bs[..1] + bs[1..] == bs && bs[..1][..0] == [];
    assert Value(bs[..1]) == bs[0];
  }

  /** `n` bytes spelling `v`: the inverse of `Value`. */
  function Spell(v: nat, n: nat): (bs: seq<byte>)
    requires v < Pow(256, n)
    ensures |bs| == n && Value(bs) == v
  {
    if n == 0 then [] else
      assert v / 256 < Pow(256, n - 1);
      var front := Spell(v / 256, n - 1);
      assert (front + [v % 256])[..n - 1] == front;
      front + [v % 256]
  }

  lemma {:induction false} ValueInjective(a: seq<byte>, b: seq<byte>)
    requires |a| == |b| && Value(a) == Value(b)
    ensures a == b
  {
    if a != [] {
      var n := |a| - 1;
      assert a == a[..n] + [a[n]] && b == b[..n] + [b[n]];
      ValueInjective(a[..n], b[..n]);
    }
  }
}
