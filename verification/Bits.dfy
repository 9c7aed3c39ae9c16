/** The bitwise `&` of naturals, and what the masks of a prefix length keep. */
module Bits {
  import opened Bytes

  function BitAnd(a: nat, b: nat): nat {
    if a == 0 || b == 0 then 0
    else (if a % 2 == 1 && b % 2 == 1 then 1 else 0) + 2 * BitAnd(a / 2, b / 2)
  }

  lemma AndEven(a: nat, m: nat)
    ensures BitAnd(a, 2 * m) == 2 * BitAnd(a / 2, m)
  {
  }

  lemma AndOdd(a: nat, m: nat)
    ensures BitAnd(a, 2 * m + 1) == a % 2 + 2 * BitAnd(a / 2, m)
  {
  }

  /** Quotient and remainder are unique. */
  lemma DivIs(a: nat, d: nat, q: nat, r: nat)
    requires d > 0 && a == q * d + r && r < d
    ensures a % d == r && a / d == q
  {
    assert a == a / d * d + a % d;
    var k := a / d;
    MulLess(k, q, d);
    MulLess(q, k, d);
  }

  lemma MulLess(a: nat, b: nat, d: nat)
    ensures a < b ==> a * d + d <= b * d
  {
    if a < b {
      var e := b - a - 1;
      assert (a + 1 + e) * d == a * d + d + e * d;
    }
  }

  lemma HalfMod(a: nat, p: nat)
    requires p > 0
    ensures a % (2 * p) == a % 2 + 2 * (a / 2 % p)
  {
    var h := a / 2;
    assert h == h / p * p + h % p;
    assert a == h / p * (2 * p) + (2 * (h % p) + a % 2);
    DivIs(a, 2 * p, h / p, 2 * (h % p) + a % 2);
  }

  lemma HalfDiv(a: nat, p: nat)
    requires p > 0
    ensures a / (2 * p) == a / 2 / p
  {
    var h := a / 2;
    assert h == h / p * p + h % p;
    assert a == h / p * (2 * p) + (2 * (h % p) + a % 2);
    DivIs(a, 2 * p, h / p, 2 * (h % p) + a % 2);
  }

  lemma SmallMod(x: nat, d: nat)
    requires x < d
    ensures x % d == x
  {
  }

  lemma {:induction false} AndLow(a: nat, t: nat)
    ensures BitAnd(a, Pow(2, t) - 1) == a % Pow(2, t)
  {
    if t > 0 {
      var p := Pow(2, t - 1);
      AndLow(a / 2, t - 1);
      AndOdd(a, p - 1);
      HalfMod(a, p);
    }
  }

  /** `t` one bits followed by `k` zero bits. */
  function HighMask(t: nat, k: nat): nat {
    if k == 0 then Pow(2, t) - 1 else 2 * HighMask(t, k - 1)
  }

  lemma {:induction false} HighMaskIs(t: nat, k: nat)
    ensures HighMask(t, k) == Pow(2, t + k) - Pow(2, k)
  {
    if k > 0 {
      HighMaskIs(t, k - 1);
    }
  }

  lemma {:induction false} SameHighBits(a: nat, b: nat, t: nat, k: nat)
    requires a < Pow(2, t + k) && b < Pow(2, t + k)
    ensures BitAnd(a, HighMask(t, k)) == BitAnd(b, HighMask(t, k)) <==> a / Pow(2, k) == b / Pow(2, k)
  {
    if k == 0 {
      AndLow(a, t);
      AndLow(b, t);
      SmallMod(a, Pow(2, t));
      SmallMod(b, Pow(2, t));
      assert a / 1 == a && b / 1 == b;
    } else {
      SameHighBits(a / 2, b / 2, t, k - 1);
      AndEven(a, HighMask(t, k - 1));
      AndEven(b, HighMask(t, k - 1));
      HalfDiv(a, Pow(2, k - 1));
      HalfDiv(b, Pow(2, k - 1));
    }
  }

  lemma PowersOfTwo()
    ensures Pow(2, 0) == 1 && Pow(2, 1) == 2 && Pow(2, 2) == 4 && Pow(2, 3) == 8 && Pow(2, 4) == 16
    ensures Pow(2, 5) == 32 && Pow(2, 6) == 64 && Pow(2, 7) == 128 && Pow(2, 8) == 256
  {
  }

  /** The mask of a byte of which `take` bits still count:
      `take == 8 ? 0xff : (0xff << (8 - take)) & 0xff`. */
  function Mask(take: nat): nat
    requires 1 <= take <= 8
  {
    if take == 8 then 0xff else BitAnd(0xff * Pow(2, 8 - take), 0xff)
  }

  lemma AndByte(a: nat)
    ensures BitAnd(a, 0xff) == a % 256
  {
    PowersOfTwo();
    AndLow(a, 8);
  }

  lemma ShiftedMask(x: nat, p: nat)
    requires 1 < p <= 128 && x == 256 * p - p
    ensures x % 256 == 256 - p
  {
    assert x == (p - 1) * 256 + (256 - p);
  }

  lemma MaskIs(take: nat)
    requires 1 <= take <= 8
    ensures Mask(take) == HighMask(take, 8 - take)
  {
    hide BitAnd;
    PowersOfTwo();
    HighMaskIs(take, 8 - take);
    if take < 8 {
      var p := Pow(2, 8 - take);
      ShiftedMask(0xff * p, p);
      AndByte(0xff * p);
    }
  }

  /** Two bytes agree under the mask exactly when their first `take` bits agree. */
  lemma MaskKeepsHighBits(a: byte, b: byte, take: nat)
    requires 1 <= take <= 8
    ensures BitAnd(a, Mask(take)) == BitAnd(b, Mask(take)) <==> a / Pow(2, 8 - take) == b / Pow(2, 8 - take)
  {
    hide BitAnd, Mask, HighMask;
    PowersOfTwo();
    MaskIs(take);
    SameHighBits(a, b, take, 8 - take);
  }
}
