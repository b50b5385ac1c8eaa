/** Bitwise operators on natural numbers, and when they are arithmetic. */
module Bits {
  import opened Machine

  ghost predicate Bit(x: nat, k: nat) {
    x / Pow2(k) % 2 == 1
  }

  function BitOr(x: nat, y: nat): nat {
    if x == 0 && y == 0 then 0
    else (if x % 2 == 1 || y % 2 == 1 then 1 else 0) + 2 * BitOr(x / 2, y / 2)
  }

  function BitAnd(x: nat, y: nat): nat {
    if x == 0 || y == 0 then 0
    else (if x % 2 == 1 && y % 2 == 1 then 1 else 0) + 2 * BitAnd(x / 2, y / 2)
  }

  lemma {:induction false} OrZero(y: nat)
    ensures BitOr(0, y) == y
  {
    if y != 0 { OrZero(y / 2); }
  }

  /** OR of numbers without a common bit, the second one shifted past the first,
      is their sum. */
  lemma {:induction false} OrIsSum(x: nat, y: nat, k: nat)
    requires x < Pow2(k)
    ensures BitOr(x, y * Pow2(k)) == x + y * Pow2(k)
  {
    if k == 0 {
      OrZero(y);
    } else {
      var half := y * Pow2(k - 1);
      assert y * Pow2(k) == 2 * half;
      OrIsSum(x / 2, y, k - 1);
    }
  }

  /** AND with k ones keeps the low k bits. */
  lemma {:induction false} AndLowBits(x: nat, k: nat)
    ensures BitAnd(x, Pow2(k) - 1) == x % Pow2(k)
  {
    hide BitAnd;
    if k == 0 {
      AndNothing(x);
    } else {
      var h := Pow2(k - 1);
      AndLowBits(x / 2, k - 1);
      AndOnes(x, h);
      ModOfDouble(x, h);
    }
  }

  lemma AndNothing(x: nat)
    ensures BitAnd(x, 0) == 0 && x % 1 == 0
  {
  }

  lemma AndOnes(x: nat, h: nat)
    requires h > 0
    ensures BitAnd(x, 2 * h - 1) == x % 2 + 2 * BitAnd(x / 2, h - 1)
  {
    AndUnfold(x, 2 * h - 1);
    HalfOfOdd(h);
  }

  lemma HalfOfOdd(h: nat)
    requires h > 0
    ensures (2 * h - 1) / 2 == h - 1 && (2 * h - 1) % 2 == 1
  {
  }

  lemma ModOfDouble(x: nat, h: nat)
    requires h > 0
    ensures x % (2 * h) == x % 2 + 2 * (x / 2 % h)
  {
    var q, r := x / 2 / h, x / 2 % h;
    assert x / 2 == q * h + r;
    assert x == q * (2 * h) + (x % 2 + 2 * r) by { assert q * (2 * h) == 2 * (q * h); }
    DivModUnique(x, 2 * h, q, x % 2 + 2 * r);
  }

  lemma DivModUnique(x: int, d: int, q: int, r: int)
    requires d > 0 && 0 <= r < d && x == q * d + r
    ensures x / d == q && x % d == r
  {
    var q', r' := x / d, x % d;
    assert x == q' * d + r';
    assert (q - q') * d == r' - r;
    MultipleBound(q - q', d);
  }

  lemma MultipleBound(t: int, d: int)
    requires d > 0
    ensures t >= 1 ==> t * d >= d
    ensures t <= -1 ==> t * d <= -d
  {
  }

  lemma BitOfHalf(x: nat, k: nat)
    requires k > 0
    ensures Bit(x, k) == Bit(x / 2, k - 1)
  {
    var h := Pow2(k - 1);
    var q, r := x / 2 / h, x / 2 % h;
    assert x / 2 == q * h + r;
    assert x == q * (2 * h) + (x % 2 + 2 * r) by { assert q * (2 * h) == 2 * (q * h); }
    DivModUnique(x, 2 * h, q, x % 2 + 2 * r);
  }

  lemma BitZero(x: nat)
    ensures Bit(x, 0) == (x % 2 == 1)
  {
  }

  /** Masked comparison asks for agreement on exactly the mask's bits. */
  lemma {:induction false} AndAgrees(x: nat, y: nat, mask: nat)
    ensures BitAnd(x, mask) == BitAnd(y, mask) <==>
            forall k: nat :: Bit(mask, k) ==> Bit(x, k) == Bit(y, k)
    decreases mask
  {
    if mask == 0 {
      forall k: nat ensures !Bit(mask, k) { ZeroDiv(Pow2(k)); }
    } else {
      AndAgrees(x / 2, y / 2, mask / 2);
      AndUnfold(x, mask);
      AndUnfold(y, mask);
      if BitAnd(x, mask) == BitAnd(y, mask) {
        forall k: nat | Bit(mask, k) ensures Bit(x, k) == Bit(y, k) {
          if k == 0 { BitZero(x); BitZero(y); BitZero(mask); }
          else { BitOfHalf(x, k); BitOfHalf(y, k); BitOfHalf(mask, k); }
        }
      }
      if forall k: nat :: Bit(mask, k) ==> Bit(x, k) == Bit(y, k) {
        BitZero(x); BitZero(y); BitZero(mask);
        assert Bit(mask, 0) ==> Bit(x, 0) == Bit(y, 0);
        forall k: nat | Bit(mask / 2, k) ensures Bit(x / 2, k) == Bit(y / 2, k) {
          BitOfHalf(x, k + 1); BitOfHalf(y, k + 1); BitOfHalf(mask, k + 1);
        }
      }
    }
  }

  lemma ZeroDiv(d: nat)
    requires d > 0
    ensures 0 / d == 0
  {
    DivModUnique(0, d, 0, 0);
  }

  lemma {:induction false} AndUnfold(x: nat, mask: nat)
    ensures BitAnd(x, mask) ==
            (if x % 2 == 1 && mask % 2 == 1 then 1 else 0) + 2 * BitAnd(x / 2, mask / 2)
  {
  }
}
