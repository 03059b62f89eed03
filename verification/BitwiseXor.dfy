// Exclusive or on natural numbers, bit by bit, with the laws cuckoo hashing relies on.
module BitwiseXor {
  import opened Common

  function Pow2(k: nat): (p: nat)
    ensures p > 0
  {
    if k == 0 then 1 else 2 * Pow2(k - 1)
  }

  // a & (2^k - 1)
  function Mask(a: nat, k: nat): (m: nat)
    ensures m < Pow2(k)
  {
    a % Pow2(k)
  }

  function Xor(a: nat, b: nat): nat
    decreases a + b
  {
    if a == 0 && b == 0 then 0
    else (a + b) % 2 + 2 * Xor(a / 2, b / 2)
  }

  lemma {:induction false} XorCancels(a: nat, b: nat)
    ensures Xor(Xor(a, b), b) == a
    decreases a + b
  {
    if a + b > 0 {
      XorCancels(a / 2, b / 2);
      XorCancelsStep(a, b);
    }
  }

  lemma XorCancelsStep(a: nat, b: nat)
    requires Xor(Xor(a / 2, b / 2), b / 2) == a / 2
    ensures Xor(Xor(a, b), b) == a
  {
    hide Xor;
    var x := Xor(a, b);
    XorHalves(a, b);
    XorHalves(x, b);
    SameLastBit(a, b, x);
    SameNumber(Xor(x, b), a);
  }

  lemma SameLastBit(a: nat, b: nat, x: nat)
    requires x % 2 == (a + b) % 2
    ensures (x + b) % 2 == a % 2
  {
  }

  lemma SameNumber(x: nat, y: nat)
    requires x / 2 == y / 2 && x % 2 == y % 2
    ensures x == y
  {
  }

  // Masking to k bits and exclusive or commute.
  lemma {:induction false} XorMask(a: nat, b: nat, k: nat)
    ensures Mask(Xor(a, b), k) == Xor(Mask(a, k), Mask(b, k))
    decreases k
  {
    hide Mask, Pow2;
    if k == 0 {
      MaskNone(a);
      MaskNone(b);
      MaskNone(Xor(a, b));
    } else {
      XorMask(a / 2, b / 2, k - 1);
      XorMaskStep(a, b, k);
    }
  }

  lemma MaskNone(a: nat)
    ensures Mask(a, 0) == 0
  {
  }

  lemma XorMaskStep(a: nat, b: nat, k: nat)
    requires k > 0 && Mask(Xor(a / 2, b / 2), k - 1) == Xor(Mask(a / 2, k - 1), Mask(b / 2, k - 1))
    ensures Mask(Xor(a, b), k) == Xor(Mask(a, k), Mask(b, k))
  {
    hide Xor, Pow2, Mask;
    MaskHalves(a, k);
    MaskHalves(b, k);
    var x, y := Mask(a, k), Mask(b, k);
    XorHalves(a, b);
    XorHalves(x, y);
    MaskHalves(Xor(a, b), k);
    assert Xor(x, y) == Xor(x, y) % 2 + 2 * (Xor(x, y) / 2);
  }

  lemma XorHalves(a: nat, b: nat)
    ensures Xor(a, b) / 2 == Xor(a / 2, b / 2) && Xor(a, b) % 2 == (a + b) % 2
  {
  }

  // The last bit of a masked number, and the rest of its bits.
  lemma MaskHalves(a: nat, k: nat)
    requires k > 0
    ensures Mask(a, k) == a % 2 + 2 * Mask(a / 2, k - 1)
    ensures Mask(a, k) % 2 == a % 2 && Mask(a, k) / 2 == Mask(a / 2, k - 1)
  {
    var p := Pow2(k - 1);
    var q, r := a / 2 / p, a / 2 % p;
    assert a / 2 == q * p + r && q * (2 * p) == 2 * (q * p);
    RemainderIs(a, q, 2 * r + a % 2, 2 * p);
  }

  lemma MaskSmall(a: nat, k: nat)
    requires a < Pow2(k)
    ensures Mask(a, k) == a
  {
    RemainderIs(a, 0, a, Pow2(k));
  }

  // Two-way addressing: with displacement d, the alternate of the alternate is the start,
  // and an odd displacement always leads somewhere else once there are two places.
  lemma AlternateIsMutual(i: nat, d: nat, k: nat)
    requires i < Pow2(k)
    ensures Mask(Xor(Mask(Xor(i, d), k), d), k) == i
    ensures k > 0 && d % 2 == 1 ==> Mask(Xor(i, d), k) != i
  {
    hide Xor, Pow2, Mask;
    var e := Mask(d, k);
    XorMask(i, d, k);
    MaskSmall(i, k);
    var j := Mask(Xor(i, d), k);
    assert j == Xor(i, e);
    XorMask(j, d, k);
    MaskSmall(j, k);
    XorCancels(i, e);
    if k > 0 && d % 2 == 1 {
      MaskHalves(d, k);
      XorHalves(i, e);
    }
  }
}
