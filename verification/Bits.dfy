/** The bitwise operators of the source on unsigned numbers, and the arithmetic they stand for. */
module Bits {
  import opened Arithmetic

  function Pow2(k: nat): (r: nat)
    ensures r > 0
  {
    if k == 0 then 1 else 2 * Pow2(k - 1)
  }

  /** The bitwise conjunction. */
  function And(x: nat, y: nat): nat {
    if x == 0 || y == 0 then 0 else 2 * And(x / 2, y / 2) + (x % 2) * (y % 2)
  }

  /** x >> k */
  function ShiftRight(x: nat, k: nat): nat {
    if k == 0 then x else ShiftRight(x / 2, k - 1)
  }

  /** x << k, on unbounded words. */
  function ShiftLeft(x: nat, k: nat): nat {
    if k == 0 then x else 2 * ShiftLeft(x, k - 1)
  }

  lemma {:induction false} ShiftIsProduct(x: nat, k: nat)
    ensures ShiftLeft(x, k) == Pow2(k) * x
  {
    if k > 0 {
      ShiftIsProduct(x, k - 1);
      assert 2 * (Pow2(k - 1) * x) == 2 * Pow2(k - 1) * x;
    }
  }

  lemma {:induction false} Pow2Add(j: nat, k: nat)
    ensures Pow2(j + k) == Pow2(j) * Pow2(k)
  {
    if k > 0 {
      Pow2Add(j, k - 1);
      assert Pow2(j) * (2 * Pow2(k - 1)) == 2 * (Pow2(j) * Pow2(k - 1));
    }
  }

  lemma {:induction false} Pow2Monotone(j: nat, k: nat)
    requires j < k
    ensures Pow2(j) < Pow2(k)
  {
    if j + 1 < k {
      Pow2Monotone(j, k - 1);
    }
  }

  lemma {:induction false} Regroup(p: nat, a: nat, b: nat, t: nat, r: nat)
    ensures (p * b + t) * a + r == p * (a * b) + (t * a + r)
  {
    assert (p * b) * a == p * (b * a);
  }

  lemma {:induction false} RemainderFits(a: nat, b: nat, t: nat, r: nat)
    requires r < a && t < b
    ensures t * a + r < a * b
  {
    MulMonotone(t, b, a);
  }

  /** Dividing twice is dividing by the product. */
  lemma {:induction false} DivDiv(x: nat, a: nat, b: nat)
    requires a > 0 && b > 0
    ensures a * b > 0 && (x / a) / b == x / (a * b)
  {
    var q, t := (x / a) / b, (x / a) % b;
    Division(x, a);
    Division(x / a, b);
    assert x == (q * b + t) * a + x % a;
    DivideBoth(x, a, b, q, t, x % a);
  }

  lemma {:induction false} Division(x: nat, a: nat)
    requires a > 0
    ensures x == (x / a) * a + x % a
  {
  }

  lemma {:induction false} DivideBoth(x: nat, a: nat, b: nat, q: nat, t: nat, r: nat)
    requires r < a && t < b && x == (q * b + t) * a + r
    ensures a * b > 0 && x / (a * b) == q
  {
    Regroup(q, a, b, t, r);
    RemainderFits(a, b, t, r);
    DivMod(q, a * b, t * a + r);
  }

  lemma {:induction false} ShiftIsDiv(x: nat, k: nat)
    ensures ShiftRight(x, k) == x / Pow2(k)
  {
    if k > 0 {
      ShiftIsDiv(x / 2, k - 1);
      DivDiv(x, 2, Pow2(k - 1));
    }
  }

  /** Masking with 2^k - 1 is the remainder modulo 2^k. */
  lemma {:induction false} MaskIsMod(x: nat, k: nat)
    ensures And(x, Pow2(k) - 1) == x % Pow2(k)
  {
    if k > 0 {
      MaskIsMod(x / 2, k - 1);
      HalfMod(x, Pow2(k - 1));
      HalfMask(x, Pow2(k - 1));
    }
  }

  lemma {:induction false} HalfMask(x: nat, h: nat)
    requires h > 0
    ensures And(x, 2 * h - 1) == 2 * And(x / 2, h - 1) + x % 2
  {
    assert (2 * h - 1) / 2 == h - 1 && (2 * h - 1) % 2 == 1;
  }

  lemma {:induction false} HalfMod(x: nat, h: nat)
    requires h > 0
    ensures x % (2 * h) == 2 * ((x / 2) % h) + x % 2
  {
    var q, r := (x / 2) / h, (x / 2) % h;
    assert x / 2 == q * h + r;
    assert q * (2 * h) == 2 * (q * h);
    DivMod(q, 2 * h, 2 * r + x % 2);
  }

  /** The bitwise disjunction. */
  function Or(x: nat, y: nat): nat
    decreases x + y
  {
    if x == 0 && y == 0 then 0 else 2 * Or(x / 2, y / 2) + if x % 2 == 1 || y % 2 == 1 then 1 else 0
  }

  lemma {:induction false} OrZero(x: nat)
    ensures Or(x, 0) == x
  {
    if x > 0 {
      OrZero(x / 2);
    }
  }

  /** The disjunction of numbers without common bits is their sum. */
  lemma {:induction false} OrIsSum(m: nat, k: nat, x: nat)
    requires x < Pow2(k)
    ensures Or(ShiftLeft(m, k), x) == ShiftLeft(m, k) + x
  {
    if k == 0 {
      OrZero(m);
    } else {
      OrIsSum(m, k - 1, x / 2);
      OrDouble(ShiftLeft(m, k - 1), x);
    }
  }

  lemma {:induction false} OrDouble(h: nat, x: nat)
    ensures Or(2 * h, x) == 2 * Or(h, x / 2) + x % 2
  {
  }

  /** A mask whose low bits are zero. */
  lemma {:induction false} HighMask(x: nat, m: nat, k: nat)
    ensures And(x, ShiftLeft(m, k)) == ShiftLeft(And(ShiftRight(x, k), m), k)
  {
    if k > 0 {
      HighMask(x / 2, m, k - 1);
      AndDouble(x, ShiftLeft(m, k - 1));
    }
  }

  lemma {:induction false} AndDouble(x: nat, y: nat)
    ensures And(x, 2 * y) == 2 * And(x / 2, y)
  {
  }
}
