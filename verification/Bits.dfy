/** The bitwise operators of unsigned words, bit by bit, and the arithmetic they amount to. */
module Bits {

  function Pow2(n: nat): (r: nat)
    ensures r >= 1
  {
    if n == 0 then 1 else 2 * Pow2(n - 1)
  }

  function And(a: nat, b: nat, width: nat): nat {
    if width == 0 then 0 else 2 * And(a / 2, b / 2, width - 1) + (if a % 2 == 1 && b % 2 == 1 then 1 else 0)
  }

  function Or(a: nat, b: nat, width: nat): nat {
    if width == 0 then 0 else 2 * Or(a / 2, b / 2, width - 1) + (if a % 2 == 1 || b % 2 == 1 then 1 else 0)
  }

  function Xor(a: nat, b: nat, width: nat): (r: nat)
    ensures r < Pow2(width)
  {
    if width == 0 then 0 else 2 * Xor(a / 2, b / 2, width - 1) + (if a % 2 != b % 2 then 1 else 0)
  }

  lemma {:induction false} Pow2Monotone(a: nat, b: nat)
    requires a <= b
    ensures Pow2(a) <= Pow2(b)
    decreases b
  {
    if a < b { Pow2Monotone(a, b - 1); }
  }

  lemma {:induction false} Pow2Add(a: nat, b: nat)
    ensures Pow2(a + b) == Pow2(a) * Pow2(b)
  {
    if a > 0 { Pow2Add(a - 1, b); }
  }

  lemma Halves(m: nat, k: nat)
    requires k > 0
    ensures (m * Pow2(k)) % 2 == 0 && (m * Pow2(k)) / 2 == m * Pow2(k - 1)
  {
    assert m * Pow2(k) == 2 * (m * Pow2(k - 1));
  }

  /** The mask of the low `k` bits keeps them and drops the others. */
  lemma {:induction false} AndMask(m: nat, k: nat, low: nat, width: nat)
    requires k <= width && low < Pow2(k)
    ensures And(m * Pow2(k) + low, Pow2(k) - 1, width) == low
  {
    if k == 0 {
      AndZero(m, width);
    } else {
      var p := Pow2(k - 1);
      assert Pow2(k) == 2 * p;
      Halves(m, k);
      assert (m * Pow2(k) + low) / 2 == m * p + low / 2;
      assert (2 * p - 1) / 2 == p - 1;
      AndMask(m, k - 1, low / 2, width - 1);
    }
  }

  lemma {:induction false} AndZero(a: nat, width: nat)
    ensures And(a, 0, width) == 0
  {
    if width > 0 { AndZero(a / 2, width - 1); }
  }

  lemma MulMonotone(p: nat, m: nat, n: nat)
    requires m <= n
    ensures p * m <= p * n
  {
    assert p * n == p * m + p * (n - m);
  }

  /** Words without a common bit: `|` adds them. */
  lemma {:induction false} OrDisjoint(m: nat, k: nat, low: nat, width: nat)
    requires low < Pow2(k) && m * Pow2(k) + low < Pow2(width)
    ensures Or(m * Pow2(k), low, width) == m * Pow2(k) + low
    ensures Or(low, m * Pow2(k), width) == m * Pow2(k) + low
  {
    if width == 0 {
    } else if k == 0 {
      OrZero(m, width);
    } else {
      Halves(m, k);
      OrDisjoint(m, k - 1, low / 2, width - 1);
    }
  }

  lemma {:induction false} OrZero(a: nat, width: nat)
    requires a < Pow2(width)
    ensures Or(a, 0, width) == a == Or(0, a, width)
  {
    if width > 0 { OrZero(a / 2, width - 1); }
  }

  lemma {:induction false} XorZero(a: nat, width: nat)
    requires a < Pow2(width)
    ensures Xor(a, 0, width) == a == Xor(0, a, width)
  {
    if width > 0 { XorZero(a / 2, width - 1); }
  }

  /** Xor with a fixed word is injective. */
  lemma {:induction false} XorInjective(x: nat, a: nat, b: nat, width: nat)
    requires a < Pow2(width) && b < Pow2(width)
    requires Xor(x, a, width) == Xor(x, b, width)
    ensures a == b
  {
    if width > 0 {
      var s, t := Xor(x / 2, a / 2, width - 1), Xor(x / 2, b / 2, width - 1);
      assert s == t;
      XorInjective(x / 2, a / 2, b / 2, width - 1);
      assert a % 2 == b % 2;
    }
  }
}
