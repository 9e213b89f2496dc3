/** Unsigned bit arithmetic on naturals: the masks and shifts that the sources use in place of `%` and `/`. */
module Bits {

  function Pow2(k: nat): (r: nat)
    ensures r > 0
  {
    if k == 0 then 1 else 2 * Pow2(k - 1)
  }

  /** The C operator `a & b`, bit by bit. */
  function And(a: nat, b: nat): nat
  {
    if a == 0 || b == 0 then 0
    else (if a % 2 == 1 && b % 2 == 1 then 1 else 0) + 2 * And(a / 2, b / 2)
  }

  /** The C operator `a >> k`, one place at a time. */
  function Shr(a: nat, k: nat): nat
  {
    if k == 0 then a else Shr(a / 2, k - 1)
  }

  lemma {:induction false} Pow2Sum(j: nat, k: nat)
    ensures Pow2(j + k) == Pow2(j) * Pow2(k)
  {
    if j != 0 {
      Pow2Sum(j - 1, k);
      assert Pow2(j + k) == 2 * (Pow2(j - 1) * Pow2(k)) == Pow2(j) * Pow2(k);
    }
  }

  lemma {:induction false} Pow2Grows(j: nat, k: nat)
    requires j <= k
    ensures Pow2(j) <= Pow2(k)
  {
    if j < k {
      Pow2Grows(j, k - 1);
    }
  }

  lemma DivModTwice(a: nat, m: nat)
    requires m > 0
    ensures a / 2 / m == a / (2 * m)
    ensures a % (2 * m) == a % 2 + 2 * (a / 2 % m)
  {
    var q, r := a / 2 / m, a / 2 % m;
    assert a == a % 2 + 2 * (m * q + r) == (2 * m) * q + (a % 2 + 2 * r);
    assert 0 <= a % 2 + 2 * r < 2 * m;
    DivModUnique(a, 2 * m, q, a % 2 + 2 * r);
  }

  lemma DivModUnique(a: nat, m: nat, q: int, r: int)
    requires m > 0 && a == m * q + r && 0 <= r < m
    ensures a / m == q && a % m == r
  {
    var d := a / m - q;
    assert a == m * (a / m) + a % m;
    assert m * d == r - a % m by {
      assert m * d == m * (a / m) - m * q;
    }
    assert 0 - m < m * d < m;
  }

  /** Masking with a power of two less one is the remainder. */
  lemma {:induction false} AndMaskIsMod(a: nat, k: nat)
    ensures And(a, Pow2(k) - 1) == a % Pow2(k)
  {
    if k == 0 {
    } else {
      DivModTwice(a, Pow2(k - 1));
      AndMaskIsMod(a / 2, k - 1);
      assert (Pow2(k) - 1) / 2 == Pow2(k - 1) - 1;
      assert (Pow2(k) - 1) % 2 == 1;
      if a == 0 {
      } else if k == 1 {
        assert And(a / 2, 0) == 0;
      }
    }
  }

  /** Shifting right is division by a power of two. */
  lemma {:induction false} ShrIsDiv(a: nat, k: nat)
    ensures Shr(a, k) == a / Pow2(k)
  {
    if k != 0 {
      ShrIsDiv(a / 2, k - 1);
      DivModTwice(a, Pow2(k - 1));
    }
  }

  /** The quotient, plus one when there is a remainder, is the quotient rounded up. */
  lemma CeilDiv(a: nat, m: nat)
    requires m > 0
    ensures a / m + (if a % m != 0 then 1 else 0) == (a + m - 1) / m
  {
    var q, r := a / m, a % m;
    assert a == m * q + r;
    if r == 0 {
      DivModUnique(a + m - 1, m, q, m - 1);
    } else {
      assert a + m - 1 == m * (q + 1) + (r - 1);
      DivModUnique(a + m - 1, m, q + 1, r - 1);
    }
  }
}
