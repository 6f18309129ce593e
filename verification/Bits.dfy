/**
 Bitwise operations of unsigned C integers, on natural numbers of any width.
 */
module Bits {

  function Pow2(k: nat): (p: nat)
    ensures p >= 1
  {
    if k == 0 then 1 else 2 * Pow2(k - 1)
  }

  /** Bit `i` of `x`. */
  predicate Bit(x: nat, i: nat) {
    if i == 0 then x % 2 == 1 else Bit(x / 2, i - 1)
  }

  /** `a & b` */
  function And(a: nat, b: nat): nat {
    if a == 0 || b == 0 then 0
    else 2 * And(a / 2, b / 2) + (if a % 2 == 1 && b % 2 == 1 then 1 else 0)
  }

  /** `a | b` */
  function Or(a: nat, b: nat): nat {
    if a == 0 then b
    else if b == 0 then a
    else 2 * Or(a / 2, b / 2) + (if a % 2 == 1 || b % 2 == 1 then 1 else 0)
  }

  /** `~x` in `w` bits */
  function Not(w: nat, x: nat): (r: nat)
    requires x < Pow2(w)
    ensures r < Pow2(w)
  {
    Pow2(w) - 1 - x
  }

  /** `x << k` in `w` bits */
  function Shl(w: nat, x: nat, k: nat): nat {
    (x * Pow2(k)) % Pow2(w)
  }

  // ---------------------------------------------------------------- arithmetic helpers

  lemma MulAtLeast(k: nat, d: int)
    ensures d >= 1 ==> k * d >= k
  {
  }

  /** Quotient and remainder are determined by what they do. */
  lemma DivModUnique(x: int, k: int, q: int, r: int)
    requires k > 0 && 0 <= r < k && x == k * q + r
    ensures x / k == q && x % k == r
  {
    var d := x / k - q;
    assert k * d == r - x % k by {
      assert x == k * (x / k) + x % k;
      assert k * d == k * (x / k) - k * q;
    }
    assert k * (-d) == -(k * d);
    MulAtLeast(k, d);
    MulAtLeast(k, -d);
  }

  lemma Doubled(x: int, y: int)
    ensures (2 * x) * y == 2 * (x * y) && y * (2 * x) == 2 * (y * x)
  {
  }

  lemma {:induction false} Pow2Add(a: nat, b: nat)
    ensures Pow2(a + b) == Pow2(a) * Pow2(b)
  {
    if a > 0 {
      Pow2Add(a - 1, b);
      Doubled(Pow2(a - 1), Pow2(b));
    }
  }

  // ---------------------------------------------------------------- meaning, bit by bit

  lemma {:induction false} ZeroHasNoBits(i: nat)
    ensures !Bit(0, i)
  {
    if i > 0 {
      ZeroHasNoBits(i - 1);
    }
  }

  lemma {:induction false} BitOfAnd(a: nat, b: nat, i: nat)
    ensures Bit(And(a, b), i) <==> Bit(a, i) && Bit(b, i)
    decreases i
  {
    if a == 0 || b == 0 {
      ZeroHasNoBits(i);
    } else if i > 0 {
      BitOfAnd(a / 2, b / 2, i - 1);
    }
  }

  lemma {:induction false} BitOfOr(a: nat, b: nat, i: nat)
    ensures Bit(Or(a, b), i) <==> Bit(a, i) || Bit(b, i)
    decreases i
  {
    if a == 0 || b == 0 {
      ZeroHasNoBits(i);
    } else if i > 0 {
      BitOfOr(a / 2, b / 2, i - 1);
    }
  }

  /** Numbers with the same bits are the same. */
  lemma {:induction false} SameBits(a: nat, b: nat)
    requires forall i: nat :: Bit(a, i) <==> Bit(b, i)
    ensures a == b
    decreases a + b
  {
    if a + b > 0 {
      assert Bit(a, 0) <==> Bit(b, 0);
      forall i: nat ensures Bit(a / 2, i) <==> Bit(b / 2, i) {
        assert Bit(a, i + 1) <==> Bit(b, i + 1);
      }
      SameBits(a / 2, b / 2);
    }
  }

  // ---------------------------------------------------------------- meaning, as arithmetic

  lemma {:induction false} OrUp(a: nat, b: nat, k: nat)
    requires a < Pow2(k)
    ensures Or(a, Up(b, k)) == a + Up(b, k)
    decreases k
  {
    if k > 0 && a > 0 && Up(b, k) > 0 {
      OrUp(a / 2, b, k - 1);
      assert Up(b, k) / 2 == Up(b, k - 1) && Up(b, k) % 2 == 0;
    }
  }

  /** Or-ing a number into the free low bits of another is addition. */
  lemma OrIsAdd(a: nat, b: nat, k: nat)
    requires a < Pow2(k)
    ensures Or(a, b * Pow2(k)) == a + b * Pow2(k)
  {
    UpIsTimes(b, k);
    OrUp(a, b, k);
  }

  lemma {:induction false} AndOnes(a: nat, w: nat)
    requires a < Pow2(w)
    ensures And(a, Pow2(w) - 1) == a
    decreases w
  {
    if w > 0 && a > 0 {
      AndOnes(a / 2, w - 1);
      assert (Pow2(w) - 1) / 2 == Pow2(w - 1) - 1;
    }
  }

  /** And-ing with an even mask drops the lowest bit. */
  lemma AndEven(h: nat, bit: nat, m: nat)
    requires bit < 2
    ensures And(2 * h + bit, 2 * m) == 2 * And(h, m)
  {
  }

  /** `q * 2^k`, by doubling. */
  function Up(q: nat, k: nat): nat {
    if k == 0 then q else 2 * Up(q, k - 1)
  }

  lemma {:induction false} UpIsTimes(q: nat, k: nat)
    ensures Up(q, k) == q * Pow2(k)
  {
    if k > 0 {
      UpIsTimes(q, k - 1);
      Doubled(Pow2(k - 1), q);
    }
  }

  lemma {:induction false} AndUp(q: nat, r: nat, k: nat, w: nat)
    requires k <= w && r < Pow2(k) && Up(q, k) + r < Pow2(w) && Pow2(k) <= Pow2(w)
    ensures And(Up(q, k) + r, Pow2(w) - Pow2(k)) == Up(q, k)
    decreases k
  {
    if k == 0 {
      AndOnes(q, w);
    } else {
      AndUp(q, r / 2, k - 1, w - 1);
      AndEven(Up(q, k - 1) + r / 2, r % 2, Pow2(w - 1) - Pow2(k - 1));
    }
  }

  /** And-ing with `~(2^k - 1)` clears the low `k` bits and keeps the rest. */
  lemma AndClearsLow(q: nat, r: nat, k: nat, w: nat)
    requires k <= w && r < Pow2(k) && q * Pow2(k) + r < Pow2(w) && Pow2(k) <= Pow2(w)
    ensures And(q * Pow2(k) + r, Pow2(w) - Pow2(k)) == q * Pow2(k)
  {
    UpIsTimes(q, k);
    AndUp(q, r, k, w);
  }
}
