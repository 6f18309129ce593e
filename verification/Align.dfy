/**
 The alignment and bit-test macros on unsigned integers of `w` bits, for every power of two that fits.
 */
module Align {
  import opened Bits

  lemma {:induction false} Pow2Monotone(k: nat, w: nat)
    requires k < w
    ensures 2 * Pow2(k) <= Pow2(w)
    decreases w
  {
    if k + 1 < w {
      Pow2Monotone(k, w - 1);
    }
  }

  /** `A & ~(L - 1)` with L = 2^k */
  function AlignDown(w: nat, a: nat, k: nat): nat
    requires k < w && a < Pow2(w)
  {
    Pow2Monotone(k, w);
    And(a, Not(w, Pow2(k) - 1))
  }

  /** `(A + L - 1) & ~(L - 1)` with L = 2^k, the addition wrapping around at 2^w */
  function AlignUp(w: nat, a: nat, k: nat): nat
    requires k < w && a < Pow2(w)
  {
    AlignDown(w, (a + Pow2(k) - 1) % Pow2(w), k)
  }

  /** `d` is the multiple of `l` just at or below `a`. */
  ghost predicate Floor(l: nat, a: nat, d: nat) {
    exists q: nat :: IsFloor(l, a, d, q)
  }

  predicate IsFloor(l: nat, a: nat, d: nat, q: nat) {
    d == q * l && d <= a < d + l
  }

  lemma Divide(a: nat, l: nat) returns (q: nat, r: nat)
    requires l > 0
    ensures a == q * l + r && r < l
  {
    q, r := a / l, a % l;
  }

  lemma MultiplesApart(l: nat, m: nat, n: nat)
    requires l > 0
    ensures m * l < n * l <==> m < n
    ensures m < n ==> m * l + l <= n * l
  {
    if m < n {
      assert n * l == m * l + (n - m) * l;
      MulAtLeast(l, n - m);
      assert l * (n - m) == (n - m) * l;
    } else {
      assert m * l == n * l + (m - n) * l;
    }
  }

  /** It is the greatest multiple not above `a`, and so the only one of its kind. */
  lemma FloorIsGreatest(l: nat, a: nat, d: nat, m: nat)
    requires l > 0 && Floor(l, a, d)
    ensures m * l <= a <==> m * l <= d
  {
    var q: nat :| IsFloor(l, a, d, q);
    MultiplesApart(l, q, m);
  }

  lemma FloorUnique(l: nat, a: nat, d: nat, e: nat)
    requires l > 0 && Floor(l, a, d) && Floor(l, a, e)
    ensures d == e
  {
    var p: nat :| IsFloor(l, a, d, p);
    var q: nat :| IsFloor(l, a, e, q);
    MultiplesApart(l, p, q);
    MultiplesApart(l, q, p);
  }

  /** The mask leaves the whole multiples of L. */
  lemma AlignDownIsFloor(w: nat, a: nat, k: nat)
    requires k < w && a < Pow2(w)
    ensures Floor(Pow2(k), a, AlignDown(w, a, k))
  {
    Pow2Monotone(k, w);
    var q, r := Divide(a, Pow2(k));
    AndClearsLow(q, r, k, w);
    assert IsFloor(Pow2(k), a, q * Pow2(k), q);
  }

  ghost predicate Multiple(d: nat, l: nat) {
    exists q: nat :: IsTimes(d, q, l)
  }

  predicate IsTimes(d: nat, q: nat, l: nat) {
    d == q * l
  }

  lemma FloorIsMultiple(l: nat, a: nat, d: nat)
    requires Floor(l, a, d)
    ensures Multiple(d, l) && d <= a < d + l
  {
    var q: nat :| IsFloor(l, a, d, q);
    assert IsTimes(d, q, l);
  }

  /** `MY_ALIGN_DOWN` is the greatest multiple of L that is not above A, and leaves multiples alone. */
  lemma AlignDownIsGreatest(w: nat, a: nat, k: nat, m: nat)
    requires k < w && a < Pow2(w)
    ensures Multiple(AlignDown(w, a, k), Pow2(k)) && AlignDown(w, a, k) <= a
    ensures m * Pow2(k) <= a <==> m * Pow2(k) <= AlignDown(w, a, k)
    ensures AlignDown(w, a, k) < Pow2(w) && AlignDown(w, AlignDown(w, a, k), k) == AlignDown(w, a, k)
  {
    var l, d := Pow2(k), AlignDown(w, a, k);
    AlignDownIsFloor(w, a, k);
    FloorIsMultiple(l, a, d);
    FloorIsGreatest(l, a, d, m);
    AlignDownIsFloor(w, d, k);
    FloorOfMultiple(l, a, d, AlignDown(w, d, k));
  }

  lemma FloorOfMultiple(l: nat, a: nat, d: nat, e: nat)
    requires l > 0 && Floor(l, a, d) && Floor(l, d, e)
    ensures e == d
  {
    var q: nat :| IsFloor(l, a, d, q);
    assert IsFloor(l, d, d, q);
    FloorUnique(l, d, d, e);
  }

  /** The sum wraps exactly when A is within L of the end of the range, and then the result is zero. */
  lemma AlignUpWraps(w: nat, a: nat, k: nat)
    requires k < w && a < Pow2(w) && a + Pow2(k) > Pow2(w)
    ensures AlignUp(w, a, k) == 0 < a
  {
    Pow2Monotone(k, w);
    var l, s := Pow2(k), a + Pow2(k) - 1 - Pow2(w);
    DivModUnique(a + l - 1, Pow2(w), 1, s);
    AlignDownIsFloor(w, s, k);
    assert IsFloor(l, s, 0, 0);
    FloorUnique(l, s, AlignDown(w, s, k), 0);
  }

  lemma AlignUpIsFloor(w: nat, a: nat, k: nat)
    requires k < w && a < Pow2(w) && a + Pow2(k) <= Pow2(w)
    ensures Floor(Pow2(k), a + Pow2(k) - 1, AlignUp(w, a, k))
  {
    var s := a + Pow2(k) - 1;
    DivModUnique(s, Pow2(w), 0, s);
    AlignDownIsFloor(w, s, k);
  }

  /** `MY_ALIGN` is a multiple of L for every A. It is at least A if and only if A + L does not pass the
      end of the range; then it is the least multiple that is. */
  lemma AlignUpIsLeast(w: nat, a: nat, k: nat, m: nat)
    requires k < w && a < Pow2(w)
    ensures Multiple(AlignUp(w, a, k), Pow2(k))
    ensures AlignUp(w, a, k) >= a <==> a + Pow2(k) <= Pow2(w)
    ensures a + Pow2(k) <= Pow2(w) ==> (a <= m * Pow2(k) <==> AlignUp(w, a, k) <= m * Pow2(k))
  {
    if a + Pow2(k) > Pow2(w) {
      AlignUpWraps(w, a, k);
      assert IsTimes(0, 0, Pow2(k));
    } else {
      AlignUpIsFloor(w, a, k);
      FloorIsMultiple(Pow2(k), a + Pow2(k) - 1, AlignUp(w, a, k));
      CeilingIsLeast(Pow2(k), a, AlignUp(w, a, k), m);
    }
  }

  /** The last byte of an 8-bit range, aligned to 8, comes out as zero. */
  lemma AlignUpWrapsAt255()
    ensures AlignUp(8, 255, 3) == 0
  {
    assert Pow2(3) == 8 && Pow2(5) == 32;
    Pow2Add(5, 3);
    AlignUpWraps(8, 255, 3);
  }

  lemma CeilingIsLeast(l: nat, a: nat, u: nat, m: nat)
    requires l > 0 && Floor(l, a + l - 1, u)
    ensures a <= u < a + l
    ensures a <= m * l <==> u <= m * l
  {
    var q: nat :| IsFloor(l, a + l - 1, u, q);
    MultiplesApart(l, m, q);
  }

  /** The range is a multiple of L, so the result is at least L below its end. */
  lemma AlignUpLeavesRoom(w: nat, a: nat, k: nat)
    requires k < w && a < Pow2(w) && a + Pow2(k) <= Pow2(w)
    ensures AlignUp(w, a, k) + Pow2(k) <= Pow2(w)
  {
    Pow2Add(w - k, k);
    AlignUpIsFloor(w, a, k);
    RoomForOne(Pow2(k), a + Pow2(k) - 1, AlignUp(w, a, k), Pow2(w - k), Pow2(w));
  }

  lemma LastMultiple(l: nat, n: nat, top: nat, a: nat, d: nat)
    requires l > 0 && n > 0 && top == n * l && a < top < a + l && Floor(l, a, d)
    ensures d + l == top && d != a
  {
    assert (n - 1) * l == top - l;
    assert IsFloor(l, a, top - l, n - 1);
    FloorUnique(l, a, d, top - l);
  }

  /** Within L of the end of the range, the lower alignment is the last multiple that fits. */
  lemma AlignDownAtEnd(w: nat, a: nat, k: nat)
    requires k < w && a < Pow2(w) && a + Pow2(k) > Pow2(w)
    ensures AlignDown(w, a, k) + Pow2(k) == Pow2(w) && AlignDown(w, a, k) != a
  {
    AlignDownIsFloor(w, a, k);
    Pow2Add(w - k, k);
    LastMultiple(Pow2(k), Pow2(w - k), Pow2(w), a, AlignDown(w, a, k));
  }

  lemma AlignUpNoWrap(w: nat, a: nat, k: nat)
    requires k < w && a < Pow2(w) && a + Pow2(k) <= Pow2(w)
    ensures AlignUp(w, a, k) == AlignDown(w, a, k) + if AlignDown(w, a, k) == a then 0 else Pow2(k)
  {
    AlignDownIsFloor(w, a, k);
    AlignUpIsFloor(w, a, k);
    FloorVersusCeiling(Pow2(k), a, AlignDown(w, a, k), AlignUp(w, a, k));
  }

  /** Aligning up is aligning down, plus one L unless A was aligned already, for every A; where that sum
      is the end of the range it wraps to zero, and so does the macro. */
  lemma AlignUpVersusDown(w: nat, a: nat, k: nat)
    requires k < w && a < Pow2(w)
    ensures var sum := AlignDown(w, a, k) + if AlignDown(w, a, k) == a then 0 else Pow2(k);
            sum <= Pow2(w) && AlignUp(w, a, k) == if sum == Pow2(w) then 0 else sum
  {
    if a + Pow2(k) > Pow2(w) {
      AlignDownAtEnd(w, a, k);
      AlignUpWraps(w, a, k);
    } else {
      AlignUpNoWrap(w, a, k);
      AlignUpLeavesRoom(w, a, k);
    }
  }

  /** Aligning up again changes nothing, for every A. */
  lemma AlignUpTwice(w: nat, a: nat, k: nat)
    requires k < w && a < Pow2(w)
    ensures AlignUp(w, a, k) < Pow2(w) && AlignUp(w, AlignUp(w, a, k), k) == AlignUp(w, a, k)
  {
    var u := AlignUp(w, a, k);
    if a + Pow2(k) > Pow2(w) {
      AlignUpWraps(w, a, k);
      Pow2Monotone(k, w);
      AlignUpIsFloor(w, 0, k);
      assert IsFloor(Pow2(k), Pow2(k) - 1, 0, 0);
      FloorUnique(Pow2(k), Pow2(k) - 1, 0, AlignUp(w, 0, k));
    } else {
      AlignUpIsFloor(w, a, k);
      AlignUpLeavesRoom(w, a, k);
      AlignUpIsFloor(w, u, k);
      CeilingOfMultiple(Pow2(k), a, u, AlignUp(w, u, k));
    }
  }

  lemma FloorVersusCeiling(l: nat, a: nat, d: nat, u: nat)
    requires l > 0 && Floor(l, a, d) && Floor(l, a + l - 1, u)
    ensures u == d + if d == a then 0 else l
  {
    var q: nat :| IsFloor(l, a, d, q);
    var e := if d == a then d else d + l;
    assert (q + 1) * l == d + l;
    assert IsFloor(l, a + l - 1, e, if d == a then q else q + 1);
    FloorUnique(l, a + l - 1, e, u);
  }

  lemma RoomForOne(l: nat, a: nat, d: nat, n: nat, top: nat)
    requires l > 0 && Floor(l, a, d) && a < top && top == n * l
    ensures d + l <= top
  {
    var q: nat :| IsFloor(l, a, d, q);
    MultiplesApart(l, q, n);
  }

  lemma CeilingOfMultiple(l: nat, a: nat, u: nat, v: nat)
    requires l > 0 && Floor(l, a + l - 1, u) && Floor(l, u + l - 1, v)
    ensures v == u
  {
    var q: nat :| IsFloor(l, a + l - 1, u, q);
    assert IsFloor(l, u + l - 1, u, q);
    FloorUnique(l, u + l - 1, u, v);
  }

  // ---------------------------------------------------------------- bit sets

  ghost predicate SubsetOfBits(b: nat, a: nat) {
    forall i: nat :: Bit(b, i) ==> Bit(a, i)
  }

  /** `test_all_bits(a, b)`: every bit of `b` is set in `a`. */
  lemma TestAllBits(a: nat, b: nat)
    ensures And(a, b) == b <==> SubsetOfBits(b, a)
  {
    if And(a, b) == b {
      forall i: nat ensures Bit(b, i) ==> Bit(a, i) {
        BitOfAnd(a, b, i);
      }
    }
    if SubsetOfBits(b, a) {
      forall i: nat ensures Bit(And(a, b), i) <==> Bit(b, i) {
        BitOfAnd(a, b, i);
      }
      SameBits(And(a, b), b);
    }
  }

  /** `set_bits(type, n)` for a type of `w` bits: `~(type) 0`, or `((type) 1 << n) - 1` below that width. */
  function SetBits(w: nat, n: nat): nat {
    if w <= n then Not(w, 0)
    else SmallShift(w, n); Shl(w, 1, n) - 1
  }

  /** Shifting one within the width loses nothing. */
  lemma SmallShift(w: nat, n: nat)
    requires n < w
    ensures Shl(w, 1, n) == Pow2(n)
  {
    Pow2Monotone(n, w);
    DivModUnique(Pow2(n), Pow2(w), 0, Pow2(n));
  }

  /** One more bit below the others. */
  lemma SetBitsDouble(w: nat, n: nat)
    requires w > 0 && n > 0
    ensures SetBits(w, n) == 2 * SetBits(w - 1, n - 1) + 1
  {
    if n < w {
      SmallShift(w, n);
      SmallShift(w - 1, n - 1);
    }
  }

  lemma HalfOfOdd(x: nat, h: nat)
    requires x == 2 * h + 1
    ensures x / 2 == h && x % 2 == 1
  {
  }

  /** It has exactly the bits below `n` that the type has. */
  lemma {:induction false} SetBitsAre(w: nat, n: nat, i: nat)
    ensures Bit(SetBits(w, n), i) <==> i < n && i < w
    decreases i
  {
    if w == 0 || n == 0 {
      if n < w {
        SmallShift(w, n);
      }
      ZeroHasNoBits(i);
    } else {
      SetBitsDouble(w, n);
      HalfOfOdd(SetBits(w, n), SetBits(w - 1, n - 1));
      if i > 0 {
        SetBitsAre(w - 1, n - 1, i - 1);
      }
    }
  }
}
