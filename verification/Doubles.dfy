/**
 Integers held in a float64: which survive, and what becomes of the others. Shared by the
 value codec and by durations, the two places that push an integer through a float.
 */
module Doubles {
  import opened Arithmetic

  function Pow2(n: nat): (p: nat)
    ensures p >= 1
  {
    if n == 0 then 1 else 2 * Pow2(n - 1)
  }

  const SIGNIFICAND_BITS: nat := 53
  const MAX_EXACT_INT: int := 9007199254740992

  lemma {:induction false} Pow2Sum(a: nat, b: nat)
    ensures Pow2(a + b) == Pow2(a) * Pow2(b)
    decreases a
  {
    if a > 0 {
      Pow2Sum(a - 1, b);
      assert 2 * (Pow2(a - 1) * Pow2(b)) == (2 * Pow2(a - 1)) * Pow2(b);
    }
  }

  lemma MaxExactIntIsPow2()
    ensures MAX_EXACT_INT == Pow2(SIGNIFICAND_BITS)
  {
    Pow2Sum(13, 13);
    Pow2Sum(26, 26);
    assert Pow2(13) == 8192;
    assert Pow2(53) == 2 * Pow2(52);
  }

  /** How far `n` must be shifted right to fit the significand. */
  function Excess(n: nat): nat {
    if n < MAX_EXACT_INT then 0 else 1 + Excess(n / 2)
  }

  /** A float64's value for the non-negative integer `n`: round to nearest, ties to even. */
  function RoundNat(n: nat): nat {
    var unit := Pow2(Excess(n));
    var q, r := n / unit, n % unit;
    if 2 * r > unit || (2 * r == unit && q % 2 == 1) then (q + 1) * unit else q * unit
  }

  function RoundInt(i: int): int { if i < 0 then 0 - RoundNat(-i) as int else RoundNat(i) }

  /** Up to 2^53 every integer is its own float64. */
  lemma ExactUpToMax(i: int)
    requires -MAX_EXACT_INT <= i <= MAX_EXACT_INT
    ensures RoundInt(i) == i
  {
    var n: nat := if i < 0 then -i else i;
    if n < MAX_EXACT_INT {
      assert Pow2(Excess(n)) == 1;
    } else {
      assert Excess(n) == 1 + Excess(n / 2) && Excess(n / 2) == 0;
      assert Pow2(Excess(n)) == 2;
      assert n % 2 == 0;
    }
  }

  lemma NextIntegerIsLost()
    ensures RoundInt(MAX_EXACT_INT + 1) == MAX_EXACT_INT
  {
    var lost := MAX_EXACT_INT + 1;
    assert Excess(lost) == 1 + Excess(lost / 2) && Excess(lost / 2) == 0;
    assert Pow2(Excess(lost)) == 2;
  }

  /** 2^53 is the largest bound below which no integer is lost. */
  lemma MaxExactIntIsTheBound(bound: int)
    requires bound >= 0
    ensures (forall i: int :: -bound <= i <= bound ==> RoundInt(i) == i) <==> bound <= MAX_EXACT_INT
  {
    if bound <= MAX_EXACT_INT {
      forall i: int | -bound <= i <= bound ensures RoundInt(i) == i {
        ExactUpToMax(i);
      }
    } else {
      NextIntegerIsLost();
      assert RoundInt(MAX_EXACT_INT + 1) != MAX_EXACT_INT + 1;
    }
  }

  // ---- exactly representable integers -----------------------------------------

  /** `n` is a significand of at most 53 bits times a power of two. */
  ghost predicate Representable(n: nat) {
    exists q, e :: Scaled(n, q, e)
  }

  predicate Scaled(n: nat, q: nat, e: nat) { q <= MAX_EXACT_INT && n == q * Pow2(e) }

  lemma {:induction false} ExcessFits(n: nat)
    ensures n / Pow2(Excess(n)) < MAX_EXACT_INT
    decreases n
  {
    if n >= MAX_EXACT_INT {
      ExcessFits(n / 2);
      DivDiv(n, Pow2(Excess(n / 2)));
    }
  }

  lemma {:induction false} ExcessIsLeast(n: nat)
    requires Excess(n) > 0
    ensures n / Pow2(Excess(n)) >= 1
    decreases n
  {
    if Excess(n / 2) == 0 {
      assert Pow2(Excess(n)) == 2;
    } else {
      ExcessIsLeast(n / 2);
      DivDiv(n, Pow2(Excess(n / 2)));
    }
  }

  /** Rounding never crosses a power of two. */
  lemma RoundingStaysAbove(n: nat, k: nat)
    requires n >= Pow2(k)
    ensures RoundNat(n) >= Pow2(k)
  {
    var e := Excess(n);
    RoundingKeepsUnits(n);
    if e <= k {
      Pow2Sum(k - e, e);
      QuotientCovers(n, Pow2(k - e), Pow2(e));
      MulLe(Pow2(k - e), n / Pow2(e), Pow2(e));
    } else {
      ExcessIsLeast(n);
      MulLe(1, n / Pow2(e), Pow2(e));
      Pow2Sum(e - k, k);
      MulLe(1, Pow2(e - k), Pow2(k));
    }
  }

  lemma RoundingKeepsUnits(n: nat)
    ensures RoundNat(n) >= n / Pow2(Excess(n)) * Pow2(Excess(n))
  {
    Product(n / Pow2(Excess(n)), Pow2(Excess(n)));
  }

  lemma QuotientCovers(n: nat, m: nat, unit: nat)
    requires unit > 0 && n >= m * unit
    ensures n / unit >= m
  {
    var short := m - n / unit;
    assert short * unit == m * unit - n / unit * unit;
    Multiple(short, unit);
  }

  lemma DivDiv(n: nat, d: nat)
    requires d > 0
    ensures n / 2 / d == n / (2 * d)
  {
    var q, r := n / (2 * d), n % (2 * d);
    assert n == q * (2 * d) + r;
    assert n / 2 == q * d + r / 2 by {
      assert q * (2 * d) == 2 * (q * d);
    }
    QuotientIs(n / 2, d, q, r / 2);
  }

  lemma {:induction false} ExcessBound(n: nat, e: nat)
    requires n < MAX_EXACT_INT * Pow2(e)
    ensures Excess(n) <= e
    decreases e
  {
    if n >= MAX_EXACT_INT {
      assert e > 0;
      ExcessBound(n / 2, e - 1);
    }
  }

  lemma RoundedIsScaled(n: nat)
    ensures Representable(RoundNat(n))
  {
    var unit := Pow2(Excess(n));
    ExcessFits(n);
    var q := if RoundNat(n) == n / unit * unit then n / unit else n / unit + 1;
    assert Scaled(RoundNat(n), q, Excess(n));
  }

  lemma MultiplesRoundToThemselves(n: nat, k: nat)
    requires n == k * Pow2(Excess(n))
    ensures RoundNat(n) == n
  {
    QuotientIs(n, Pow2(Excess(n)), k, 0);
  }

  lemma ScaledIsMultiple(n: nat, q: nat, e: nat) returns (k: nat)
    requires q < MAX_EXACT_INT && n == q * Pow2(e)
    ensures n == k * Pow2(Excess(n))
  {
    MulStrict(q, MAX_EXACT_INT, Pow2(e));
    ExcessBound(n, e);
    var unit, more := Pow2(Excess(n)), Pow2(e - Excess(n));
    Pow2Sum(Excess(n), e - Excess(n));
    k := q * more;
    Reorder(q, unit, more);
  }

  lemma Reorder(q: nat, unit: nat, more: nat)
    ensures q * (unit * more) == q * more * unit
  {
  }

  /** A float64 holds exactly the representable integers, and rounding always lands on one. */
  lemma ExactIffRepresentable(n: nat)
    ensures RoundNat(n) == n <==> Representable(n)
    ensures Representable(RoundNat(n))
  {
    RoundedIsScaled(n);
    if Representable(n) {
      var q: nat, e: nat :| Scaled(n, q, e);
      if q == MAX_EXACT_INT {
        q, e := MAX_EXACT_INT / 2, e + 1;
        Halve(e);
      }
      var k := ScaledIsMultiple(n, q, e);
      MultiplesRoundToThemselves(n, k);
    }
  }

  lemma Halve(e: nat)
    requires e > 0
    ensures MAX_EXACT_INT * Pow2(e - 1) == MAX_EXACT_INT / 2 * Pow2(e)
  {
  }

  lemma MulStrict(a: nat, b: int, c: nat)
    requires a < b && c > 0
    ensures a * c < b * c
  {
  }
}
