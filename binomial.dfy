/**
 * `binomialCoefficient` of filters/main.cpp: base cases, the symmetry reduction
 * k := n - k, and the multiplicative loop res = res * (n - k + i) / i with an
 * overflow sentinel of -1.
 *
 * The source tests for overflow with `res < 0` after multiplying 32-bit ints. A
 * wrapped product need not be negative, so that test lets wrong values through
 * (AsWrittenWrapsSilently). BinomialCoefficient is the corrected loop: it returns
 * -1 exactly when a product exceeds INT_MAX, and C(n, k) otherwise.
 */
module Binomial {

  const IntMax: int := 0x7fff_ffff
  const IntMin: int := -0x8000_0000

  predicate IsInt32(x: int) { IntMin <= x <= IntMax }

  // ---------------------------------------------------------------- the reference definition

  /** Pascal's triangle: C(n, k), and 0 when k < 0 or k > n. */
  function Binom(n: int, k: int): nat
    decreases n
  {
    if k < 0 || n < k then 0
    else if k == 0 then 1
    else Binom(n - 1, k - 1) + Binom(n - 1, k)
  }

  lemma {:induction false} BinomDiagonal(n: int)
    requires n >= 0
    ensures Binom(n, n) == 1
  {
    if n > 0 {
      BinomDiagonal(n - 1);
    }
  }

  lemma {:induction false} BinomOne(n: int)
    requires n >= 1
    ensures Binom(n, 1) == n
  {
    if n > 1 {
      BinomOne(n - 1);
    }
  }

  /** C(n, k) == C(n, n - k): the reduction `k = n - k` does not change the result. */
  lemma {:induction false} BinomSymmetric(n: int, k: int)
    requires 0 <= k <= n
    ensures Binom(n, k) == Binom(n, n - k)
  {
    if k == 0 || k == n {
      BinomDiagonal(n);
    } else {
      BinomSymmetric(n - 1, k - 1);
      BinomSymmetric(n - 1, k);
    }
  }

  lemma AbsorptionStep(n: int, k: int, a: int, b: int, c: int, d: int)
    requires (k - 1) * a == (n - 1) * c && k * b == (n - 1) * d && a == c + d
    ensures k * (a + b) == n * a
  {
    assert k * (a + b) == a + (k - 1) * a + k * b;
    assert n * a == a + (n - 1) * (c + d);
  }

  /** k * C(n, k) == n * C(n - 1, k - 1): why each `res /= i` of the loop divides exactly. */
  lemma {:induction false} BinomAbsorption(n: int, k: int)
    requires 1 <= k <= n
    ensures k * Binom(n, k) == n * Binom(n - 1, k - 1)
  {
    if k == 1 {
      BinomOne(n);
    } else {
      BinomAbsorption(n - 1, k - 1);
      if k < n {
        BinomAbsorption(n - 1, k);
      }
      AbsorptionStep(n, k, Binom(n - 1, k - 1), Binom(n - 1, k), Binom(n - 2, k - 2), Binom(n - 2, k - 1));
    }
  }

  /** The value of `res` after i rounds of the loop with m = n - k: C(m + i, i), built multiplicatively. */
  function Multiplicative(m: int, i: nat): int
  {
    if i == 0 then 1 else Multiplicative(m, i - 1) * (m + i) / i
  }

  /** The multiplicative formula agrees with Pascal's triangle. */
  lemma {:induction false} MultiplicativeIsBinom(m: int, i: nat)
    requires m >= 0
    ensures Multiplicative(m, i) == Binom(m + i, i)
  {
    if i > 0 {
      MultiplicativeIsBinom(m, i - 1);
      BinomAbsorption(m + i, i);
      var previous, b := Multiplicative(m, i - 1), Binom(m + i, i);
      Substitute(previous, Binom(m + i - 1, i - 1), m + i, i * b);
      ExactDivision(previous * (m + i), i, b);
    }
  }

  lemma Substitute(a: int, c: int, f: int, p: int)
    requires a == c && p == f * c
    ensures a * f == p
  {
  }

  lemma ExactDivision(p: int, d: int, q: int)
    requires d > 0 && p == d * q
    ensures p / d == q
  {
    var r := p / d;
    assert d * (q - r) == p % d;
    SmallMultiple(d, q - r);
  }

  lemma SmallMultiple(d: int, x: int)
    requires d > 0 && 0 <= d * x < d
    ensures x == 0
  {
  }

  // ---------------------------------------------------------------- the source's contract

  /** k after the reduction `if (k > n - k) k = n - k`. */
  function Reduced(n: int, k: int): int { if k > n - k then n - k else k }

  /** The product formed in round i of the loop (for the reduced k) fits a 32-bit int. */
  predicate ProductFits(n: int, k: int, i: int)
    requires 1 <= i
  {
    Multiplicative(n - k, i - 1) * (n - k + i) <= IntMax
  }

  /** No product formed by the loop for (n, k) exceeds INT_MAX. */
  predicate ProductsFit(n: int, k: int) {
    forall i :: 1 <= i <= Reduced(n, k) ==> ProductFits(n, Reduced(n, k), i)
  }

  /**
   * `binomialCoefficient`, with the overflow test made sound: 1 when k == 0 or
   * k == n, 0 when k > n, and for 0 <= k <= n either C(n, k) or, when some product
   * would exceed INT_MAX, -1. A negative k below n skips the loop and yields 1.
   */
  method BinomialCoefficient(n: int, k: int) returns (r: int)
    requires IsInt32(n) && IsInt32(k) && (k <= n ==> IsInt32(n - k))
    ensures k == 0 || n == k ==> r == 1
    ensures k != 0 && k > n ==> r == 0
    ensures 0 <= k <= n ==> r == if ProductsFit(n, k) then Binom(n, k) else -1
    ensures k < 0 && k < n ==> r == 1
  {
    if 0 == k || n == k {
      if 0 <= k <= n && k != 0 {
        BinomDiagonal(n);
      }
      return 1;
    }
    if k > n {
      return 0;
    }
    var kk := k;
    if kk > n - kk {
      BinomSymmetric(n, kk);
      kk := n - kk;
    }
    assert kk == Reduced(n, k) && (k < 0 ==> kk < 0);
    if 1 == kk {
      BinomOne(n);
      assert ProductFits(n, kk, 1);
      return n;
    }
    var res := 1;
    var i := 1;
    ghost var m := n - kk;
    while i <= kk
      invariant 1 <= i && (i <= kk + 1 || i == 1)
      invariant res == Multiplicative(m, i - 1)
      invariant forall j :: 1 <= j < i ==> ProductFits(n, kk, j)
      decreases kk + 1 - i
    {
      assert k > 0 && n - (kk - i) == m + i;
      var product := res * (n - (kk - i));
      if product > IntMax {
        assert !ProductFits(n, kk, i);
        return -1;
      }
      res := product / i;
      i := i + 1;
    }
    if kk >= 0 {
      MultiplicativeIsBinom(m, kk);
    }
    return res;
  }

  // ---------------------------------------------------------------- the loop as written

  /** Two's complement wrap-around of a mathematical integer to 32 bits. */
  function Wrap32(x: int): (w: int)
    ensures IsInt32(w) && (x - w) % 0x1_0000_0000 == 0
    ensures IsInt32(x) ==> w == x
  {
    (x + 0x8000_0000) % 0x1_0000_0000 - 0x8000_0000
  }

  /**
   * Rounds i..k of the source loop: wrapping multiply, `res < 0` test, then `res /= i`.
   * From an int `res` that is not negative, the result is the sentinel -1 or a non-negative int.
   */
  function AsWrittenRounds(n: int, k: int, i: int, res: int): (r: int)
    requires 1 <= i
    ensures 0 <= res <= IntMax ==> -1 <= r <= IntMax
    decreases k + 1 - i
  {
    if i > k then res
    else
      var p := Wrap32(res * (n - (k - i)));
      if p < 0 then -1 else
        DivisionShrinks(p, i);
        AsWrittenRounds(n, k, i + 1, p / i)
  }

  lemma DivisionShrinks(p: int, d: int)
    requires p >= 0 && d >= 1
    ensures 0 <= p / d <= p
  {
  }

  /** `binomialCoefficient` exactly as written, with signed overflow wrapping. */
  function AsWrittenBinomial(n: int, k: int): (r: int)
    ensures IsInt32(n) ==> -1 <= r <= IntMax
  {
    if 0 == k || n == k then 1
    else if k > n then 0
    else
      var k' := Reduced(n, k);
      if k' == 1 then n else AsWrittenRounds(n, k', 1, 1)
  }

  lemma AsWrittenLoops(n: int, k: int)
    requires 0 < k < n && Reduced(n, k) > 1
    ensures AsWrittenBinomial(n, k) == AsWrittenRounds(n, Reduced(n, k), 1, 1)
  {
  }

  /**
   * While no product exceeds INT_MAX nothing wraps, so the rounds of the loop as written
   * from round i on carry `res` = C(n - k + i - 1, i - 1) to C(n, k).
   */
  lemma {:induction false} AsWrittenRoundsExact(n: int, k: int, i: int)
    requires 1 <= i <= k + 1 && 0 <= n - k
    requires forall j :: i <= j <= k ==> ProductFits(n, k, j)
    ensures AsWrittenRounds(n, k, i, Multiplicative(n - k, i - 1)) == Multiplicative(n - k, k)
    decreases k + 1 - i
  {
    if i <= k {
      var m := n - k;
      MultiplicativeIsBinom(m, i - 1);
      assert ProductFits(n, k, i) && n - (k - i) == m + i;
      NonNegativeProduct(Multiplicative(m, i - 1), m + i);
      AsWrittenRoundsExact(n, k, i + 1);
    }
  }

  lemma NonNegativeProduct(a: int, b: int)
    requires a >= 0 && b >= 0
    ensures a * b >= 0
  {
  }

  /**
   * The function as written is right on every input whose products all fit an int: the
   * `res < 0` test only goes wrong once a product has wrapped.
   */
  lemma AsWrittenAgrees(n: int, k: int)
    requires 0 <= k <= n && ProductsFit(n, k)
    ensures AsWrittenBinomial(n, k) == Binom(n, k)
  {
    if k == 0 || k == n {
      BinomDiagonal(n);
    } else {
      var k' := Reduced(n, k);
      BinomSymmetric(n, k);
      if k' == 1 {
        BinomOne(n);
      } else {
        AsWrittenRoundsExact(n, k', 1);
        MultiplicativeIsBinom(n - k', k');
      }
    }
  }

  /**
   * binomialCoefficient(31, 15) as written returns 14209041 although C(31, 15) =
   * 300540195 fits an int: at i = 15 the product 145422675 * 31 wraps to the positive
   * 213135629, which the `res < 0` test does not catch. The corrected loop returns -1.
   */
  lemma AsWrittenWrapsSilently()
    ensures AsWrittenBinomial(31, 15) == 14209041
    ensures Binom(31, 15) == 300540195 && IsInt32(Binom(31, 15))
    ensures !ProductsFit(31, 15)
  {
    AsWrittenValue();
    ExactValue(31, 15);
  }

  /** The rounds of the source loop for n = 31, k = 15: only round 15 wraps, to a positive product. */
  lemma AsWrittenValue()
    ensures AsWrittenBinomial(31, 15) == 14209041
  {
    AsWrittenLoops(31, 15);
    AsWrittenRound(31, 15, 1, 1, 17);
    AsWrittenRound(31, 15, 2, 17, 153);
    AsWrittenRound(31, 15, 3, 153, 969);
    AsWrittenRound(31, 15, 4, 969, 4845);
    AsWrittenRound(31, 15, 5, 4845, 20349);
    AsWrittenRound(31, 15, 6, 20349, 74613);
    AsWrittenRound(31, 15, 7, 74613, 245157);
    AsWrittenRound(31, 15, 8, 245157, 735471);
    AsWrittenRound(31, 15, 9, 735471, 2042975);
    AsWrittenRound(31, 15, 10, 2042975, 5311735);
    AsWrittenRound(31, 15, 11, 5311735, 13037895);
    AsWrittenRound(31, 15, 12, 13037895, 30421755);
    AsWrittenRound(31, 15, 13, 30421755, 67863915);
    AsWrittenRound(31, 15, 14, 67863915, 145422675);
    assert Wrap32(145422675 * 31) == 213135629 && 213135629 / 15 == 14209041;
    AsWrittenRound(31, 15, 15, 145422675, 14209041);
  }

  /** One round of the source loop whose wrapped product is not negative. */
  lemma AsWrittenRound(n: int, k: int, i: int, res: int, next: int)
    requires 1 <= i <= k && Wrap32(res * (n - (k - i))) >= 0 && next == Wrap32(res * (n - (k - i))) / i
    ensures AsWrittenRounds(n, k, i, res) == AsWrittenRounds(n, k, i + 1, next)
  {
  }

  /** The exact rounds for n = 31, k = 15: the last product 145422675 * 31 exceeds INT_MAX. */
  lemma ExactValue(n: int, k: int)
    requires n == 31 && k == 15
    ensures Binom(n, k) == 300540195
    ensures !ProductsFit(n, k)
  {
    LastRounds();
    MultiplicativeIsBinom(n - k, k);
    assert Reduced(n, k) == 15;
    assert !ProductFits(n, 15, 15);
    OverflowingRound(n, k, 15);
  }

  /** res after rounds 1..8 for m = 16. */
  lemma FirstRounds()
    ensures Multiplicative(16, 8) == 735471
  {
    MultiplicativeStep(16, 1, 1);
    MultiplicativeStep(16, 2, 17);
    MultiplicativeStep(16, 3, 153);
    MultiplicativeStep(16, 4, 969);
    MultiplicativeStep(16, 5, 4845);
    MultiplicativeStep(16, 6, 20349);
    MultiplicativeStep(16, 7, 74613);
    MultiplicativeStep(16, 8, 245157);
  }

  /** res after rounds 9..15 for m = 16. */
  lemma LastRounds()
    ensures Multiplicative(16, 14) == 145422675 && Multiplicative(16, 15) == 300540195
  {
    FirstRounds();
    MultiplicativeStep(16, 9, 735471);
    MultiplicativeStep(16, 10, 2042975);
    MultiplicativeStep(16, 11, 5311735);
    MultiplicativeStep(16, 12, 13037895);
    MultiplicativeStep(16, 13, 30421755);
    MultiplicativeStep(16, 14, 67863915);
    MultiplicativeStep(16, 15, 145422675);
  }

  lemma MultiplicativeStep(m: int, i: nat, previous: int)
    requires i >= 1 && Multiplicative(m, i - 1) == previous
    ensures Multiplicative(m, i) == previous * (m + i) / i
  {
  }

  lemma OverflowingRound(n: int, k: int, i: int)
    requires 1 <= i <= Reduced(n, k) && !ProductFits(n, Reduced(n, k), i)
    ensures !ProductsFit(n, k)
  {
  }
}
