/** Rounding of natural numbers to binary64, as the pool's slot count needs it. */
module Float {
  import opened Numbers

  const MANTISSA := 0x20_0000_0000_0000 // 2^53

  /** The spacing of binary64 numbers around `n`. */
  function Ulp(n: nat): (u: nat)
    ensures u > 0
  {
    if n < MANTISSA then 1 else 2 * Ulp(n / 2)
  }

  /** The nearest binary64 number, ties to the even significand. */
  function Round(n: nat): nat {
    var u := Ulp(n);
    var q, r := n / u, n % u;
    if 2 * r < u || (2 * r == u && q % 2 == 0) then q * u else (q + 1) * u
  }

  /** What is left of `n` after dividing out every factor of two. */
  function OddPart(n: nat): (o: nat)
    requires n > 0
    ensures 0 < o <= n
  {
    if n % 2 == 1 then n else OddPart(n / 2)
  }

  // ----- Which numbers are represented -----

  /** Every natural number below 2^53 is represented exactly. */
  lemma RoundExact(n: nat)
    requires n < MANTISSA
    ensures Round(n) == n
  {}

  lemma {:induction false} OddPartOfProduct(a: nat, b: nat)
    requires a > 0 && b > 0
    ensures a * b > 0 && OddPart(a * b) == OddPart(a) * OddPart(b)
    decreases a + b
  {
    if a % 2 == 0 {
      HalfOfProduct(a, b);
      OddPartOfProduct(a / 2, b);
    } else if b % 2 == 0 {
      HalfOfProduct(b, a);
      OddPartOfProduct(a, b / 2);
    } else {
      OddTimesOdd(a, b);
    }
  }

  lemma HalfOfProduct(a: nat, b: nat)
    requires a > 0 && b > 0 && a % 2 == 0
    ensures a * b > 0 && (a * b) % 2 == 0 && a * b / 2 == a / 2 * b
  {
    assert a * b == 2 * (a / 2 * b);
  }

  lemma OddTimesOdd(a: nat, b: nat)
    requires a % 2 == 1 && b % 2 == 1
    ensures a * b > 0 && (a * b) % 2 == 1
  {
    var h, k := a / 2, b / 2;
    assert a * b == (2 * h + 1) * (2 * k + 1) == 2 * (2 * (h * k) + h + k) + 1;
  }

  /** A factor has no larger an odd part than the product. */
  lemma OddPartOfFactor(a: nat, b: nat)
    requires a > 0 && b > 0
    ensures a * b > 0 && OddPart(a) <= OddPart(a * b)
  {
    OddPartOfProduct(a, b);
    MulMonotone(1, OddPart(b), OddPart(a));
  }

  lemma {:induction false} UlpIsPowerOfTwo(n: nat)
    ensures OddPart(Ulp(n)) == 1
  {
    if n >= MANTISSA {
      UlpIsPowerOfTwo(n / 2);
    }
  }

  lemma {:induction false} SignificandFits(n: nat)
    ensures n / Ulp(n) < MANTISSA
  {
    if n >= MANTISSA {
      var u := Ulp(n / 2);
      SignificandFits(n / 2);
      NestedDivision(n, u);
    }
  }

  lemma NestedDivision(n: nat, u: nat)
    requires u > 0
    ensures n / (2 * u) == n / 2 / u
  {
    var h := n / 2;
    var q, r := h / u, h % u;
    assert n == 2 * (q * u + r) + n % 2 == q * (2 * u) + (2 * r + n % 2);
    DivModUnique(n, 2 * u, q, 2 * r + n % 2);
  }

  /** Rounding yields a number whose odd part fits the significand. */
  lemma RoundedFits(n: nat)
    requires Round(n) > 0
    ensures OddPart(Round(n)) < MANTISSA
  {
    var u := Ulp(n);
    var c := Round(n) / u;
    var q := n / u;
    SignificandFits(n);
    assert Round(n) == q * u || Round(n) == (q + 1) * u;
    DivModUnique(Round(n), u, if Round(n) == q * u then q else q + 1, 0);
    assert Round(n) == c * u && 0 < c <= MANTISSA;
    OddPartOfProduct(c, u);
    UlpIsPowerOfTwo(n);
    if c == MANTISSA {
      assert OddPart(c) < c;
    }
  }

  lemma {:induction false} UlpDivides(n: nat) returns (q: nat)
    requires n > 0 && OddPart(n) < MANTISSA
    ensures n == q * Ulp(n)
  {
    if n < MANTISSA {
      q := n;
    } else {
      q := UlpDivides(n / 2);
      Twice(q, Ulp(n / 2));
    }
  }

  lemma Twice(q: nat, u: nat)
    ensures q * (2 * u) == 2 * (q * u)
  {}

  /** Rounding in terms of a quotient and a remainder. */
  lemma RoundOf(n: nat, u: nat, q: nat, r: nat)
    requires u == Ulp(n) && n == q * u + r && 2 * r < u
    ensures Round(n) == q * u
  {
    DivModUnique(n, u, q, r);
  }

  /** The represented numbers are exactly those whose odd part is below 2^53. */
  lemma RoundExactly(n: nat)
    requires n > 0
    ensures Round(n) == n <==> OddPart(n) < MANTISSA
  {
    if OddPart(n) < MANTISSA {
      var q := UlpDivides(n);
      RoundOf(n, Ulp(n), q, 0);
    } else if Round(n) == n {
      RoundedFits(n);
    }
  }

  lemma UlpOfDouble(m: nat)
    requires m >= MANTISSA
    ensures Ulp(2 * m + 1) == 2 * Ulp(m) && Ulp(m) >= 2
  {
    assert (2 * m + 1) / 2 == m;
  }

  /** From 2^53 on, adding one half does not move a represented number; sums are counted in halves. */
  lemma HalfIsLost(m: nat)
    requires m >= MANTISSA && OddPart(m) < MANTISSA
    ensures Round(2 * m + 1) == 2 * m
  {
    var q := UlpDivides(m);
    var u := Ulp(m);
    Twice(q, u);
    UlpOfDouble(m);
    RoundOf(2 * m + 1, 2 * u, q, 1);
  }

  /** Between 2^52 and 2^53 one half is a tie, which goes to the even neighbour; below it is kept. */
  lemma HalfIsTie(m: nat)
    requires m < MANTISSA
    ensures Round(2 * m + 1) / 2 == if 2 * m < MANTISSA || m % 2 == 0 then m else m + 1
  {
    if 2 * m + 1 < MANTISSA {
      RoundExact(2 * m + 1);
    } else {
      assert Ulp(m) == 1 && Ulp(2 * m + 1) == 2;
      DivModUnique(2 * m + 1, 2, m, 1);
    }
  }
}
