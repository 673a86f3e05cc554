/**
 * Polynomial.Equals: the two polynomials' MonomialAtDegree results are compared with
 * Monomial.Equals for every degree from 0 up to the larger of the two degrees. A degree with
 * no entry yields Monomial.Zero, whose degree is 0, so a stored zero entry at a positive
 * degree never equals a missing one. SameCoefficients is the comparison evidently meant.
 */
module Equality {
  import opened Monomials
  import opened Dictionary

  /** BigInteger.Max(this.Degree, p.Degree): the last degree Equals looks at. */
  function Bound(t: Terms, u: Terms): int
  {
    if Degree(t) >= Degree(u) then Degree(t) else Degree(u)
  }

  /** Polynomial.Equals as written. */
  predicate EqualsAsWritten(t: Terms, u: Terms)
  {
    forall d :: 0 <= d <= Bound(t, u) ==> Monomials.Equals(MonomialAt(t, d), MonomialAt(u, d))
  }

  /** The comparison evidently meant: the coefficients agree at every degree Equals looks at. */
  predicate SameCoefficients(t: Terms, u: Terms)
  {
    forall d :: 0 <= d <= Bound(t, u) ==> Coeff(t, d) == Coeff(u, d)
  }

  /** No entry at a positive degree holds a zero coefficient. */
  predicate NoStoredZeros(t: Terms)
  {
    forall d :: d in t && d != 0 ==> t[d] != 0
  }

  // ------------------------------------------------------------------ properties

  /**
   * The corrected comparison is equality of the polynomials at every non-negative degree:
   * beyond the larger degree both coefficients are zero.
   */
  lemma SameCoefficientsMeans(t: Terms, u: Terms)
    ensures SameCoefficients(t, u) <==> forall d :: d >= 0 ==> Coeff(t, d) == Coeff(u, d)
  {
    DegreeCharacterised(t);
    DegreeCharacterised(u);
    if SameCoefficients(t, u) {
      forall d | d >= 0 ensures Coeff(t, d) == Coeff(u, d) {
        if d > Bound(t, u) {
          assert Coeff(t, d) == 0 && Coeff(u, d) == 0;
        }
      }
    }
  }

  /** Equals as written is stricter: whatever it accepts has the same coefficients. */
  lemma AsWrittenIsStricter(t: Terms, u: Terms)
    requires EqualsAsWritten(t, u)
    ensures SameCoefficients(t, u)
  {
    forall d | 0 <= d <= Bound(t, u) ensures Coeff(t, d) == Coeff(u, d) {
      assert Monomials.Equals(MonomialAt(t, d), MonomialAt(u, d));
    }
  }

  /** Without stored zeros at positive degrees the two comparisons agree. */
  lemma AsWrittenWithoutStoredZeros(t: Terms, u: Terms)
    requires NoStoredZeros(t) && NoStoredZeros(u)
    ensures EqualsAsWritten(t, u) <==> SameCoefficients(t, u)
  {
    if SameCoefficients(t, u) {
      forall d | 0 <= d <= Bound(t, u) ensures Monomials.Equals(MonomialAt(t, d), MonomialAt(u, d)) {
        assert Coeff(t, d) == Coeff(u, d);
      }
    } else {
      var d :| 0 <= d <= Bound(t, u) && Coeff(t, d) != Coeff(u, d);
      assert !Monomials.Equals(MonomialAt(t, d), MonomialAt(u, d));
    }
  }

  /** The degree is the highest degree with a nonzero coefficient. */
  lemma DegreeIs(t: Terms, k: int)
    requires Coeff(t, k) != 0 && forall d :: d in t && d > k ==> t[d] == 0
    ensures Degree(t) == k
  {
    DegreeCharacterised(t);
  }

  /** (x^2 + x) - x: a stored zero at degree 1. */
  const WithStoredZero: Terms := map[0 := 0, 1 := 0, 2 := 1]

  /** x^2 as the constructor builds it. */
  const SquareOfX: Terms := map[0 := 0, 2 := 1]

  /** Both polynomials have degree 2. */
  lemma StoredZeroBound()
    ensures Bound(WithStoredZero, SquareOfX) == 2
  {
    DegreeIs(WithStoredZero, 2);
    DegreeIs(SquareOfX, 2);
  }

  /**
   * (x^2 + x) - x leaves a stored zero at degree 1: x^2 with that entry is not Equals to x^2
   * without it, though every coefficient agrees.
   */
  lemma StoredZeroUnequal()
    ensures !EqualsAsWritten(WithStoredZero, SquareOfX)
    ensures SameCoefficients(WithStoredZero, SquareOfX)
  {
    StoredZeroBound();
    assert !Monomials.Equals(MonomialAt(WithStoredZero, 1), MonomialAt(SquareOfX, 1));
    forall d | 0 <= d <= 2 ensures Coeff(WithStoredZero, d) == Coeff(SquareOfX, d) {
      assert d == 0 || d == 1 || d == 2;
    }
  }
}
