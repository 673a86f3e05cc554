/**
 * Polynomial long division (PolynomialLongDivide, and through it Divide and PolynomialMod) on
 * dictionaries. Each pass divides the leading term of the running remainder by the leading
 * term of the divisor (Monomial.Divide, which may raise) and subtracts the divisor times that
 * quotient term; the quotient terms are added to the quotient polynomial in the same order.
 */
module Division {
  import opened Wrappers
  import opened Globals
  import Utilities
  import opened Monomials
  import opened TermAlgebra
  import opened Dictionary
  import opened PolyOps

  /** The exit test of the source (and its early return): the remainder's degree is below the divisor's. */
  predicate Below(cur: Terms, div: Terms)
  {
    Degree(cur) < Degree(div)
  }

  /** The exit test with the zero remainder added, which every divisor needs to stop. */
  predicate Done(cur: Terms, div: Terms)
  {
    Below(cur, div) || AllZero(cur)
  }

  /**
   * What a divisor needs for the leading terms to cancel: under a modulus m, a leading
   * coefficient above -m, the range where ModularMultiplicativeInverse is correct.
   */
  predicate LeadOk(ctx: Context, div: Terms)
    requires ctx.Valid()
  {
    ctx.modulus.Some? ==> HighestDegreeTerm(div).coefficient > -ctx.modulus.value
  }

  /** The quotient of the leading terms: HighestDegreeTerm(current) / HighestDegreeTerm(divisor). */
  function LeadQuotient(ctx: Context, cur: Terms, div: Terms): (r: Result<Monomial>)
    requires ctx.Valid()
  {
    Monomials.Divide(ctx, HighestDegreeTerm(cur), HighestDegreeTerm(div))
  }

  /** One pass on the remainder: currentDividend - divisor * q. */
  function Eliminate(ctx: Context, cur: Terms, div: Terms, q: Monomial): Terms
    requires ctx.Valid()
  {
    Subtract(ctx, cur, PolyOps.Multiply(ctx, div, FromMonomial(ctx, q)))
  }

  /** How many more passes at most: the degree gap plus one, or none once done. */
  function Height(cur: Terms, div: Terms): nat
  {
    if Done(cur, div) then 0 else Degree(cur) - Degree(div) + 1
  }

  /**
   * The loop of PolynomialLongDivide from the remainder cur, with the quotient terms qs added
   * so far: the quotient terms in the order they are added, and the final remainder; or the
   * exception Monomial.Divide raises. The exit is the corrected Done test.
   */
  function Loop(ctx: Context, cur: Terms, div: Terms, qs: seq<Monomial>): Result<(seq<Monomial>, Terms)>
    requires ctx.Valid() && LeadOk(ctx, div)
    decreases Height(cur, div)
  {
    if Done(cur, div) then Ok((qs, cur))
    else
      match LeadQuotient(ctx, cur, div)
      case Err(e) => Err(e)
      case Ok(q) =>
        HeightFalls(ctx, cur, div, q);
        Loop(ctx, Eliminate(ctx, cur, div, q), div, qs + [q])
  }

  /**
   * PolynomialLongDivide(dividend, divisor): the quotient, built by adding the quotient terms
   * to the polynomial zero (the dictionary the quotient starts from), and the remainder.
   */
  function LongDivide(ctx: Context, dividend: Terms, div: Terms, zero: Terms): Result<(Terms, Terms)>
    requires ctx.Valid() && LeadOk(ctx, div)
  {
    match Loop(ctx, dividend, div, [])
    case Err(e) => Err(e)
    case Ok((qs, rem)) => Ok((AddAll(ctx, zero, qs), rem))
  }

  /** Divide(dividend, divisor) with a fresh zero quotient: [quotient, remainder]. */
  function Divide(ctx: Context, dividend: Terms, div: Terms): Result<(Terms, Terms)>
    requires ctx.Valid() && LeadOk(ctx, div)
  {
    LongDivide(ctx, dividend, div, Empty(ctx))
  }

  /** PolynomialMod(poly, polyMod): the remainder alone (remainderOnly drops the quotient). */
  function PolynomialMod(ctx: Context, p: Terms, div: Terms): Result<Terms>
    requires ctx.Valid() && LeadOk(ctx, div)
  {
    match Loop(ctx, p, div, [])
    case Err(e) => Err(e)
    case Ok((_, rem)) => Ok(rem)
  }

  // ------------------------------------------------------------------ the source's loop

  /**
   * The loop as written: it stops only when the remainder's degree is below the divisor's.
   * The fuel bounds the number of passes; running out of it stands for a loop that has not
   * stopped.
   */
  function AsWrittenLoop(ctx: Context, cur: Terms, div: Terms, qs: seq<Monomial>, fuel: nat): Result<(seq<Monomial>, Terms)>
    requires ctx.Valid()
    decreases fuel
  {
    if Below(cur, div) then Ok((qs, cur))
    else if fuel == 0 then Err(OutOfFuel)
    else
      match LeadQuotient(ctx, cur, div)
      case Err(e) => Err(e)
      case Ok(q) => AsWrittenLoop(ctx, Eliminate(ctx, cur, div, q), div, qs + [q], fuel - 1)
  }

  // ------------------------------------------------------------------ arithmetic helpers

  /** n = c - x and x = y give n = c - y, modulo the modulus. */
  lemma ModEqSubtract(ctx: Context, n: int, c: int, x: int, y: int)
    requires ctx.Valid() && Utilities.ModEq(ctx, n, c - x) && Utilities.ModEq(ctx, x, y)
    ensures Utilities.ModEq(ctx, n, c - y)
  {
    Utilities.ModEqRefl(ctx, c);
    Utilities.ModEqNeg(ctx, x, y);
    Utilities.ModEqAdd(ctx, c, -x, c, -y);
    Utilities.ModEqTrans(ctx, n, c - x, c - y);
  }

  /** n = c - y gives c + t = n + (t + y), modulo the modulus. */
  lemma ModEqRestore(ctx: Context, n: int, c: int, t: int, y: int)
    requires ctx.Valid() && Utilities.ModEq(ctx, n, c - y)
    ensures Utilities.ModEq(ctx, c + t, n + (t + y))
  {
    Utilities.ModEqRefl(ctx, t + y);
    Utilities.ModEqAdd(ctx, n, t + y, c - y, t + y);
    Utilities.ModEqSym(ctx, n + (t + y), c + t);
  }

  /** Under the modulus 1 every reduced value is zero, so every stored polynomial is zero. */
  lemma StoredUnderOne(ctx: Context, t: Terms)
    requires ctx.Valid() && ctx.modulus == Some(1) && Stored(ctx, t)
    ensures AllZero(t)
  {
  }

  // ------------------------------------------------------------------ one pass

  /** The highest-degree term is the coefficient at Degree, also for the zero polynomial. */
  lemma LeadIs(t: Terms)
    ensures HighestDegreeTerm(t) == Monomial(Coeff(t, Degree(t)), Degree(t))
  {
    HighestDegreeTermIs(t);
    DegreeCharacterised(t);
  }

  /** A pass subtracts q times the divisor's coefficient q.degree lower, at every degree. */
  lemma PassCoefficient(ctx: Context, cur: Terms, div: Terms, q: Monomial, e: int)
    requires ctx.Valid()
    ensures Utilities.ModEq(ctx, Coeff(Eliminate(ctx, cur, div, q), e), Coeff(cur, e) - q.coefficient * Coeff(div, e - q.degree))
    ensures Utilities.Reduced(ctx, Coeff(Eliminate(ctx, cur, div, q), e))
  {
    var x := PolyOps.Multiply(ctx, div, FromMonomial(ctx, q));
    SubtractCoefficients(ctx, cur, x, e);
    MonomialProductCoefficients(ctx, div, q, e);
    ModEqSubtract(ctx, Coeff(Eliminate(ctx, cur, div, q), e), Coeff(cur, e), Coeff(x, e), q.coefficient * Coeff(div, e - q.degree));
  }

  /** The remainder after a pass stores reduced coefficients. */
  lemma PassStored(ctx: Context, cur: Terms, div: Terms, q: Monomial)
    requires ctx.Valid()
    ensures Stored(ctx, Eliminate(ctx, cur, div, q))
  {
    var n := Eliminate(ctx, cur, div, q);
    forall e | e in n ensures Utilities.Reduced(ctx, n[e]) {
      PassCoefficient(ctx, cur, div, q, e);
    }
  }

  /**
   * The quotient of the leading terms times the divisor's leading coefficient is the
   * remainder's leading coefficient, and its degree is the gap between the two degrees.
   */
  lemma LeadQuotientCancels(ctx: Context, cur: Terms, div: Terms, q: Monomial)
    requires ctx.Valid() && LeadOk(ctx, div) && LeadQuotient(ctx, cur, div) == Ok(q)
    requires ctx.modulus.Some? ==> ctx.modulus.value > 1
    ensures q.degree == Degree(cur) - Degree(div)
    ensures Utilities.ModEq(ctx, q.coefficient * Coeff(div, Degree(div)), Coeff(cur, Degree(cur)))
  {
    var A, B := HighestDegreeTerm(cur), HighestDegreeTerm(div);
    LeadIs(cur);
    LeadIs(div);
    DivideThenMultiply(ctx, A, B);
    var m := Monomials.Multiply(ctx, q, B);
    Utilities.ModEqSym(ctx, m.coefficient, q.coefficient * B.coefficient);
    Utilities.ModEqTrans(ctx, q.coefficient * B.coefficient, m.coefficient, A.coefficient);
  }

  /** Above the remainder's degree, a pass leaves zero. */
  lemma PassVanishesAbove(ctx: Context, cur: Terms, div: Terms, q: Monomial, n: Terms, e: int)
    requires ctx.Valid() && Stored(ctx, n) && e > Degree(cur)
    requires q.degree == Degree(cur) - Degree(div)
    requires Utilities.ModEq(ctx, Coeff(n, e), Coeff(cur, e) - q.coefficient * Coeff(div, e - q.degree))
    ensures Coeff(n, e) == 0
  {
    DegreeCharacterised(cur);
    DegreeCharacterised(div);
    assert Coeff(cur, e) == 0 && Coeff(div, e - q.degree) == 0;
    StoredZero(ctx, n, e);
  }

  /** At the remainder's degree, a pass cancels the leading coefficient. */
  lemma PassCancelsLead(ctx: Context, cur: Terms, div: Terms, q: Monomial, n: Terms, e: int)
    requires ctx.Valid() && Stored(ctx, n) && e == Degree(cur)
    requires q.degree == Degree(cur) - Degree(div)
    requires Utilities.ModEq(ctx, q.coefficient * Coeff(div, Degree(div)), Coeff(cur, Degree(cur)))
    requires Utilities.ModEq(ctx, Coeff(n, e), Coeff(cur, e) - q.coefficient * Coeff(div, e - q.degree))
    ensures Coeff(n, e) == 0
  {
    var c := Coeff(cur, e);
    assert e - q.degree == Degree(div);
    ModEqSubtract(ctx, Coeff(n, e), c, q.coefficient * Coeff(div, Degree(div)), c);
    StoredZero(ctx, n, e);
  }

  /** What a pass leaves at a degree at or above the remainder's: zero. */
  lemma ClearsTop(ctx: Context, cur: Terms, div: Terms, q: Monomial, n: Terms, e: int)
    requires ctx.Valid() && Stored(ctx, n) && e >= Degree(cur)
    requires q.degree == Degree(cur) - Degree(div)
    requires Utilities.ModEq(ctx, q.coefficient * Coeff(div, Degree(div)), Coeff(cur, Degree(cur)))
    requires Utilities.ModEq(ctx, Coeff(n, e), Coeff(cur, e) - q.coefficient * Coeff(div, e - q.degree))
    ensures Coeff(n, e) == 0
  {
    if e == Degree(cur) {
      PassCancelsLead(ctx, cur, div, q, n, e);
    } else {
      PassVanishesAbove(ctx, cur, div, q, n, e);
    }
  }

  /** From a remainder that is not done, a pass leaves nothing at or above its degree. */
  lemma PassClearsTop(ctx: Context, cur: Terms, div: Terms, q: Monomial, e: int)
    requires ctx.Valid() && LeadOk(ctx, div) && LeadQuotient(ctx, cur, div) == Ok(q)
    requires ctx.modulus.Some? ==> ctx.modulus.value > 1
    requires e >= Degree(cur)
    ensures Coeff(Eliminate(ctx, cur, div, q), e) == 0
  {
    LeadQuotientCancels(ctx, cur, div, q);
    PassStored(ctx, cur, div, q);
    PassCoefficient(ctx, cur, div, q, e);
    ClearsTop(ctx, cur, div, q, Eliminate(ctx, cur, div, q), e);
  }

  /** Each pass strictly lowers the height, so the loop ends. */
  lemma HeightFalls(ctx: Context, cur: Terms, div: Terms, q: Monomial)
    requires ctx.Valid() && LeadOk(ctx, div) && !Done(cur, div) && LeadQuotient(ctx, cur, div) == Ok(q)
    ensures Height(Eliminate(ctx, cur, div, q), div) < Height(cur, div)
  {
    var n := Eliminate(ctx, cur, div, q);
    PassStored(ctx, cur, div, q);
    if ctx.modulus == Some(1) {
      StoredUnderOne(ctx, n);
    } else if !Done(n, div) {
      DegreeCharacterised(n);
      if Degree(n) >= Degree(cur) {
        PassClearsTop(ctx, cur, div, q, Degree(n));
      }
    }
  }

  // ------------------------------------------------------------------ what the loop computes

  /** The loop ends on a remainder that is done: below the divisor's degree, or zero. */
  lemma {:induction false} LoopDone(ctx: Context, cur: Terms, div: Terms, qs: seq<Monomial>)
    requires ctx.Valid() && LeadOk(ctx, div) && Loop(ctx, cur, div, qs).Ok?
    ensures Done(Loop(ctx, cur, div, qs).value.1, div)
    decreases Height(cur, div)
  {
    if !Done(cur, div) {
      var q := LeadQuotient(ctx, cur, div).value;
      HeightFalls(ctx, cur, div, q);
      LoopDone(ctx, Eliminate(ctx, cur, div, q), div, qs + [q]);
    }
  }

  /** With a divisor of degree at least 1, done is the source's test: the degree is below. */
  lemma DoneIsBelow(cur: Terms, div: Terms)
    requires Degree(div) >= 1
    ensures Done(cur, div) <==> Below(cur, div)
  {
    DegreeCharacterised(cur);
  }

  /** Adding the quotient term q adds q times the divisor's coefficient q.degree lower. */
  lemma TimesSnoc(qs: seq<Monomial>, q: Monomial, div: Terms, d: int)
    ensures SumAt(Times(qs + [q], NonzeroTerms(div)), d)
         == SumAt(Times(qs, NonzeroTerms(div)), d) + q.coefficient * Coeff(div, d - q.degree)
  {
    var P := NonzeroTerms(div);
    TimesConcatLeft(qs, [q], P);
    SumAtConcat(Times(qs, P), Times([q], P), d);
    SumAtTimes([q], P, d);
    NonzeroTermsSum(div, d - q.degree);
  }

  /** A remainder n that a pass with q produced keeps the identity at degree d. */
  lemma IdentityKept(ctx: Context, cur: Terms, div: Terms, q: Monomial, qs: seq<Monomial>, n: Terms, d: int)
    requires ctx.Valid()
    requires Utilities.ModEq(ctx, Coeff(n, d), Coeff(cur, d) - q.coefficient * Coeff(div, d - q.degree))
    ensures var P := NonzeroTerms(div);
      Utilities.ModEq(ctx, Coeff(cur, d) + SumAt(Times(qs, P), d), Coeff(n, d) + SumAt(Times(qs + [q], P), d))
  {
    TimesSnoc(qs, q, div, d);
    ModEqRestore(ctx, Coeff(n, d), Coeff(cur, d), SumAt(Times(qs, NonzeroTerms(div)), d), q.coefficient * Coeff(div, d - q.degree));
  }

  /** One pass keeps dividend = quotient * divisor + remainder at degree d. */
  lemma PassIdentity(ctx: Context, cur: Terms, div: Terms, q: Monomial, qs: seq<Monomial>, d: int)
    requires ctx.Valid()
    ensures var P := NonzeroTerms(div);
      Utilities.ModEq(ctx, Coeff(cur, d) + SumAt(Times(qs, P), d),
                           Coeff(Eliminate(ctx, cur, div, q), d) + SumAt(Times(qs + [q], P), d))
  {
    PassCoefficient(ctx, cur, div, q, d);
    IdentityKept(ctx, cur, div, q, qs, Eliminate(ctx, cur, div, q), d);
  }

  /** The loop keeps dividend = quotient * divisor + remainder, coefficient by coefficient. */
  lemma {:induction false} LoopIdentity(ctx: Context, cur: Terms, div: Terms, qs: seq<Monomial>, d: int)
    requires ctx.Valid() && LeadOk(ctx, div) && Loop(ctx, cur, div, qs).Ok?
    ensures var (qs', rem) := Loop(ctx, cur, div, qs).value; var P := NonzeroTerms(div);
      Utilities.ModEq(ctx, Coeff(cur, d) + SumAt(Times(qs, P), d), Coeff(rem, d) + SumAt(Times(qs', P), d))
    decreases Height(cur, div)
  {
    var P := NonzeroTerms(div);
    if Done(cur, div) {
      Utilities.ModEqRefl(ctx, Coeff(cur, d) + SumAt(Times(qs, P), d));
    } else {
      var q := LeadQuotient(ctx, cur, div).value;
      var n := Eliminate(ctx, cur, div, q);
      HeightFalls(ctx, cur, div, q);
      var (qs', rem) := Loop(ctx, cur, div, qs).value;
      PassIdentity(ctx, cur, div, q, qs, d);
      LoopIdentity(ctx, n, div, qs + [q], d);
      Utilities.ModEqTrans(ctx, Coeff(cur, d) + SumAt(Times(qs, P), d),
        Coeff(n, d) + SumAt(Times(qs + [q], P), d), Coeff(rem, d) + SumAt(Times(qs', P), d));
    }
  }

  /** The only exceptions are those of Monomial.Divide on the leading terms. */
  lemma {:induction false} LoopErrors(ctx: Context, cur: Terms, div: Terms, qs: seq<Monomial>)
    requires ctx.Valid() && LeadOk(ctx, div) && Loop(ctx, cur, div, qs).Err?
    ensures Loop(ctx, cur, div, qs).error in {DivideByZero, ArgumentError, BadModulus}
    decreases Height(cur, div)
  {
    var A, B := HighestDegreeTerm(cur), HighestDegreeTerm(div);
    if ctx.modulus.None? {
      Utilities.DivideExact(ctx, A.coefficient, B.coefficient);
    } else {
      Utilities.DivideModular(ctx, A.coefficient, B.coefficient);
    }
    if LeadQuotient(ctx, cur, div).Ok? {
      var q := LeadQuotient(ctx, cur, div).value;
      HeightFalls(ctx, cur, div, q);
      LoopErrors(ctx, Eliminate(ctx, cur, div, q), div, qs + [q]);
    }
  }

  /**
   * A divisor whose leading coefficient is 1 (without a modulus) or invertible (under one)
   * never makes the loop raise.
   */
  lemma {:induction false} LoopSucceeds(ctx: Context, cur: Terms, div: Terms, qs: seq<Monomial>)
    requires ctx.Valid() && LeadOk(ctx, div)
    requires ctx.modulus.None? ==> HighestDegreeTerm(div).coefficient == 1
    requires ctx.modulus.Some? ==> Arith.Gcd(Arith.Abs(HighestDegreeTerm(div).coefficient), ctx.modulus.value) == 1
    ensures Loop(ctx, cur, div, qs).Ok?
    decreases Height(cur, div)
  {
    if !Done(cur, div) {
      var A, B := HighestDegreeTerm(cur), HighestDegreeTerm(div);
      if ctx.modulus.None? {
        Utilities.DivideExact(ctx, A.coefficient, B.coefficient);
        assert Arith.TruncMod(A.coefficient, 1) == 0;
      } else {
        Utilities.DivideModular(ctx, A.coefficient, B.coefficient);
      }
      var q := LeadQuotient(ctx, cur, div).value;
      HeightFalls(ctx, cur, div, q);
      LoopSucceeds(ctx, Eliminate(ctx, cur, div, q), div, qs + [q]);
    }
  }

  /** The quotient the loop builds from zero means its quotient terms. */
  lemma QuotientMeans(ctx: Context, qs: seq<Monomial>, div: Terms, d: int)
    requires ctx.Valid()
    ensures Utilities.ModEq(ctx, Coeff(PolyOps.Multiply(ctx, AddAll(ctx, Empty(ctx), qs), div), d), SumAt(Times(qs, NonzeroTerms(div)), d))
  {
    var Q, P := AddAll(ctx, Empty(ctx), qs), NonzeroTerms(div);
    NewMeans(ctx, qs);
    MeansNonzero(ctx, Q, qs);
    SameSums(ctx, P, P);
    TimesEquiv(ctx, NonzeroTerms(Q), qs, P, P);
    MultiplyMeans(ctx, Q, div);
    MeansAt(ctx, PolyOps.Multiply(ctx, Q, div), Times(NonzeroTerms(Q), P), d);
    Utilities.ModEqTrans(ctx, Coeff(PolyOps.Multiply(ctx, Q, div), d), SumAt(Times(NonzeroTerms(Q), P), d), SumAt(Times(qs, P), d));
  }

  /**
   * Divide: dividend = quotient * divisor + remainder, coefficient by coefficient, and the
   * remainder is done (its degree is below the divisor's when that is at least 1).
   */
  lemma DivisionIdentity(ctx: Context, dividend: Terms, div: Terms, d: int)
    requires ctx.Valid() && LeadOk(ctx, div) && Divide(ctx, dividend, div).Ok?
    ensures var (quotient, rem) := Divide(ctx, dividend, div).value;
      Utilities.ModEq(ctx, Coeff(dividend, d), Coeff(PolyOps.Multiply(ctx, quotient, div), d) + Coeff(rem, d))
    ensures Done(Divide(ctx, dividend, div).value.1, div)
    ensures Degree(div) >= 1 ==> Degree(Divide(ctx, dividend, div).value.1) < Degree(div)
  {
    var (qs, rem) := Loop(ctx, dividend, div, []).value;
    var P := NonzeroTerms(div);
    LoopDone(ctx, dividend, div, []);
    LoopIdentity(ctx, dividend, div, [], d);
    assert Times([], P) == [];
    QuotientMeans(ctx, qs, div, d);
    var x := Coeff(PolyOps.Multiply(ctx, AddAll(ctx, Empty(ctx), qs), div), d);
    Utilities.ModEqSym(ctx, x, SumAt(Times(qs, P), d));
    Utilities.ModEqRefl(ctx, Coeff(rem, d));
    Utilities.ModEqAdd(ctx, SumAt(Times(qs, P), d), Coeff(rem, d), x, Coeff(rem, d));
    Utilities.ModEqTrans(ctx, Coeff(dividend, d), Coeff(rem, d) + SumAt(Times(qs, P), d), x + Coeff(rem, d));
    if Degree(div) >= 1 {
      DoneIsBelow(rem, div);
    }
  }

  /** One coefficient of p = rem + T, restated on the term lists of p and rem. */
  lemma RemainderAt(ctx: Context, p: Terms, rem: Terms, T: seq<Monomial>, d: int)
    requires ctx.Valid() && Utilities.ModEq(ctx, Coeff(p, d), Coeff(rem, d) + SumAt(T, d))
    ensures Utilities.ModEq(ctx, SumAt(NonzeroTerms(rem) + T, d), SumAt(AllTerms(p), d))
  {
    SumAtConcat(NonzeroTerms(rem), T, d);
    NonzeroTermsSum(rem, d);
    AllTermsSum(p, d);
    Utilities.ModEqSym(ctx, Coeff(p, d), Coeff(rem, d) + SumAt(T, d));
  }

  /**
   * PolynomialMod: the remainder is the polynomial minus a multiple of the modulus
   * polynomial, and is done (of lower degree when the modulus has degree at least 1).
   */
  lemma ModCongruent(ctx: Context, p: Terms, div: Terms)
    requires ctx.Valid() && LeadOk(ctx, div) && PolynomialMod(ctx, p, div).Ok?
    ensures CongruentMod(ctx, NonzeroTerms(PolynomialMod(ctx, p, div).value), AllTerms(p), NonzeroTerms(div))
    ensures Done(PolynomialMod(ctx, p, div).value, div)
    ensures Degree(div) >= 1 ==> Degree(PolynomialMod(ctx, p, div).value) < Degree(div)
  {
    var (qs, rem) := Loop(ctx, p, div, []).value;
    var P := NonzeroTerms(div);
    LoopDone(ctx, p, div, []);
    assert Times([], P) == [];
    forall d ensures Utilities.ModEq(ctx, SumAt(NonzeroTerms(rem) + Times(qs, P), d), SumAt(AllTerms(p), d)) {
      LoopIdentity(ctx, p, div, [], d);
      RemainderAt(ctx, p, rem, Times(qs, P), d);
    }
    assert Equiv(ctx, NonzeroTerms(rem) + Times(qs, P), AllTerms(p));
    if Degree(div) >= 1 {
      DoneIsBelow(rem, div);
    }
  }

  /**
   * Divide with the quotient started from a dictionary zero that already holds terms (the
   * shared Polynomial.Zero after an earlier division): the quotient is zero's coefficients
   * plus the new quotient terms.
   */
  lemma QuotientAccumulates(ctx: Context, dividend: Terms, div: Terms, zero: Terms, d: int)
    requires ctx.Valid() && LeadOk(ctx, div) && LongDivide(ctx, dividend, div, zero).Ok?
    ensures LongDivide(ctx, dividend, div, Empty(ctx)).Ok?
    ensures Utilities.ModEq(ctx, Coeff(LongDivide(ctx, dividend, div, zero).value.0, d),
                                 Coeff(zero, d) + Coeff(LongDivide(ctx, dividend, div, Empty(ctx)).value.0, d))
  {
    var qs := Loop(ctx, dividend, div, []).value.0;
    assert LongDivide(ctx, dividend, div, zero).value.0 == AddAll(ctx, zero, qs);
    assert LongDivide(ctx, dividend, div, Empty(ctx)).value.0 == AddAll(ctx, Empty(ctx), qs);
    AddAllFromZero(ctx, zero, qs, d);
  }

  /** Adding terms to a dictionary that holds some already adds them to what it holds. */
  lemma AddAllFromZero(ctx: Context, zero: Terms, qs: seq<Monomial>, d: int)
    requires ctx.Valid()
    ensures Utilities.ModEq(ctx, Coeff(AddAll(ctx, zero, qs), d), Coeff(zero, d) + Coeff(AddAll(ctx, Empty(ctx), qs), d))
  {
    AddAllCoeff(ctx, zero, qs, d);
    AddAllCoeff(ctx, Empty(ctx), qs, d);
    var fromZero := Coeff(AddAll(ctx, Empty(ctx), qs), d);
    Utilities.ModEqSym(ctx, fromZero, 0 + SumAt(qs, d));
    Utilities.ModEqRefl(ctx, Coeff(zero, d));
    Utilities.ModEqAdd(ctx, Coeff(zero, d), SumAt(qs, d), Coeff(zero, d), fromZero);
    Utilities.ModEqTrans(ctx, Coeff(AddAll(ctx, zero, qs), d), Coeff(zero, d) + SumAt(qs, d), Coeff(zero, d) + fromZero);
  }

  // ------------------------------------------------------------------ the loop as written

  /** One pass of the corrected loop. */
  lemma LoopStep(ctx: Context, cur: Terms, div: Terms, qs: seq<Monomial>, q: Monomial)
    requires ctx.Valid() && LeadOk(ctx, div) && !Done(cur, div) && LeadQuotient(ctx, cur, div) == Ok(q)
    ensures Loop(ctx, cur, div, qs) == Loop(ctx, Eliminate(ctx, cur, div, q), div, qs + [q])
  {
  }

  /** Both loops raise what Monomial.Divide raises on the leading terms. */
  lemma StepFails(ctx: Context, cur: Terms, div: Terms, qs: seq<Monomial>, fuel: nat)
    requires ctx.Valid() && LeadOk(ctx, div) && !Done(cur, div) && fuel > 0 && LeadQuotient(ctx, cur, div).Err?
    ensures AsWrittenLoop(ctx, cur, div, qs, fuel) == Loop(ctx, cur, div, qs) == Err(LeadQuotient(ctx, cur, div).error)
  {
  }

  /** One pass of the source's loop, with f passes left after it. */
  lemma AsWrittenUnfold(ctx: Context, cur: Terms, div: Terms, qs: seq<Monomial>, q: Monomial, f: nat)
    requires ctx.Valid() && !Below(cur, div) && LeadQuotient(ctx, cur, div) == Ok(q)
    ensures AsWrittenLoop(ctx, cur, div, qs, f + 1) == AsWrittenLoop(ctx, Eliminate(ctx, cur, div, q), div, qs + [q], f)
  {
  }

  /** The same pass, for a pass count written fuel = f + 1. */
  lemma AsWrittenStep(ctx: Context, cur: Terms, div: Terms, qs: seq<Monomial>, q: Monomial, fuel: nat, f: nat)
    requires ctx.Valid() && !Below(cur, div) && fuel == f + 1 && LeadQuotient(ctx, cur, div) == Ok(q)
    ensures AsWrittenLoop(ctx, cur, div, qs, fuel) == AsWrittenLoop(ctx, Eliminate(ctx, cur, div, q), div, qs + [q], f)
  {
    AsWrittenUnfold(ctx, cur, div, qs, q, f);
  }

  /**
   * With a divisor of degree at least 1, the source's loop, given enough passes, computes
   * what the corrected loop does.
   */
  lemma {:induction false} AsWrittenAgrees(ctx: Context, cur: Terms, div: Terms, qs: seq<Monomial>, fuel: nat)
    requires ctx.Valid() && LeadOk(ctx, div) && Degree(div) >= 1 && fuel >= Height(cur, div)
    ensures AsWrittenLoop(ctx, cur, div, qs, fuel) == Loop(ctx, cur, div, qs)
    decreases fuel
  {
    DoneIsBelow(cur, div);
    if Below(cur, div) {
    } else if LeadQuotient(ctx, cur, div).Err? {
      StepFails(ctx, cur, div, qs, fuel);
    } else {
      var q := LeadQuotient(ctx, cur, div).value;
      var n, f: nat := Eliminate(ctx, cur, div, q), fuel - 1;
      HeightFalls(ctx, cur, div, q);
      AsWrittenStep(ctx, cur, div, qs, q, fuel, f);
      AsWrittenAgrees(ctx, n, div, qs + [q], f);
      LoopStep(ctx, cur, div, qs, q);
    }
  }

  /** All-zero remainders have the same leading term, the zero monomial. */
  lemma ZeroLead(ctx: Context, cur: Terms, n: Terms, div: Terms)
    requires ctx.Valid() && AllZero(cur) && AllZero(n)
    ensures Degree(n) == 0 && LeadQuotient(ctx, n, div) == LeadQuotient(ctx, cur, div)
  {
    LeadIs(cur);
    LeadIs(n);
    DegreeCharacterised(cur);
    DegreeCharacterised(n);
  }

  /** Subtracting zero times anything from zero leaves a stored zero. */
  lemma ZeroPassCoefficient(ctx: Context, cur: Terms, div: Terms, q: Monomial, n: Terms, e: int)
    requires ctx.Valid() && Stored(ctx, n) && AllZero(cur) && q.coefficient == 0
    requires Utilities.ModEq(ctx, Coeff(n, e), Coeff(cur, e) - q.coefficient * Coeff(div, e - q.degree))
    ensures Coeff(n, e) == 0
  {
    StoredZero(ctx, n, e);
  }

  /**
   * A constant divisor and a zero remainder: the pass leaves a zero remainder again, whose
   * degree 0 is not below the divisor's 0, so the source's exit test never holds.
   */
  lemma ConstantDivisorPass(ctx: Context, cur: Terms, div: Terms, q: Monomial)
    requires ctx.Valid() && Degree(div) == 0 && AllZero(cur) && LeadQuotient(ctx, cur, div) == Ok(q)
    ensures AllZero(Eliminate(ctx, cur, div, q)) && !Below(Eliminate(ctx, cur, div, q), div)
    ensures LeadQuotient(ctx, Eliminate(ctx, cur, div, q), div) == Ok(q)
  {
    var n := Eliminate(ctx, cur, div, q);
    assert q.coefficient == 0 by {
      LeadIs(cur);
      DegreeCharacterised(cur);
      Utilities.DivideZero(ctx, HighestDegreeTerm(div).coefficient);
      ReduceZero(ctx);
    }
    PassStored(ctx, cur, div, q);
    forall e | e in n ensures n[e] == 0 {
      PassCoefficient(ctx, cur, div, q, e);
      ZeroPassCoefficient(ctx, cur, div, q, n, e);
    }
    ZeroLead(ctx, cur, n, div);
  }

  /** Hence the source's loop never stops: no number of passes is enough. */
  lemma {:induction false} ConstantDivisorDiverges(ctx: Context, cur: Terms, div: Terms, qs: seq<Monomial>, fuel: nat)
    requires ctx.Valid() && Degree(div) == 0 && AllZero(cur) && LeadQuotient(ctx, cur, div).Ok?
    ensures AsWrittenLoop(ctx, cur, div, qs, fuel) == Err(OutOfFuel)
    decreases fuel
  {
    DegreeCharacterised(cur);
    if fuel > 0 {
      var q := LeadQuotient(ctx, cur, div).value;
      var n, f: nat := Eliminate(ctx, cur, div, q), fuel - 1;
      ConstantDivisorPass(ctx, cur, div, q);
      ConstantDivisorDiverges(ctx, n, div, qs + [q], f);
      AsWrittenStep(ctx, cur, div, qs, q, fuel, f);
    }
  }

  /** The corrected loop stops at once on the same input. */
  lemma ConstantDivisorCorrected(ctx: Context, cur: Terms, div: Terms, qs: seq<Monomial>)
    requires ctx.Valid() && LeadOk(ctx, div) && AllZero(cur)
    ensures Loop(ctx, cur, div, qs) == Ok((qs, cur))
  {
  }

  /** Dividing the zero polynomial by the constant 2, without a modulus, never ends in the source. */
  lemma ZeroByTwoDiverges(fuel: nat)
    ensures AsWrittenLoop(Initial, Empty(Initial), FromMonomial(Initial, Monomial(2, 0)), [], fuel) == Err(OutOfFuel)
    ensures Divide(Initial, Empty(Initial), FromMonomial(Initial, Monomial(2, 0))) == Ok((Empty(Initial), Empty(Initial)))
  {
    var ctx := Initial;
    var div := FromMonomial(ctx, Monomial(2, 0));
    assert div == map[0 := 2] by {
      Utilities.ReduceReduced(ctx, 2);
      Utilities.ReduceReduced(ctx, 0 + 2);
    }
    DegreeCharacterised(div);
    assert Degree(div) == 0;
    LeadIs(div);
    LeadIs(Empty(ctx));
    DegreeCharacterised(Empty(ctx));
    assert LeadQuotient(ctx, Empty(ctx), div).Ok? by {
      Utilities.DivideExact(ctx, 0, 2);
      assert Arith.TruncMod(0, 2) == 0;
    }
    ConstantDivisorDiverges(ctx, Empty(ctx), div, [], fuel);
  }
}
