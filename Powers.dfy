/**
 * Polynomial.Power(polyBase, exponent, polynomialMod): square-and-multiply on polynomials,
 * reducing the running result and the running base by the polynomial modulus after every
 * product when one is given. Here on dictionaries; the Polynomial class runs the same loop.
 */
module Powers {
  import opened Wrappers
  import opened Globals
  import opened Monomials
  import opened TermAlgebra
  import opened Dictionary
  import PolyOps
  import Division
  import Arith
  import Utilities

  /**
   * The static Polynomial.One, taken at its value under no modulus: its constant coefficient
   * is 1. The source builds it at some time before its first use, under the modulus then in
   * force; the model abstracts from that moment.
   */
  const OnePoly: Terms := map[0 := 1]

  /** A polynomial modulus the long division can use (see Division.LeadOk). */
  predicate ModOk(ctx: Context, pm: Option<Terms>)
    requires ctx.Valid()
  {
    pm.Some? ==> Division.LeadOk(ctx, pm.value)
  }

  /** The list congruences are taken modulo: the polynomial modulus, or nothing without one. */
  function ModList(pm: Option<Terms>): seq<Monomial>
  {
    if pm.None? then [] else NonzeroTerms(pm.value)
  }

  /** PolynomialMod(p, polynomialMod) when a polynomial modulus is given, p itself otherwise. */
  function ModBy(ctx: Context, p: Terms, pm: Option<Terms>): Result<Terms>
    requires ctx.Valid() && ModOk(ctx, pm)
  {
    if pm.None? then Ok(p) else Division.PolynomialMod(ctx, p, pm.value)
  }

  /** The result after one pass: multiplied by the base when the exponent is odd. */
  function Stepped(ctx: Context, result: Terms, base: Terms, e: nat, pm: Option<Terms>): Result<Terms>
    requires ctx.Valid() && ModOk(ctx, pm)
  {
    if e % 2 == 1 then ModBy(ctx, PolyOps.Multiply(ctx, result, base), pm) else Ok(result)
  }

  /** The base after one pass: squared. */
  function Squared(ctx: Context, base: Terms, pm: Option<Terms>): Result<Terms>
    requires ctx.Valid() && ModOk(ctx, pm)
  {
    ModBy(ctx, PolyOps.Multiply(ctx, base, base), pm)
  }

  /**
   * The while loop of Power from (result, baseValue, exponent): the final result, or the
   * exception a PolynomialMod raised. Without a polynomial modulus nothing can raise.
   */
  function PowerLoop(ctx: Context, result: Terms, base: Terms, e: nat, pm: Option<Terms>): (r: Result<Terms>)
    requires ctx.Valid() && ModOk(ctx, pm)
    ensures pm.None? ==> r.Ok?
    decreases e
  {
    if e == 0 then Ok(result)
    else
      var stepped := Stepped(ctx, result, base, e, pm);
      var squared := Squared(ctx, base, pm);
      if stepped.Err? then Err(stepped.error)
      else if squared.Err? then Err(squared.error)
      else PowerLoop(ctx, stepped.value, squared.value, e / 2, pm)
  }

  /**
   * Power(polyBase, exponent, polynomialMod): ArgumentException for a negative exponent;
   * otherwise One and the base are first reduced by the modulus, then the loop runs.
   */
  function Power(ctx: Context, base: Terms, exponent: int, pm: Option<Terms>): (r: Result<Terms>)
    requires ctx.Valid() && ModOk(ctx, pm)
    ensures exponent < 0 ==> r == Err(ArgumentError)
    ensures exponent >= 0 && pm.None? ==> r.Ok?
  {
    if exponent < 0 then Err(ArgumentError)
    else
      var one := ModBy(ctx, OnePoly, pm);
      var b := ModBy(ctx, base, pm);
      if one.Err? then Err(one.error)
      else if b.Err? then Err(b.error)
      else PowerLoop(ctx, one.value, b.value, exponent, pm)
  }

  // ------------------------------------------------------------------ one reduction

  /** Every polynomial means the list of its nonzero terms, and so does GetAllTerms. */
  lemma AllTermsEquiv(ctx: Context, p: Terms)
    requires ctx.Valid()
    ensures Equiv(ctx, AllTerms(p), NonzeroTerms(p))
  {
    forall d ensures SumAt(AllTerms(p), d) == SumAt(NonzeroTerms(p), d) {
      AllTermsSum(p, d);
      NonzeroTermsSum(p, d);
    }
    SameSums(ctx, AllTerms(p), NonzeroTerms(p));
  }

  /**
   * Reducing by the polynomial modulus changes a polynomial by a multiple of it, and leaves
   * a remainder the division is done with.
   */
  lemma ModByCongruent(ctx: Context, p: Terms, pm: Option<Terms>)
    requires ctx.Valid() && ModOk(ctx, pm) && ModBy(ctx, p, pm).Ok?
    ensures CongruentMod(ctx, NonzeroTerms(ModBy(ctx, p, pm).value), NonzeroTerms(p), ModList(pm))
    ensures pm.Some? ==> Division.Done(ModBy(ctx, p, pm).value, pm.value)
  {
    var r := ModBy(ctx, p, pm).value;
    if pm.None? {
      SameSums(ctx, NonzeroTerms(p), NonzeroTerms(p));
      EquivCongruent(ctx, NonzeroTerms(p), NonzeroTerms(p), []);
    } else {
      Division.ModCongruent(ctx, p, pm.value);
      AllTermsEquiv(ctx, p);
      EquivCongruent(ctx, AllTerms(p), NonzeroTerms(p), ModList(pm));
      CongruentTrans(ctx, NonzeroTerms(r), AllTerms(p), NonzeroTerms(p), ModList(pm));
    }
  }

  /** A reduced product is congruent to the product of the two term lists. */
  lemma ProductCongruent(ctx: Context, a: Terms, b: Terms, pm: Option<Terms>)
    requires ctx.Valid() && ModOk(ctx, pm) && ModBy(ctx, PolyOps.Multiply(ctx, a, b), pm).Ok?
    ensures CongruentMod(ctx, NonzeroTerms(ModBy(ctx, PolyOps.Multiply(ctx, a, b), pm).value),
                              Times(NonzeroTerms(a), NonzeroTerms(b)), ModList(pm))
  {
    var x := PolyOps.Multiply(ctx, a, b);
    var r := ModBy(ctx, x, pm).value;
    ModByCongruent(ctx, x, pm);
    PolyOps.MultiplyMeans(ctx, a, b);
    PolyOps.MeansNonzero(ctx, x, Times(NonzeroTerms(a), NonzeroTerms(b)));
    EquivCongruent(ctx, NonzeroTerms(x), Times(NonzeroTerms(a), NonzeroTerms(b)), ModList(pm));
    CongruentTrans(ctx, NonzeroTerms(r), NonzeroTerms(x), Times(NonzeroTerms(a), NonzeroTerms(b)), ModList(pm));
  }

  // ------------------------------------------------------------------ the loop invariant

  /** A base congruent to B*B has k-th power congruent to B^(2k). */
  lemma SquareCongruent(ctx: Context, B: seq<Monomial>, B': seq<Monomial>, k: nat, ms: seq<Monomial>)
    requires ctx.Valid() && CongruentMod(ctx, B', Times(B, B), ms)
    ensures CongruentMod(ctx, PowSem(B', k), PowSem(B, 2 * k), ms)
  {
    PowCongruent(ctx, B', Times(B, B), k, ms);
    PowSquareSem(ctx, B, k);
    EquivCongruent(ctx, PowSem(Times(B, B), k), PowSem(B, 2 * k), ms);
    CongruentTrans(ctx, PowSem(B', k), PowSem(Times(B, B), k), PowSem(B, 2 * k), ms);
  }

  /** An odd pass keeps result * base^e: R' * B'^k = (R * B) * (B * B)^k = R * B^(2k+1). */
  lemma OddPass(ctx: Context, R: seq<Monomial>, B: seq<Monomial>, R': seq<Monomial>, B': seq<Monomial>, k: nat, ms: seq<Monomial>)
    requires ctx.Valid() && CongruentMod(ctx, R', Times(R, B), ms) && CongruentMod(ctx, B', Times(B, B), ms)
    ensures CongruentMod(ctx, Times(R', PowSem(B', k)), Times(R, PowSem(B, 2 * k + 1)), ms)
  {
    SquareCongruent(ctx, B, B', k, ms);
    CongruentTimes(ctx, R', Times(R, B), PowSem(B', k), PowSem(B, 2 * k), ms);
    TimesAssociates(R, B, PowSem(B, 2 * k));
    assert PowSem(B, 2 * k + 1) == Times(B, PowSem(B, 2 * k));
  }

  /** An even pass keeps result * base^e: R * B'^k = R * (B * B)^k = R * B^(2k). */
  lemma EvenPass(ctx: Context, R: seq<Monomial>, B: seq<Monomial>, B': seq<Monomial>, k: nat, ms: seq<Monomial>)
    requires ctx.Valid() && CongruentMod(ctx, B', Times(B, B), ms)
    ensures CongruentMod(ctx, Times(R, PowSem(B', k)), Times(R, PowSem(B, 2 * k)), ms)
  {
    SquareCongruent(ctx, B, B', k, ms);
    CongruentTimesRight(ctx, R, PowSem(B', k), PowSem(B, 2 * k), ms);
  }

  /** One pass of the loop, unfolded. */
  lemma PowerLoopStep(ctx: Context, result: Terms, base: Terms, e: nat, k: nat, pm: Option<Terms>)
    requires ctx.Valid() && ModOk(ctx, pm) && e > 0 && k == e / 2 && PowerLoop(ctx, result, base, e, pm).Ok?
    ensures Stepped(ctx, result, base, e, pm).Ok? && Squared(ctx, base, pm).Ok?
    ensures PowerLoop(ctx, result, base, e, pm)
         == PowerLoop(ctx, Stepped(ctx, result, base, e, pm).value, Squared(ctx, base, pm).value, k, pm)
  {
  }

  /** One pass of the loop when neither product fails. */
  lemma PowerLoopPass(ctx: Context, result: Terms, base: Terms, e: nat, k: nat, pm: Option<Terms>)
    requires ctx.Valid() && ModOk(ctx, pm) && e > 0 && k == e / 2
    requires Stepped(ctx, result, base, e, pm).Ok? && Squared(ctx, base, pm).Ok?
    ensures PowerLoop(ctx, result, base, e, pm)
         == PowerLoop(ctx, Stepped(ctx, result, base, e, pm).value, Squared(ctx, base, pm).value, k, pm)
  {
  }

  /** One pass keeps result * base^e congruent to the target. */
  lemma PassKeeps(ctx: Context, result: Terms, base: Terms, e: nat, k: nat, pm: Option<Terms>, target: seq<Monomial>)
    requires ctx.Valid() && ModOk(ctx, pm) && e > 0 && k == e / 2
    requires Stepped(ctx, result, base, e, pm).Ok? && Squared(ctx, base, pm).Ok?
    requires CongruentMod(ctx, Times(NonzeroTerms(result), PowSem(NonzeroTerms(base), e)), target, ModList(pm))
    ensures var R', B' := NonzeroTerms(Stepped(ctx, result, base, e, pm).value), NonzeroTerms(Squared(ctx, base, pm).value);
      CongruentMod(ctx, Times(R', PowSem(B', k)), target, ModList(pm))
  {
    var ms := ModList(pm);
    var R, B := NonzeroTerms(result), NonzeroTerms(base);
    var R', B' := NonzeroTerms(Stepped(ctx, result, base, e, pm).value), NonzeroTerms(Squared(ctx, base, pm).value);
    ProductCongruent(ctx, base, base, pm);
    if e % 2 == 1 {
      ProductCongruent(ctx, result, base, pm);
      OddPass(ctx, R, B, R', B', k, ms);
      assert e == 2 * k + 1;
    } else {
      EvenPass(ctx, R, B, B', k, ms);
      assert e == 2 * k;
    }
    CongruentTrans(ctx, Times(R', PowSem(B', k)), Times(R, PowSem(B, e)), target, ms);
  }

  /** When the exponent reaches 0, result * base^0 is the result. */
  lemma LoopEndCongruent(ctx: Context, R: seq<Monomial>, B: seq<Monomial>, target: seq<Monomial>, ms: seq<Monomial>)
    requires ctx.Valid() && CongruentMod(ctx, Times(R, PowSem(B, 0)), target, ms)
    ensures CongruentMod(ctx, R, target, ms)
  {
    forall d ensures SumAt(R, d) == SumAt(Times(R, [One]), d) {
      TimesCommutes(R, [One], d);
      TimesOne(R, d);
    }
    SameSums(ctx, R, Times(R, [One]));
    EquivCongruent(ctx, R, Times(R, [One]), ms);
    CongruentTrans(ctx, R, Times(R, PowSem(B, 0)), target, ms);
  }

  /** The loop invariant: result * base^exponent stays congruent to the target. */
  lemma {:induction false} PowerLoopCongruent(ctx: Context, result: Terms, base: Terms, e: nat, pm: Option<Terms>, target: seq<Monomial>)
    requires ctx.Valid() && ModOk(ctx, pm) && PowerLoop(ctx, result, base, e, pm).Ok?
    requires CongruentMod(ctx, Times(NonzeroTerms(result), PowSem(NonzeroTerms(base), e)), target, ModList(pm))
    ensures CongruentMod(ctx, NonzeroTerms(PowerLoop(ctx, result, base, e, pm).value), target, ModList(pm))
    decreases e
  {
    if e == 0 {
      LoopEndCongruent(ctx, NonzeroTerms(result), NonzeroTerms(base), target, ModList(pm));
    } else {
      var k: nat := e / 2;
      PowerLoopStep(ctx, result, base, e, k, pm);
      PassKeeps(ctx, result, base, e, k, pm, target);
      PowerLoopCongruent(ctx, Stepped(ctx, result, base, e, pm).value, Squared(ctx, base, pm).value, k, pm, target);
    }
  }

  /** Under a polynomial modulus the loop's result is always a remainder of the division. */
  lemma {:induction false} PowerLoopDone(ctx: Context, result: Terms, base: Terms, e: nat, pm: Option<Terms>)
    requires ctx.Valid() && ModOk(ctx, pm) && pm.Some? && Division.Done(result, pm.value)
    requires PowerLoop(ctx, result, base, e, pm).Ok?
    ensures Division.Done(PowerLoop(ctx, result, base, e, pm).value, pm.value)
    decreases e
  {
    if e > 0 {
      var k: nat := e / 2;
      PowerLoopStep(ctx, result, base, e, k, pm);
      if e % 2 == 1 {
        ModByCongruent(ctx, PolyOps.Multiply(ctx, result, base), pm);
      }
      PowerLoopDone(ctx, Stepped(ctx, result, base, e, pm).value, Squared(ctx, base, pm).value, k, pm);
    }
  }

  /** Without a polynomial modulus the loop keeps the result stored (reduced). */
  lemma {:induction false} PowerLoopStored(ctx: Context, result: Terms, base: Terms, e: nat)
    requires ctx.Valid() && Stored(ctx, result)
    ensures Stored(ctx, PowerLoop(ctx, result, base, e, None).value)
    decreases e
  {
    if e > 0 {
      var k: nat := e / 2;
      PowerLoopStep(ctx, result, base, e, k, None);
      PolyOps.MultiplyMeans(ctx, result, base);
      PolyOps.MultiplyMeans(ctx, base, base);
      PowerLoopStored(ctx, Stepped(ctx, result, base, e, None).value, Squared(ctx, base, None).value, k);
    }
  }

  // ------------------------------------------------------------------ what Power computes

  /** One stands for the list [1]; it is stored reduced unless the modulus is 1. */
  lemma OneMeans(ctx: Context)
    requires ctx.Valid()
    ensures Equiv(ctx, NonzeroTerms(OnePoly), [One])
    ensures ctx.modulus != Some(1) ==> PolyOps.Means(ctx, OnePoly, [One])
  {
    forall d ensures SumAt(NonzeroTerms(OnePoly), d) == SumAt([One], d) {
      NonzeroTermsSum(OnePoly, d);
    }
    SameSums(ctx, NonzeroTerms(OnePoly), [One]);
    if ctx.modulus != Some(1) {
      forall d ensures Utilities.ModEq(ctx, Coeff(OnePoly, d), SumAt([One], d)) {
        assert SumAt([One], d) == Coeff(OnePoly, d) by {
          assert [One][1..] == [];
        }
        Utilities.ModEqRefl(ctx, Coeff(OnePoly, d));
      }
    }
  }

  /** The loop starts from One and the base, reduced: One * base^e is congruent to base^e. */
  lemma StartCongruent(ctx: Context, base: Terms, e: nat, pm: Option<Terms>)
    requires ctx.Valid() && ModOk(ctx, pm) && ModBy(ctx, OnePoly, pm).Ok? && ModBy(ctx, base, pm).Ok?
    ensures var R, B := NonzeroTerms(ModBy(ctx, OnePoly, pm).value), NonzeroTerms(ModBy(ctx, base, pm).value);
      CongruentMod(ctx, Times(R, PowSem(B, e)), PowSem(NonzeroTerms(base), e), ModList(pm))
  {
    var ms, P := ModList(pm), NonzeroTerms(base);
    var R, B := NonzeroTerms(ModBy(ctx, OnePoly, pm).value), NonzeroTerms(ModBy(ctx, base, pm).value);
    ModByCongruent(ctx, OnePoly, pm);
    OneMeans(ctx);
    EquivCongruent(ctx, NonzeroTerms(OnePoly), [One], ms);
    CongruentTrans(ctx, R, NonzeroTerms(OnePoly), [One], ms);
    ModByCongruent(ctx, base, pm);
    PowCongruent(ctx, B, P, e, ms);
    CongruentTimes(ctx, R, [One], PowSem(B, e), PowSem(P, e), ms);
    forall d ensures SumAt(Times([One], PowSem(P, e)), d) == SumAt(PowSem(P, e), d) {
      TimesOne(PowSem(P, e), d);
    }
    SameSums(ctx, Times([One], PowSem(P, e)), PowSem(P, e));
    EquivCongruent(ctx, Times([One], PowSem(P, e)), PowSem(P, e), ms);
    CongruentTrans(ctx, Times(R, PowSem(B, e)), Times([One], PowSem(P, e)), PowSem(P, e), ms);
  }

  /**
   * Power: the result is congruent to base^exponent modulo the polynomial modulus (equal to
   * it, coefficient by coefficient modulo the modulus, without one); under a polynomial
   * modulus it is a remainder, of lower degree than a modulus of degree at least 1.
   */
  lemma PowerCongruent(ctx: Context, base: Terms, exponent: nat, pm: Option<Terms>)
    requires ctx.Valid() && ModOk(ctx, pm) && Power(ctx, base, exponent, pm).Ok?
    ensures CongruentMod(ctx, NonzeroTerms(Power(ctx, base, exponent, pm).value), PowSem(NonzeroTerms(base), exponent), ModList(pm))
    ensures pm.Some? ==> Division.Done(Power(ctx, base, exponent, pm).value, pm.value)
    ensures pm.Some? && Degree(pm.value) >= 1 ==> Degree(Power(ctx, base, exponent, pm).value) < Degree(pm.value)
  {
    var one, b := ModBy(ctx, OnePoly, pm).value, ModBy(ctx, base, pm).value;
    StartCongruent(ctx, base, exponent, pm);
    PowerLoopCongruent(ctx, one, b, exponent, pm, PowSem(NonzeroTerms(base), exponent));
    if pm.Some? {
      ModByCongruent(ctx, OnePoly, pm);
      PowerLoopDone(ctx, one, b, exponent, pm);
      if Degree(pm.value) >= 1 {
        Division.DoneIsBelow(Power(ctx, base, exponent, pm).value, pm.value);
      }
    }
  }

  /**
   * Without a polynomial modulus, Power computes base^exponent: every stored coefficient is
   * reduced and is the coefficient of base^exponent modulo the modulus.
   */
  lemma PowerMeans(ctx: Context, base: Terms, exponent: nat)
    requires ctx.Valid() && ctx.modulus != Some(1)
    ensures Power(ctx, base, exponent, None).Ok?
    ensures PolyOps.Means(ctx, Power(ctx, base, exponent, None).value, PowSem(NonzeroTerms(base), exponent))
  {
    var r := Power(ctx, base, exponent, None).value;
    PowerCongruent(ctx, base, exponent, None);
    CongruentEmpty(ctx, NonzeroTerms(r), PowSem(NonzeroTerms(base), exponent));
    OneMeans(ctx);
    PowerLoopStored(ctx, OnePoly, base, exponent);
    PolyOps.NonzeroMeans(ctx, r);
    PolyOps.MeansEquiv(ctx, r, NonzeroTerms(r), PowSem(NonzeroTerms(base), exponent));
  }

  // ------------------------------------------------------------------ when Power cannot fail

  /**
   * A polynomial modulus whose leading coefficient the division can always divide by:
   * 1 without a modulus, one coprime to the modulus under one.
   */
  predicate LeadInvertible(ctx: Context, pm: Option<Terms>)
    requires ctx.Valid()
  {
    pm.Some? ==>
      (ctx.modulus.None? ==> HighestDegreeTerm(pm.value).coefficient == 1) &&
      (ctx.modulus.Some? ==> Arith.Gcd(Arith.Abs(HighestDegreeTerm(pm.value).coefficient), ctx.modulus.value) == 1)
  }

  /** With such a modulus every reduction succeeds. */
  lemma ModBySucceeds(ctx: Context, p: Terms, pm: Option<Terms>)
    requires ctx.Valid() && ModOk(ctx, pm) && LeadInvertible(ctx, pm)
    ensures ModBy(ctx, p, pm).Ok?
  {
    if pm.Some? {
      Division.LoopSucceeds(ctx, p, pm.value, []);
    }
  }

  /** With such a modulus neither product of a pass fails. */
  lemma PassSucceeds(ctx: Context, result: Terms, base: Terms, e: nat, pm: Option<Terms>)
    requires ctx.Valid() && ModOk(ctx, pm) && LeadInvertible(ctx, pm)
    ensures Stepped(ctx, result, base, e, pm).Ok? && Squared(ctx, base, pm).Ok?
  {
    SteppedSucceeds(ctx, result, base, e, pm);
    ModBySucceeds(ctx, PolyOps.Multiply(ctx, base, base), pm);
  }

  lemma SteppedSucceeds(ctx: Context, result: Terms, base: Terms, e: nat, pm: Option<Terms>)
    requires ctx.Valid() && ModOk(ctx, pm) && LeadInvertible(ctx, pm)
    ensures Stepped(ctx, result, base, e, pm).Ok?
  {
    if e % 2 == 1 {
      ModBySucceeds(ctx, PolyOps.Multiply(ctx, result, base), pm);
    }
  }

  lemma {:induction false} PowerLoopSucceeds(ctx: Context, result: Terms, base: Terms, e: nat, pm: Option<Terms>)
    requires ctx.Valid() && ModOk(ctx, pm) && LeadInvertible(ctx, pm)
    ensures PowerLoop(ctx, result, base, e, pm).Ok?
    decreases e
  {
    if e > 0 {
      var k: nat := e / 2;
      PassSucceeds(ctx, result, base, e, pm);
      PowerLoopPass(ctx, result, base, e, k, pm);
      PowerLoopSucceeds(ctx, Stepped(ctx, result, base, e, pm).value, Squared(ctx, base, pm).value, k, pm);
    }
  }

  /** Power raises no exception for a non-negative exponent and such a polynomial modulus. */
  lemma PowerSucceeds(ctx: Context, base: Terms, exponent: nat, pm: Option<Terms>)
    requires ctx.Valid() && ModOk(ctx, pm) && LeadInvertible(ctx, pm)
    ensures Power(ctx, base, exponent, pm).Ok?
  {
    ModBySucceeds(ctx, OnePoly, pm);
    ModBySucceeds(ctx, base, pm);
    PowerLoopSucceeds(ctx, ModBy(ctx, OnePoly, pm).value, ModBy(ctx, base, pm).value, exponent, pm);
  }
}
