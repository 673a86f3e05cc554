/**
 * The AKS primality test (Agrawal, Kayal and Saxena, "PRIMES is in P") as the library runs
 * it: the perfect-power test, the search for r, the gcd test, the dead third step, the
 * n <= r shortcut and the polynomial identity (x + a)^n = x^(n mod r) + a modulo x^r - 1 and n,
 * checked with Polynomial.Equals for a = 1 .. floor(sqrt(Totient(r)) * GetLog2(n)).
 * The process-wide modulus is a Context passed in and handed back: AKSStep sets it to n.
 */
module AKS {
  import opened Wrappers
  import opened Globals
  import opened Monomials
  import opened TermAlgebra
  import opened Dictionary
  import Arith
  import Utilities
  import PolyOps
  import Division
  import Powers
  import Equality
  import opened Polynomials

  /** int.MaxValue: the largest r the cast (int)r accepts. */
  const IntMax: int := 0x7fff_ffff

  /** x + a: new Polynomial(new Monomial(1, 1), Monomial.Constant(a)). */
  function Binomial(ctx: Context, a: int): Terms
    requires ctx.Valid()
  {
    PolyOps.New(ctx, [Make(ctx, 1, 1), Constant(ctx, a)])
  }

  /** x^r - 1: new Polynomial(new Monomial(1, r), Monomial.MinusOne). */
  function CyclicModulus(ctx: Context, r: int): Terms
    requires ctx.Valid()
  {
    PolyOps.New(ctx, [Make(ctx, 1, r), MinusOne])
  }

  /** x^(n mod r) + a: new Polynomial(new Monomial(1, n % r), Monomial.Constant(a)). */
  function Target(ctx: Context, n: int, r: int, a: int): Terms
    requires ctx.Valid() && r > 0
  {
    PolyOps.New(ctx, [Make(ctx, 1, n % r), Constant(ctx, a)])
  }

  /**
   * AKSStep(N, a, r) as a value: (x + a)^N reduced by x^r - 1, both polynomials built under
   * the context before the call, the power taken under the modulus N.
   */
  function Step(ctx: Context, N: int, a: int, r: int): Result<Terms>
    requires ctx.Valid() && N >= 2 && r >= 1
  {
    CyclicModulusOk(ctx, N, r);
    Powers.Power(ctx.WithModulus(N), Binomial(ctx, a), N, Some(CyclicModulus(ctx, r)))
  }

  /** Step five from a on: the first a whose expansion is not Equals to the target decides. */
  function StepFive(ctx: Context, n: int, r: int, a: int, bound: int): Result<bool>
    requires ctx.Valid() && n >= 2 && r >= 1 && a >= 1
    decreases if a <= bound then bound - a + 1 else 0
  {
    if a > bound then Ok(true)
    else if r > IntMax then Err(Overflow)
    else
      match Step(ctx, n, a, r)
      case Err(e) => Err(e)
      case Ok(expansion) =>
        var ctx' := ctx.WithModulus(n);
        if !Equality.EqualsAsWritten(expansion, Target(ctx', n, r, a)) then Ok(false)
        else StepFive(ctx', n, r, a + 1, bound)
  }

  /** The context after step five from a: the modulus is n once AKSStep has run. */
  function StepFiveContext(ctx: Context, n: int, r: int, a: int, bound: int): Context
  {
    if a > bound || r > IntMax then ctx else ctx.WithModulus(n)
  }

  /** Steps two (the gcd test), four and five, once r is known. */
  function Decide(ctx: Context, n: int, r: int, bound: int): Result<bool>
    requires ctx.Valid() && n >= 2 && r >= 1
  {
    if Arith.Gcd(n, r) != 1 then Ok(false)
    else if n <= r then Ok(true)
    else StepFive(ctx, n, r, 1, bound)
  }

  /** The context after Decide. */
  function DecideContext(ctx: Context, n: int, r: int, bound: int): Context
    requires n >= 2 && r >= 1
  {
    if Arith.Gcd(n, r) == 1 && n > r then StepFiveContext(ctx, n, r, 1, bound) else ctx
  }

  /** s is the integer part of the square root of x. */
  predicate IsFloorSqrt(s: int, x: int)
  {
    s >= 0 && s * s <= x < (s + 1) * (s + 1)
  }

  /** The context AKSStep number a runs under: the caller's at first, then modulus n. */
  function ContextAt(ctx: Context, n: int, first: int, a: int): Context
  {
    if a == first then ctx else ctx.WithModulus(n)
  }

  /** Step five passes a: the cast succeeds, the power raises nothing and Equals holds. */
  predicate Passes(ctx: Context, n: int, r: int, a: int)
    requires ctx.Valid() && n >= 2 && r >= 1
  {
    r <= IntMax && Step(ctx, n, a, r).Ok?
    && Equality.EqualsAsWritten(Step(ctx, n, a, r).value, Target(ctx.WithModulus(n), n, r, a))
  }

  // ------------------------------------------------------------------ the methods

  /**
   * AKSStep(N, a, r): builds x + a and x^r - 1, sets the modulus to N and returns
   * Polynomial.Power(x + a, N, x^r - 1).
   */
  method AKSStep(ctx: Context, N: int, a: int, r: int) returns (expansion: Result<Polynomial>, ctx': Context)
    requires ctx.Valid() && N >= 2 && r >= 1
    ensures ctx' == ctx.WithModulus(N) && ctx'.Valid()
    ensures Outcome(expansion) == Step(ctx, N, a, r)
  {
    var binomial := new Polynomial(ctx, [Make(ctx, 1, 1), Constant(ctx, a)]);
    var polyMod := new Polynomial(ctx, [Make(ctx, 1, r), MinusOne]);
    ctx' := ctx.WithModulus(N);
    CyclicModulusOk(ctx, N, r);
    expansion := Polynomial.Power(ctx', binomial, N, polyMod);
  }

  /** The integer part of a square root, by counting up. */
  method FloorSqrt(x: int) returns (s: int)
    requires x >= 0
    ensures IsFloorSqrt(s, x)
  {
    s := 0;
    while (s + 1) * (s + 1) <= x
      invariant s >= 0 && s * s <= x
      decreases x - s * s
    {
      s := s + 1;
    }
  }

  /** The loop of step five, a = 1 .. bound. */
  method StepFiveLoop(ctx: Context, n: int, r: int, bound: int) returns (verdict: Result<bool>, ctx': Context)
    requires ctx.Valid() && n >= 2 && r >= 1
    ensures verdict == StepFive(ctx, n, r, 1, bound)
    ensures ctx' == StepFiveContext(ctx, n, r, 1, bound)
  {
    ctx' := ctx;
    var a := 1;
    while a <= bound
      invariant a >= 1 && ctx'.Valid()
      invariant ctx' == ContextAt(ctx, n, 1, a)
      invariant a > 1 ==> r <= IntMax && a - 1 <= bound
      invariant StepFive(ctx', n, r, a, bound) == StepFive(ctx, n, r, 1, bound)
      decreases bound - a
    {
      if r > IntMax {
        return Err(Overflow), ctx';
      }
      var expansion;
      expansion, ctx' := AKSStep(ctx', n, a, r);
      if expansion.Err? {
        return Err(expansion.error), ctx';
      }
      var target := new Polynomial(ctx', [Make(ctx', 1, n % r), Constant(ctx', a)]);
      var equal := expansion.value.Equals(target);
      if !equal {
        return Ok(false), ctx';
      }
      a := a + 1;
    }
    return Ok(true), ctx';
  }

  /**
   * Step three as written: for a = 2 .. min(r, n - 1) it asks whether a % n is 0, which for
   * such a is a itself; so it never reports a composite.
   */
  method StepThree(n: int, r: int) returns (composite: bool)
    requires n >= 2
    ensures !composite
  {
    var a := 2;
    var last := if r <= n - 1 then r else n - 1;
    while a <= last
      invariant a >= 2
      decreases last - a
    {
      if a % n == 0 {
        assert false;
        return true;
      }
      a := a + 1;
    }
    return false;
  }

  /** Some a in [2, min(r, n - 1)] divides n. */
  predicate SmallDivisor(n: int, r: int)
  {
    exists a :: 2 <= a <= r && a <= n - 1 && n % a == 0
  }

  /** Step three as evidently meant: the test n % a == 0, the operands the other way round. */
  method StepThreeCorrected(n: int, r: int) returns (composite: bool)
    requires n >= 2
    ensures composite <==> SmallDivisor(n, r)
  {
    var a := 2;
    var last := if r <= n - 1 then r else n - 1;
    while a <= last
      invariant a >= 2 && (a <= last + 1 || last < 2)
      invariant forall b :: 2 <= b < a ==> n % b != 0
      decreases last - a
    {
      if n % a == 0 {
        return true;
      }
      a := a + 1;
    }
    return false;
  }

  /**
   * AKSPrimalityTest(n), with the floating-point bound of FindR passed in as maxK and fuel
   * bounding FindR's search. r and bound are the r found and the step-five bound.
   */
  method AKSPrimalityTest(ctx: Context, n: int, maxK: int, fuel: nat)
    returns (verdict: Result<bool>, ctx': Context, ghost r: int, ghost bound: int)
    requires ctx.Valid()
    ensures n <= 2 || Utilities.PerfectPower(n) ==> verdict == Ok(false) && ctx' == ctx
    ensures n > 2 && !Utilities.PerfectPower(n) && r == 0 ==>
      verdict == Err(OutOfFuel) && ctx' == ctx &&
      forall r' :: 2 <= r' <= fuel + 1 ==> !Utilities.OldAccepted(n, maxK, r')
    ensures n > 2 && !Utilities.PerfectPower(n) && r != 0 ==>
      && Utilities.OldAccepted(n, maxK, r)
      && (forall r' :: 2 <= r' < r ==> !Utilities.OldAccepted(n, maxK, r'))
      && (Arith.Gcd(n, r) == 1 && n > r ==>
            IsFloorSqrt(bound, Utilities.CoprimeCount(r, r) * Utilities.Log2(n) * Utilities.Log2(n)))
      && verdict == Decide(ctx, n, r, bound)
      && ctx' == DecideContext(ctx, n, r, bound)
  {
    r, bound := 0, 0;
    if n <= 1 {
      return Ok(false), ctx, r, bound;
    }
    // step one
    var perfect := Utilities.IsPerfectPower(n);
    if perfect {
      return Ok(false), ctx, r, bound;
    }
    // step two
    var found := Utilities.FindR(n, maxK, true, fuel);
    if found.Err? {
      return Err(found.error), ctx, r, bound;
    }
    r := found.value;
    verdict, ctx', bound := Conclude(ctx, n, found.value);
  }

  /** Steps two (the gcd test) to five of AKSPrimalityTest, once r has been found. */
  method Conclude(ctx: Context, n: int, r: int) returns (verdict: Result<bool>, ctx': Context, ghost bound: int)
    requires ctx.Valid() && n >= 2 && r >= 2
    ensures verdict == Decide(ctx, n, r, bound) && ctx' == DecideContext(ctx, n, r, bound)
    ensures Arith.Gcd(n, r) == 1 && n > r ==>
      IsFloorSqrt(bound, Utilities.CoprimeCount(r, r) * Utilities.Log2(n) * Utilities.Log2(n))
  {
    bound := 0;
    var coprime := Utilities.IsCoprime(n, r);
    if !coprime.value {
      return Ok(false), ctx, bound;
    }
    // step three
    var composite := StepThree(n, r);
    if composite {
      return Ok(false), ctx, bound;
    }
    // step four
    if n <= r {
      return Ok(true), ctx, bound;
    }
    // step five
    verdict, ctx', bound := StepFiveBounded(ctx, n, r);
  }

  /** Step five with its bound floor(sqrt(Totient(r)) * GetLog2(n)). */
  method StepFiveBounded(ctx: Context, n: int, r: int) returns (verdict: Result<bool>, ctx': Context, ghost bound: int)
    requires ctx.Valid() && n >= 2 && r >= 2
    ensures verdict == StepFive(ctx, n, r, 1, bound) && ctx' == StepFiveContext(ctx, n, r, 1, bound)
    ensures IsFloorSqrt(bound, Utilities.CoprimeCount(r, r) * Utilities.Log2(n) * Utilities.Log2(n))
  {
    var phi := Utilities.Totient(r);
    var log := Utilities.GetLog2(n);
    var upper := FloorSqrt(phi * log.value * log.value);
    bound := upper;
    verdict, ctx' := StepFiveLoop(ctx, n, r, upper);
  }

  // ------------------------------------------------------------------ properties

  /** The polynomial x^r - 1 as stored: entries at 0 and r, the latter Modulo(1). */
  lemma CyclicModulusEntries(ctx: Context, r: int)
    requires ctx.Valid() && r >= 1
    ensures CyclicModulus(ctx, r).Keys == {0, r}
    ensures CyclicModulus(ctx, r)[r] == Utilities.Reduce(ctx, 1)
    ensures Stored(ctx, CyclicModulus(ctx, r))
  {
    var A := Make(ctx, 1, r);
    var e := PolyOps.Empty(ctx);
    var t1 := AddTerm(ctx, e, A.coefficient, r);
    assert AddAll(ctx, e, [A]) == t1 by {
      assert [A][..0] == [];
    }
    var t2 := AddTerm(ctx, t1, MinusOne.coefficient, 0);
    assert CyclicModulus(ctx, r) == t2 by {
      assert [A, MinusOne][..1] == [A];
    }
    Utilities.ReduceIdempotent(ctx, 1);
    Utilities.ReduceIdempotent(ctx, Utilities.Reduce(ctx, 1));
    assert t2[r] == t1[r];
  }

  /**
   * The leading term of x^r - 1 is x^r, unless the context's modulus is 1, which makes every
   * coefficient 0.
   */
  lemma CyclicModulusLead(ctx: Context, r: int)
    requires ctx.Valid() && r >= 1
    ensures ctx.modulus != Some(1) ==>
      HighestDegreeTerm(CyclicModulus(ctx, r)) == Monomial(1, r) && Degree(CyclicModulus(ctx, r)) == r
    ensures ctx.modulus == Some(1) ==> HighestDegreeTerm(CyclicModulus(ctx, r)).coefficient == 0
  {
    if ctx.modulus != Some(1) {
      CyclicModulusMonic(ctx, r);
    } else {
      CyclicModulusVanishes(ctx, r);
    }
  }

  /** Without the modulus 1, the coefficient of x^r in x^r - 1 is 1. */
  lemma CyclicModulusMonic(ctx: Context, r: int)
    requires ctx.Valid() && r >= 1 && ctx.modulus != Some(1)
    ensures HighestDegreeTerm(CyclicModulus(ctx, r)) == Monomial(1, r) && Degree(CyclicModulus(ctx, r)) == r
  {
    var t := CyclicModulus(ctx, r);
    CyclicModulusEntries(ctx, r);
    assert Utilities.Reduce(ctx, 1) == 1 by {
      assert Utilities.Reduced(ctx, 1);
      Utilities.ReduceReduced(ctx, 1);
    }
    assert Coeff(t, r) == 1;
    Equality.DegreeIs(t, r);
  }

  /** Under the modulus 1 every coefficient of x^r - 1 is 0. */
  lemma CyclicModulusVanishes(ctx: Context, r: int)
    requires ctx.Valid() && r >= 1 && ctx.modulus == Some(1)
    ensures HighestDegreeTerm(CyclicModulus(ctx, r)).coefficient == 0
  {
    var t := CyclicModulus(ctx, r);
    CyclicModulusEntries(ctx, r);
    assert AllZero(t) by {
      forall d | d in t ensures t[d] == 0 {
        assert Utilities.Reduced(ctx, t[d]);
      }
    }
    HighestDegreeTermIs(t);
  }

  /** x^r - 1 is a polynomial modulus the division can use under the modulus N >= 2. */
  lemma CyclicModulusOk(ctx: Context, N: int, r: int)
    requires ctx.Valid() && N >= 2 && r >= 1
    ensures Powers.ModOk(ctx.WithModulus(N), Some(CyclicModulus(ctx, r)))
  {
    CyclicModulusLead(ctx, r);
  }

  /** Unless the caller's modulus is 1, AKSStep raises nothing. */
  lemma StepSucceeds(ctx: Context, N: int, a: int, r: int)
    requires ctx.Valid() && N >= 2 && r >= 1 && ctx.modulus != Some(1)
    ensures Step(ctx, N, a, r).Ok?
  {
    var ctx' := ctx.WithModulus(N);
    var pm := CyclicModulus(ctx, r);
    CyclicModulusLead(ctx, r);
    CyclicModulusOk(ctx, N, r);
    Arith.GcdOneLeft(N);
    assert Powers.LeadInvertible(ctx', Some(pm));
    Powers.PowerSucceeds(ctx', Binomial(ctx, a), N, Some(pm));
  }

  /**
   * What AKSStep computes: a polynomial congruent to (x + a)^N modulo x^r - 1 and N, that the
   * division leaves as a remainder; of degree below r unless the caller's modulus is 1.
   */
  lemma StepMeans(ctx: Context, N: int, a: int, r: int)
    requires ctx.Valid() && N >= 2 && r >= 1 && Step(ctx, N, a, r).Ok?
    ensures CongruentMod(ctx.WithModulus(N), NonzeroTerms(Step(ctx, N, a, r).value),
                         PowSem(NonzeroTerms(Binomial(ctx, a)), N), NonzeroTerms(CyclicModulus(ctx, r)))
    ensures Division.Done(Step(ctx, N, a, r).value, CyclicModulus(ctx, r))
    ensures ctx.modulus != Some(1) ==> Degree(Step(ctx, N, a, r).value) < r
  {
    CyclicModulusOk(ctx, N, r);
    CyclicModulusLead(ctx, r);
    Powers.PowerCongruent(ctx.WithModulus(N), Binomial(ctx, a), N, Some(CyclicModulus(ctx, r)));
  }

  /**
   * Step five answers true exactly when every a from the first to the bound passes: the cast
   * of r succeeds, AKSStep raises nothing and its result is Equals to x^(n mod r) + a. The
   * first round runs under the caller's context, the others under the modulus n.
   */
  lemma {:induction false} StepFiveAccepts(ctx: Context, n: int, r: int, a: int, bound: int)
    requires ctx.Valid() && n >= 2 && r >= 1 && a >= 1
    ensures StepFive(ctx, n, r, a, bound) == Ok(true) <==>
      a > bound || (Passes(ctx, n, r, a) && forall b :: a < b <= bound ==> Passes(ctx.WithModulus(n), n, r, b))
    decreases if a <= bound then bound - a + 1 else 0, 1
  {
    if a <= bound {
      var ctx' := ctx.WithModulus(n);
      ghost var rest := StepFive(ctx', n, r, a + 1, bound) == Ok(true);
      ghost var all := forall b :: a < b <= bound ==> Passes(ctx', n, r, b);
      assert rest <==> all by {
        StepFiveRest(ctx', n, r, a, bound);
      }
      assert StepFive(ctx, n, r, a, bound) == Ok(true) <==> Passes(ctx, n, r, a) && rest by {
        StepFiveUnfold(ctx, n, r, a, bound);
      }
    }
  }

  /** Under the modulus n, the rounds after a accept exactly when each of them passes. */
  lemma {:induction false} StepFiveRest(ctx: Context, n: int, r: int, a: int, bound: int)
    requires ctx.Valid() && n >= 2 && r >= 1 && a >= 1 && a <= bound && ctx.modulus == Some(n)
    ensures StepFive(ctx, n, r, a + 1, bound) == Ok(true) <==> forall b :: a < b <= bound ==> Passes(ctx, n, r, b)
    decreases bound - a + 1, 0
  {
    StepFiveAccepts(ctx, n, r, a + 1, bound);
    assert ctx.WithModulus(n) == ctx;
    if a + 1 <= bound {
      PassesFrom(ctx, n, r, a, bound);
    }
  }

  /** Every round after a passes when round a + 1 and every round after it pass. */
  lemma PassesFrom(ctx: Context, n: int, r: int, a: int, bound: int)
    requires ctx.Valid() && n >= 2 && r >= 1 && a + 1 <= bound
    ensures (Passes(ctx, n, r, a + 1) && forall b :: a + 1 < b <= bound ==> Passes(ctx, n, r, b))
      <==> forall b :: a < b <= bound ==> Passes(ctx, n, r, b)
  {
  }

  /** One round of step five: a passes and the rounds after it accept. */
  lemma StepFiveUnfold(ctx: Context, n: int, r: int, a: int, bound: int)
    requires ctx.Valid() && n >= 2 && r >= 1 && 1 <= a <= bound
    ensures StepFive(ctx, n, r, a, bound) == Ok(true) <==>
      Passes(ctx, n, r, a) && StepFive(ctx.WithModulus(n), n, r, a + 1, bound) == Ok(true)
  {
  }

  /**
   * Hence, when step five answers true, (x + a)^n and x^(n mod r) + a have the same
   * coefficients modulo x^r - 1 and n for every a checked.
   */
  lemma StepFiveSound(ctx: Context, n: int, r: int, bound: int, b: int)
    requires ctx.Valid() && n >= 2 && r >= 1 && StepFive(ctx, n, r, 1, bound) == Ok(true) && 1 <= b <= bound
    ensures Step(ContextAt(ctx, n, 1, b), n, b, r).Ok?
    ensures Equality.SameCoefficients(Step(ContextAt(ctx, n, 1, b), n, b, r).value, Target(ctx.WithModulus(n), n, r, b))
  {
    StepFiveAccepts(ctx, n, r, 1, bound);
    assert Passes(ContextAt(ctx, n, 1, b), n, r, b);
    assert ContextAt(ctx, n, 1, b).WithModulus(n) == ctx.WithModulus(n);
    Equality.AsWrittenIsStricter(Step(ContextAt(ctx, n, 1, b), n, b, r).value, Target(ctx.WithModulus(n), n, r, b));
  }

  // ------------------------------------------------------------------ step three

  /** With r >= n - 1 the corrected step three decides primality. */
  lemma SmallDivisorDecides(n: int, r: int)
    requires n >= 2 && r >= n - 1
    ensures SmallDivisor(n, r) <==> !Utilities.IsPrime(n)
  {
    if !Utilities.IsPrime(n) {
      var d :| 2 <= d < n && n % d == 0;
      assert 2 <= d <= r && d <= n - 1 && n % d == 0;
    }
  }

  /** 2 divides 6, yet step three as written lets 6 through with any r >= 2. */
  lemma StepThreeMissesSix()
    ensures SmallDivisor(6, 2) && !Utilities.IsPrime(6)
  {
    assert 6 % 2 == 0;
  }

  // ------------------------------------------------------------------ the search for r

  /** 5^k ends in the digit 5. */
  lemma {:induction false} PowFiveModTen(k: nat)
    requires k >= 1
    ensures Arith.Pow(5, k) % 10 == 5
  {
    if k > 1 {
      PowFiveModTen(k - 1);
      var q := Arith.Pow(5, k - 1) / 10;
      assert Arith.Pow(5, k - 1) == 10 * q + 5;
      assert Arith.Pow(5, k) == 10 * (5 * q + 2) + 5;
    }
  }

  /** 5^6 = 15625. */
  lemma PowFiveSix()
    ensures Arith.Pow(5, 2) == 25 && Arith.Pow(5, 4) == 625 && Arith.Pow(5, 5) == 3125 && Arith.Pow(5, 6) == 15625
  {
    assert Arith.Pow(5, 1) == 5;
    assert Arith.Pow(5, 3) == 125;
  }

  /** 5 is prime. */
  lemma FiveIsPrime()
    ensures Utilities.IsPrime(5)
  {
    forall d | 2 <= d < 5 ensures 5 % d != 0 {
      assert d in {2, 3, 4};
    }
  }

  /** 5 is no perfect power: 2^2 = 4 falls short, 3^2 and 2^3 overshoot. */
  lemma FiveIsNoPower()
    ensures !Utilities.PerfectPower(5)
  {
    forall a: int, b: nat | a >= 2 && b >= 2 ensures Arith.Pow(a, b) != 5 {
      if b >= 3 {
        assert Arith.Pow(2, 3) == 8;
        Utilities.PowerBeyondLog(a, b, 2, 5);
      } else {
        assert Arith.Pow(a, 1) == a;
        assert Arith.Pow(a, 2) == a * a;
        if a >= 3 {
          assert a * a >= 3 * a;
        }
      }
    }
  }

  /**
   * The search as written tests GCD(r, n) and then increments r, so only r - 1 is known
   * coprime to n. For n = 5 (the integer part of log2(5)^2 being 5) it returns r = 10, and
   * step two's IsCoprime(5, 10) then declares the prime 5 composite.
   */
  lemma FiveDeclaredComposite(ctx: Context, bound: int)
    requires ctx.Valid()
    ensures Utilities.IsPrime(5) && !Utilities.PerfectPower(5)
    ensures Utilities.OldAccepted(5, 5, 10)
    ensures forall r :: 2 <= r < 10 ==> !Utilities.OldAccepted(5, 5, r)
    ensures Decide(ctx, 5, 10, bound) == Ok(false)
  {
    FiveIsPrime();
    FiveIsNoPower();
    TenAcceptedForFive();
    NothingBelowTenForFive();
    assert Arith.Gcd(5, 10) == 5;
  }

  /** The search as written accepts r = 10 for n = 5: 5^k mod 10 is always 5. */
  lemma TenAcceptedForFive()
    ensures Utilities.OldAccepted(5, 5, 10)
  {
    forall k | 1 <= k <= 6 ensures Arith.Pow(5, k) % 10 != 0 && Arith.Pow(5, k) % 10 != 1 {
      PowFiveModTen(k);
    }
    assert Arith.Gcd(9, 5) == 1;
  }

  /** The search as written rejects every r from 2 to 9 for n = 5. */
  lemma NothingBelowTenForFive()
    ensures forall r :: 2 <= r < 10 ==> !Utilities.OldAccepted(5, 5, r)
  {
    PowFiveSix();
    forall r | 2 <= r < 10 ensures !Utilities.OldAccepted(5, 5, r) {
      if r == 6 {
        assert Arith.Gcd(5, 5) == 5;
      } else {
        assert r in {2, 3, 4, 5, 7, 8, 9};
        var k := if r == 2 || r == 4 || r == 5 then 1 else if r == 3 || r == 8 then 2 else 6;
        assert Arith.Pow(5, k) % r == 0 || Arith.Pow(5, k) % r == 1;
      }
    }
  }

  /** The search as evidently meant: r itself coprime to n. */
  predicate CoprimeAccepted(n: int, maxK: int, r: int)
  {
    && n >= 0 && r >= 2 && Arith.Gcd(r, n) == 1
    && forall k :: 1 <= k <= maxK + 1 ==> Arith.Pow(n, k) % r != 0 && Arith.Pow(n, k) % r != 1
  }

  /** Whatever the corrected search returns passes step two. */
  lemma CoprimeAcceptedPassesStepTwo(ctx: Context, n: int, maxK: int, r: int, bound: int)
    requires ctx.Valid() && n >= 2 && CoprimeAccepted(n, maxK, r)
    ensures Decide(ctx, n, r, bound) == if n <= r then Ok(true) else StepFive(ctx, n, r, 1, bound)
  {
    Arith.GcdSymmetric(r, n);
  }

  /** The corrected search returns r = 17 for n = 5, and step four declares 5 prime. */
  lemma FiveDeclaredPrime(ctx: Context, bound: int)
    requires ctx.Valid()
    ensures CoprimeAccepted(5, 5, 17)
    ensures forall r :: 2 <= r < 17 ==> !CoprimeAccepted(5, 5, r)
    ensures Decide(ctx, 5, 17, bound) == Ok(true)
  {
    PowFiveSix();
    assert Arith.Pow(5, 3) == 125;
    assert Arith.Gcd(17, 5) == 1;
    forall k | 1 <= k <= 6 ensures Arith.Pow(5, k) % 17 != 0 && Arith.Pow(5, k) % 17 != 1 {
      assert k in {1, 2, 3, 4, 5, 6};
    }
    forall r | 2 <= r < 17 ensures !CoprimeAccepted(5, 5, r) {
      if r == 5 || r == 10 || r == 15 {
        assert Arith.Gcd(r, 5) == 5;
      } else {
        assert r in {2, 3, 4, 6, 7, 8, 9, 11, 12, 13, 14, 16};
        var k := if r == 2 || r == 4 then 1 else if r == 3 || r == 6 || r == 8 || r == 12 then 2
          else if r == 13 || r == 16 then 4 else if r == 11 then 5 else 6;
        assert Arith.Pow(5, k) % r == 1;
      }
    }
    CoprimeAcceptedPassesStepTwo(ctx, 5, 5, 17, bound);
  }
}
