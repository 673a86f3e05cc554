/**
 * class Polynomial: the dictionary of terms, mutated in place by AddInPlace, and the static
 * operations that fill a fresh polynomial term by term. Every method is proved to compute the
 * value-level operation of PolyOps, Division or Powers, whose properties are proved there.
 */
module Polynomials {
  import opened Wrappers
  import opened Globals
  import Utilities
  import opened Monomials
  import opened TermAlgebra
  import opened Dictionary
  import PolyOps
  import Division
  import Powers
  import Equality
  import PolyText

  class Polynomial {
    /** The dictionary from degree to term, as the stored coefficient of each degree. */
    var terms: Terms

    /** new Polynomial(monomials): AddInPlace(Monomial.Zero), then each monomial in turn. */
    constructor (ctx: Context, monomials: seq<Monomial>)
      requires ctx.Valid()
      ensures terms == PolyOps.New(ctx, monomials)
    {
      terms := map[];
      new;
      AddInPlace(ctx, Zero.coefficient, Zero.degree);
      assert terms == PolyOps.Empty(ctx);
      AddEach(ctx, monomials);
    }

    /**
     * A polynomial holding exactly the given dictionary: the statics Polynomial.Zero and
     * Polynomial.One, taken at their values under no modulus.
     */
    constructor Of(t: Terms)
      ensures terms == t
    {
      terms := t;
    }

    /**
     * AddInPlace(coefficient, degree): the entry at that degree gains the reduced coefficient
     * (and is reduced again), or is created; no other entry changes.
     */
    method AddInPlace(ctx: Context, coefficient: int, degree: int)
      requires ctx.Valid()
      modifies this
      ensures terms == AddTerm(ctx, old(terms), coefficient, degree)
    {
      var c := Utilities.Reduce(ctx, coefficient);
      if degree in terms {
        terms := terms[degree := Utilities.Reduce(ctx, terms[degree] + c)];
      } else {
        Utilities.ReduceIdempotent(ctx, coefficient);
        terms := terms[degree := Utilities.Reduce(ctx, c)];
      }
    }

    /** foreach (Monomial m in ms) AddInPlace(m): the loop every constructor and operation runs. */
    method AddEach(ctx: Context, ms: seq<Monomial>)
      requires ctx.Valid()
      modifies this
      ensures terms == AddAll(ctx, old(terms), ms)
    {
      var i := 0;
      while i < |ms|
        invariant 0 <= i <= |ms|
        invariant terms == AddAll(ctx, old(terms), ms[..i])
      {
        assert ms[..i + 1][..i] == ms[..i];
        AddInPlace(ctx, ms[i].coefficient, ms[i].degree);
        i := i + 1;
      }
      assert ms[..i] == ms;
    }

    /** IsZero: no term of GetAllTerms has a nonzero coefficient. */
    method IsZero() returns (answer: bool)
      ensures answer <==> AllZero(terms)
    {
      var all := AllTerms(terms);
      AllTermsEntries(terms);
      AllTermsComplete(terms);
      answer := true;
      var i := 0;
      while i < |all|
        invariant 0 <= i <= |all|
        invariant answer <==> forall j :: 0 <= j < i ==> all[j].coefficient == 0
      {
        if all[i].coefficient != 0 {
          answer := false;
        }
        i := i + 1;
      }
      if answer {
        forall d | d in terms ensures terms[d] == 0 {
          assert Listed(all, d);
          var j :| 0 <= j < |all| && all[j].degree == d;
        }
      }
    }

    /**
     * ToString: "0" for the zero polynomial, otherwise each nonzero term with the onFirstTerm
     * flag, which only a nonnegative term clears.
     */
    method ToString(ctx: Context) returns (output: string)
      requires ctx.Valid()
      ensures output == PolyText.Print(ctx, terms)
    {
      var zero := IsZero();
      if zero {
        return "0";
      }
      output := PrintTerms(ctx, NonzeroTerms(terms));
    }

    /**
     * FromString: the rewriting, the split at '+' and '-', then Monomial.FromString and
     * AddInPlace of each piece, stopping at the first piece that does not parse.
     */
    static method FromString(ctx: Context, input: string) returns (r: Result<Polynomial>)
      requires ctx.Valid()
      ensures Outcome(r) == PolyText.FromStringAsWritten(ctx, input)
      ensures r.Ok? ==> fresh(r.value)
    {
      var text := PolyText.Clean(input);
      var pieces := PolyText.Split(text, PolyText.Signs);
      ghost var rs := PolyText.Parsed(ctx, pieces);
      var output := new Polynomial(ctx, []);
      ghost var ms: seq<Monomial> := [];
      var i := 0;
      while i < |pieces|
        invariant 0 <= i <= |pieces|
        invariant PolyText.Collect(rs[..i]) == Ok(ms)
        invariant output.terms == AddAll(ctx, PolyOps.Empty(ctx), ms)
        invariant fresh(output)
      {
        var m := Monomials.FromString(ctx, pieces[i]);
        PolyText.CollectStep(rs, i, ms);
        if m.Err? {
          return Err(m.error);
        }
        output.AddInPlace(ctx, m.value.coefficient, m.value.degree);
        AddAllSnoc(ctx, PolyOps.Empty(ctx), ms, m.value);
        ms := ms + [m.value];
        i := i + 1;
      }
      assert rs[..i] == rs;
      r := Ok(output);
    }

    /** GetAllCoefficients: the coefficient of each term of GetAllTerms, zeros included. */
    method GetAllCoefficients() returns (coefficients: array<int>)
      ensures fresh(coefficients)
      ensures coefficients[..] == CoefficientsOf(AllTerms(terms))
    {
      coefficients := CoefficientArray(AllTerms(terms));
    }

    /** GetCoefficients: the coefficient of each term of GetNonzeroTerms. */
    method GetCoefficients() returns (coefficients: array<int>)
      ensures fresh(coefficients)
      ensures coefficients[..] == CoefficientsOf(NonzeroTerms(terms))
    {
      coefficients := CoefficientArray(NonzeroTerms(terms));
    }

    /**
     * SumOfCoefficients(applyModulo): the sum of GetCoefficients, reduced when applyModulo is
     * set.
     */
    method SumOfCoefficients(ctx: Context, applyModulo: bool) returns (sum: int)
      requires ctx.Valid()
      ensures applyModulo ==> sum == Utilities.Reduce(ctx, Sum(CoefficientsOf(NonzeroTerms(terms))))
      ensures !applyModulo ==> sum == Sum(CoefficientsOf(NonzeroTerms(terms)))
    {
      var coefficients := GetCoefficients();
      sum := 0;
      var i := 0;
      while i < coefficients.Length
        invariant 0 <= i <= coefficients.Length
        invariant sum + Sum(coefficients[i..]) == Sum(coefficients[..])
      {
        assert coefficients[i..][1..] == coefficients[i + 1..];
        sum := sum + coefficients[i];
        i := i + 1;
      }
      if applyModulo {
        sum := Utilities.Reduce(ctx, sum);
      }
    }

    /**
     * Equals(p): MonomialAtDegree of both polynomials compared with Monomial.Equals for d from
     * 0 up to the larger degree; false at the first difference.
     */
    method Equals(p: Polynomial) returns (equal: bool)
      ensures equal <==> Equality.EqualsAsWritten(terms, p.terms)
    {
      var top := Equality.Bound(terms, p.terms);
      var d := 0;
      while d <= top
        invariant 0 <= d && (top >= 0 ==> d <= top + 1)
        invariant forall e :: 0 <= e < d ==> Monomials.Equals(MonomialAt(terms, e), MonomialAt(p.terms, e))
      {
        if !Monomials.Equals(MonomialAt(terms, d), MonomialAt(p.terms, d)) {
          return false;
        }
        d := d + 1;
      }
      return true;
    }

    /** Equals(m): comparison with the polynomial new Polynomial(m). */
    method EqualsMonomial(ctx: Context, m: Monomial) returns (equal: bool)
      requires ctx.Valid()
      ensures equal <==> Equality.EqualsAsWritten(terms, PolyOps.New(ctx, [m]))
    {
      var other := new Polynomial(ctx, [m]);
      equal := Equals(other);
    }

    // ---------------------------------------------------------------- operations

    /** Polynomial.Add: the nonzero terms of both operands added into a new polynomial. */
    static method Add(ctx: Context, poly1: Polynomial, poly2: Polynomial) returns (output: Polynomial)
      requires ctx.Valid()
      ensures fresh(output) && output.terms == PolyOps.Add(ctx, poly1.terms, poly2.terms)
    {
      output := new Polynomial(ctx, []);
      output.AddEach(ctx, NonzeroTerms(poly1.terms));
      output.AddEach(ctx, NonzeroTerms(poly2.terms));
    }

    /** Polynomial.Multiply: the product of every pair of nonzero terms, added in loop order. */
    static method Multiply(ctx: Context, poly1: Polynomial, poly2: Polynomial) returns (product: Polynomial)
      requires ctx.Valid()
      ensures fresh(product) && product.terms == PolyOps.Multiply(ctx, poly1.terms, poly2.terms)
    {
      product := new Polynomial(ctx, []);
      var ps, qs := NonzeroTerms(poly1.terms), NonzeroTerms(poly2.terms);
      var i := 0;
      while i < |ps|
        invariant 0 <= i <= |ps|
        invariant product.terms == AddAll(ctx, PolyOps.Empty(ctx), PolyOps.Products(ctx, ps[..i], qs))
      {
        AddAllConcat(ctx, PolyOps.Empty(ctx), PolyOps.Products(ctx, ps[..i], qs), PolyOps.Row(ctx, ps[i], qs));
        ProductsStep(ctx, ps, qs, i);
        product.AddRow(ctx, ps[i], qs);
        i := i + 1;
      }
      assert ps[..i] == ps;
    }

    /** The inner loop of Multiply: AddInPlace of a times each term of qs. */
    method AddRow(ctx: Context, a: Monomial, qs: seq<Monomial>)
      requires ctx.Valid()
      modifies this
      ensures terms == AddAll(ctx, old(terms), PolyOps.Row(ctx, a, qs))
    {
      var j := 0;
      while j < |qs|
        invariant 0 <= j <= |qs|
        invariant terms == AddAll(ctx, old(terms), PolyOps.Row(ctx, a, qs[..j]))
      {
        var m := Monomials.Multiply(ctx, a, qs[j]);
        RowGrows(ctx, a, qs, j);
        AddAllConcat(ctx, old(terms), PolyOps.Row(ctx, a, qs[..j]), [m]);
        assert [m][..0] == [];
        AddInPlace(ctx, m.coefficient, m.degree);
        j := j + 1;
      }
      assert qs[..j] == qs;
    }

    /** Unary minus: multiplication by Monomial.MinusOne as a polynomial. */
    static method Negate(ctx: Context, polynomial: Polynomial) returns (r: Polynomial)
      requires ctx.Valid()
      ensures fresh(r) && r.terms == PolyOps.Negate(ctx, polynomial.terms)
    {
      var minusOne := new Polynomial(ctx, [MinusOne]);
      r := Multiply(ctx, polynomial, minusOne);
    }

    /** Polynomial.Subtract: the first plus the negation of the second. */
    static method Subtract(ctx: Context, poly1: Polynomial, poly2: Polynomial) returns (r: Polynomial)
      requires ctx.Valid()
      ensures fresh(r) && r.terms == PolyOps.Subtract(ctx, poly1.terms, poly2.terms)
    {
      var negated := Negate(ctx, poly2);
      r := Add(ctx, poly1, negated);
    }

    /** Copy: the nonzero terms into a new polynomial. */
    method Copy(ctx: Context) returns (theCopy: Polynomial)
      requires ctx.Valid()
      ensures fresh(theCopy) && theCopy.terms == PolyOps.Copy(ctx, terms)
    {
      theCopy := new Polynomial(ctx, []);
      theCopy.AddEach(ctx, NonzeroTerms(terms));
    }

    /** BasicMultinomial(n): 1 + x + ... + x^(n-1); ArgumentException for a negative n. */
    static method BasicMultinomial(ctx: Context, n: int) returns (r: Result<Polynomial>)
      requires ctx.Valid()
      ensures n < 0 ==> r == Err(ArgumentError)
      ensures n >= 0 ==> r.Ok? && fresh(r.value) && r.value.terms == PolyOps.Multinomial(ctx, n)
    {
      if n < 0 {
        return Err(ArgumentError);
      }
      var multinomial := new Polynomial(ctx, []);
      var i := 0;
      while i < n
        invariant 0 <= i <= n
        invariant multinomial.terms == AddAll(ctx, PolyOps.Empty(ctx), PolyOps.Ones(ctx, i))
      {
        multinomial.AddInPlace(ctx, Make(ctx, 1, i).coefficient, i);
        i := i + 1;
      }
      r := Ok(multinomial);
    }

    // ---------------------------------------------------------------- division

    /**
     * PolynomialLongDivide(dividend, divisor, remainderOnly), with the exit test corrected to
     * stop on a zero remainder as well: the remainder (the dividend object itself when no pass
     * runs), or the exception Monomial.Divide raises. Each quotient term is added in place to
     * quotient, the shared Polynomial.Zero in the source, unless it is null (remainderOnly).
     */
    static method LongDivide(ctx: Context, dividend: Polynomial, divisor: Polynomial, quotient: Polynomial?)
      returns (r: Result<Polynomial>)
      requires ctx.Valid() && Division.LeadOk(ctx, divisor.terms) && quotient != divisor
      modifies quotient
      ensures Outcome(r) == Division.PolynomialMod(ctx, old(dividend.terms), divisor.terms)
      ensures r.Ok? && quotient != null ==>
        quotient.terms == AddAll(ctx, old(quotient.terms), Division.Loop(ctx, old(dividend.terms), divisor.terms, []).value.0)
      ensures Division.Done(old(dividend.terms), divisor.terms) ==> r == Ok(dividend)
    {
      var current := dividend;
      ghost var qs: seq<Monomial> := [];
      ghost var start := dividend.terms;
      ghost var base := if quotient != null then quotient.terms else map[];
      while !Division.Done(current.terms, divisor.terms)
        invariant current == dividend ==> qs == [] && current.terms == start
        invariant current != dividend ==> fresh(current)
        invariant Division.Done(start, divisor.terms) ==> current == dividend
        invariant Division.Loop(ctx, current.terms, divisor.terms, qs) == Division.Loop(ctx, start, divisor.terms, [])
        invariant quotient != null ==> quotient.terms == AddAll(ctx, base, qs)
        decreases Division.Height(current.terms, divisor.terms)
      {
        var next;
        ghost var q;
        next, q := Pass(ctx, current, divisor, quotient, base, qs);
        if next.Err? {
          return next;
        }
        current := next.value;
        qs := qs + [q];
      }
      return Ok(current);
    }

    /**
     * One pass of the loop: divides the leading terms, adds the quotient term in place and
     * returns the new remainder; on failure the outcome of the whole loop is that error.
     */
    static method Pass(ctx: Context, current: Polynomial, divisor: Polynomial, quotient: Polynomial?,
                       ghost base: Terms, ghost qs: seq<Monomial>)
      returns (r: Result<Polynomial>, ghost q: Monomial)
      requires ctx.Valid() && Division.LeadOk(ctx, divisor.terms) && quotient != divisor
      requires !Division.Done(current.terms, divisor.terms)
      requires quotient != null ==> quotient.terms == AddAll(ctx, base, qs)
      modifies quotient
      ensures r.Err? ==> Division.Loop(ctx, old(current.terms), divisor.terms, qs) == Err(r.error)
      ensures r.Ok? ==> fresh(r.value)
      ensures r.Ok? ==> Division.Height(r.value.terms, divisor.terms) < Division.Height(old(current.terms), divisor.terms)
      ensures r.Ok? ==> Division.Loop(ctx, r.value.terms, divisor.terms, qs + [q]) == Division.Loop(ctx, old(current.terms), divisor.terms, qs)
      ensures r.Ok? && quotient != null ==> quotient.terms == AddAll(ctx, base, qs + [q])
    {
      var lead := Monomials.Divide(ctx, HighestDegreeTerm(current.terms), HighestDegreeTerm(divisor.terms));
      if lead.Err? {
        LoopFails(ctx, current.terms, divisor.terms, qs);
        return Err(lead.error), Zero;
      }
      var term := lead.value;
      var next := Eliminate(ctx, current, divisor, term);
      PassKeeps(ctx, current.terms, next.terms, divisor.terms, qs, term);
      Accumulate(ctx, quotient, base, qs, term, next);
      r, q := Ok(next), term;
    }

    /** Adds one quotient term in place, unless there is no quotient to keep; remainder is left alone. */
    static method Accumulate(ctx: Context, quotient: Polynomial?, ghost base: Terms, ghost qs: seq<Monomial>, q: Monomial,
                             ghost remainder: Polynomial)
      requires ctx.Valid() && remainder != quotient
      requires quotient != null ==> quotient.terms == AddAll(ctx, base, qs)
      modifies quotient
      ensures quotient != null ==> quotient.terms == AddAll(ctx, base, qs + [q])
      ensures remainder.terms == old(remainder.terms)
    {
      if quotient != null {
        AddAllSnoc(ctx, base, qs, q);
        quotient.AddInPlace(ctx, q.coefficient, q.degree);
      }
    }

    /** One pass on the remainder: currentDividend - divisor * q, in new polynomials. */
    static method Eliminate(ctx: Context, current: Polynomial, divisor: Polynomial, q: Monomial) returns (next: Polynomial)
      requires ctx.Valid()
      ensures fresh(next) && next.terms == Division.Eliminate(ctx, current.terms, divisor.terms, q)
    {
      var term := new Polynomial(ctx, [q]);
      var product := Multiply(ctx, divisor, term);
      next := Subtract(ctx, current, product);
    }

    /**
     * Divide(dividend, divisor): [quotient, remainder], the quotient being the polynomial zero
     * passed in (the static Polynomial.Zero), with the quotient terms added to it in place.
     */
    static method Divide(ctx: Context, dividend: Polynomial, divisor: Polynomial, zero: Polynomial)
      returns (r: Result<(Polynomial, Polynomial)>)
      requires ctx.Valid() && Division.LeadOk(ctx, divisor.terms) && zero != divisor
      modifies zero
      ensures var d := Division.LongDivide(ctx, old(dividend.terms), divisor.terms, old(zero.terms));
        && (d.Err? ==> r == Err(d.error))
        && (d.Ok? ==> r.Ok? && r.value.0 == zero && zero.terms == d.value.0 && r.value.1.terms == d.value.1)
    {
      var rem := LongDivide(ctx, dividend, divisor, zero);
      if rem.Err? {
        return Err(rem.error);
      }
      return Ok((zero, rem.value));
    }

    /** PolynomialMod(poly, polyMod): the remainder alone; no quotient is kept. */
    static method PolynomialMod(ctx: Context, poly: Polynomial, polyMod: Polynomial) returns (r: Result<Polynomial>)
      requires ctx.Valid() && Division.LeadOk(ctx, polyMod.terms)
      ensures Outcome(r) == Division.PolynomialMod(ctx, poly.terms, polyMod.terms)
    {
      r := LongDivide(ctx, poly, polyMod, null);
    }

    // ---------------------------------------------------------------- powers

    /**
     * Power(polyBase, exponent, polynomialMod): square-and-multiply, reducing by the
     * polynomial modulus, when there is one, after every product.
     */
    static method Power(ctx: Context, polyBase: Polynomial, exponent: int, polynomialMod: Polynomial?)
      returns (r: Result<Polynomial>)
      requires ctx.Valid() && Powers.ModOk(ctx, TermsOf(polynomialMod))
      ensures Outcome(r) == Powers.Power(ctx, polyBase.terms, exponent, TermsOf(polynomialMod))
    {
      if exponent < 0 {
        return Err(ArgumentError);
      }
      ghost var pm := TermsOf(polynomialMod);
      var result := new Polynomial.Of(Powers.OnePoly);
      var baseValue := polyBase;
      if polynomialMod != null {
        var reduced := PolynomialMod(ctx, result, polynomialMod);
        if reduced.Err? {
          return Err(reduced.error);
        }
        result := reduced.value;
        reduced := PolynomialMod(ctx, baseValue, polynomialMod);
        if reduced.Err? {
          return Err(reduced.error);
        }
        baseValue := reduced.value;
      }
      var e: nat := exponent;
      while e > 0
        invariant Powers.PowerLoop(ctx, result.terms, baseValue.terms, e, pm) == Powers.Power(ctx, polyBase.terms, exponent, pm)
      {
        ghost var k: nat := e / 2;
        ghost var (r0, b0) := (result.terms, baseValue.terms);
        if e % 2 == 1 {
          result := Multiply(ctx, result, baseValue);
          if polynomialMod != null {
            var reduced := PolynomialMod(ctx, result, polynomialMod);
            if reduced.Err? {
              StepErr(ctx, r0, b0, e, pm);
              return Err(reduced.error);
            }
            result := reduced.value;
          }
        }
        assert Powers.Stepped(ctx, r0, b0, e, pm) == Ok(result.terms);
        baseValue := Multiply(ctx, baseValue, baseValue);
        if polynomialMod != null {
          var reduced := PolynomialMod(ctx, baseValue, polynomialMod);
          if reduced.Err? {
            SquareErr(ctx, r0, b0, e, pm);
            return Err(reduced.error);
          }
          baseValue := reduced.value;
        }
        assert Powers.Squared(ctx, b0, pm) == Ok(baseValue.terms);
        Powers.PowerLoopPass(ctx, r0, b0, e, k, pm);
        e := e / 2;
      }
      return Ok(result);
    }
  }

  /** The loop of ToString over GetNonzeroTerms. */
  method PrintTerms(ctx: Context, ms: seq<Monomial>) returns (output: string)
    requires ctx.Valid()
    ensures output == PolyText.Render(ctx, ms, true)
  {
    var onFirstTerm := true;
    output := "";
    var i := 0;
    while i < |ms|
      invariant 0 <= i <= |ms|
      invariant output + PolyText.Render(ctx, ms[i..], onFirstTerm) == PolyText.Render(ctx, ms, true)
    {
      var m := ms[i];
      PolyText.RenderStep(ctx, ms, i, onFirstTerm);
      ghost var rest := PolyText.Render(ctx, ms[i + 1..], onFirstTerm && IsNegative(m));
      PolyText.Associate(output, PolyText.Piece(ctx, m, onFirstTerm), rest);
      var piece;
      if IsNegative(m) {
        piece := " - " + Monomials.ToString(Abs(ctx, m));
      } else if onFirstTerm {
        piece := Monomials.ToString(m);
        onFirstTerm := false;
      } else {
        piece := " + " + Monomials.ToString(m);
      }
      output := output + piece;
      i := i + 1;
    }
    assert ms[i..] == [];
  }

  /** The coefficients of a list of terms, in order. */
  function CoefficientsOf(ms: seq<Monomial>): (cs: seq<int>)
    ensures |cs| == |ms| && forall i :: 0 <= i < |ms| ==> cs[i] == ms[i].coefficient
  {
    seq(|ms|, i requires 0 <= i < |ms| => ms[i].coefficient)
  }

  /** The dictionary of a polynomial that may be null (an absent polynomialMod). */
  function TermsOf(p: Polynomial?): Option<Terms>
    reads p
  {
    if p == null then None else Some(p.terms)
  }

  /** What a call returned, as dictionaries: the polynomial's terms, or the exception. */
  function Outcome(r: Result<Polynomial>): Result<Terms>
    reads if r.Ok? then {r.value} else {}
  {
    if r.Ok? then Ok(r.value.terms) else Err(r.error)
  }

  /** A failing odd-step reduction makes the whole loop fail with it. */
  lemma StepErr(ctx: Context, result: Terms, base: Terms, e: nat, pm: Option<Terms>)
    requires ctx.Valid() && Powers.ModOk(ctx, pm) && e > 0 && Powers.Stepped(ctx, result, base, e, pm).Err?
    ensures Powers.PowerLoop(ctx, result, base, e, pm) == Err(Powers.Stepped(ctx, result, base, e, pm).error)
  {
  }

  /** A failing squaring reduction, after a successful odd step, makes the loop fail with it. */
  lemma SquareErr(ctx: Context, result: Terms, base: Terms, e: nat, pm: Option<Terms>)
    requires ctx.Valid() && Powers.ModOk(ctx, pm) && e > 0
    requires Powers.Stepped(ctx, result, base, e, pm).Ok? && Powers.Squared(ctx, base, pm).Err?
    ensures Powers.PowerLoop(ctx, result, base, e, pm) == Err(Powers.Squared(ctx, base, pm).error)
  {
  }

  /** The loop raises what Monomial.Divide raises on the leading terms. */
  lemma LoopFails(ctx: Context, cur: Terms, div: Terms, qs: seq<Monomial>)
    requires ctx.Valid() && Division.LeadOk(ctx, div) && !Division.Done(cur, div)
    requires Division.LeadQuotient(ctx, cur, div).Err?
    ensures Division.Loop(ctx, cur, div, qs) == Err(Division.LeadQuotient(ctx, cur, div).error)
  {
  }

  /** One pass lowers the height and leaves the outcome of the loop unchanged. */
  lemma PassKeeps(ctx: Context, cur: Terms, next: Terms, div: Terms, qs: seq<Monomial>, q: Monomial)
    requires ctx.Valid() && Division.LeadOk(ctx, div) && !Division.Done(cur, div)
    requires Division.LeadQuotient(ctx, cur, div) == Ok(q) && next == Division.Eliminate(ctx, cur, div, q)
    ensures Division.Height(next, div) < Division.Height(cur, div)
    ensures Division.Loop(ctx, next, div, qs + [q]) == Division.Loop(ctx, cur, div, qs)
  {
    Division.HeightFalls(ctx, cur, div, q);
    Division.LoopStep(ctx, cur, div, qs, q);
  }

  /** One more row of products. */
  lemma ProductsStep(ctx: Context, ps: seq<Monomial>, qs: seq<Monomial>, i: nat)
    requires ctx.Valid() && i < |ps|
    ensures PolyOps.Products(ctx, ps[..i + 1], qs) == PolyOps.Products(ctx, ps[..i], qs) + PolyOps.Row(ctx, ps[i], qs)
  {
    assert ps[..i + 1][..i] == ps[..i];
  }

  /** Adding one more quotient term. */
  lemma AddAllSnoc(ctx: Context, t: Terms, qs: seq<Monomial>, q: Monomial)
    requires ctx.Valid()
    ensures AddAll(ctx, t, qs + [q]) == AddTerm(ctx, AddAll(ctx, t, qs), q.coefficient, q.degree)
  {
    assert (qs + [q])[..|qs|] == qs;
  }

  function Sum(xs: seq<int>): int
  {
    if |xs| == 0 then 0 else xs[0] + Sum(xs[1..])
  }

  /** The array loop of GetAllCoefficients and GetCoefficients. */
  method CoefficientArray(ms: seq<Monomial>) returns (a: array<int>)
    ensures fresh(a) && a[..] == CoefficientsOf(ms)
  {
    a := new int[|ms|];
    var i := 0;
    while i < |ms|
      invariant 0 <= i <= |ms|
      invariant forall j :: 0 <= j < i ==> a[j] == ms[j].coefficient
    {
      a[i] := ms[i].coefficient;
      i := i + 1;
    }
  }

  /** One more pass of the inner loop of Multiply adds one more product to the row. */
  lemma RowGrows(ctx: Context, a: Monomial, qs: seq<Monomial>, j: int)
    requires ctx.Valid() && 0 <= j < |qs|
    ensures PolyOps.Row(ctx, a, qs[..j + 1]) == PolyOps.Row(ctx, a, qs[..j]) + [Monomials.Multiply(ctx, a, qs[j])]
  {
    assert qs[..j + 1][..j] == qs[..j];
  }
}
