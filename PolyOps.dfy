/**
 * The static operations of Polynomial on dictionaries of stored coefficients: the constructor,
 * Add, Multiply, negation, Subtract, Copy and BasicMultinomial. Each is the exact sequence of
 * AddInPlace calls the source makes; the lemmas say what the result means coefficient by
 * coefficient, modulo the modulus (exactly when there is none).
 */
module PolyOps {
  import opened Globals
  import Arith
  import Utilities
  import opened Monomials
  import opened TermAlgebra
  import opened Dictionary

  lemma ReduceZero(ctx: Context)
    requires ctx.Valid()
    ensures Utilities.Reduce(ctx, 0) == 0
  {
    Utilities.ReducedZero(ctx, Utilities.Reduce(ctx, 0));
  }

  /** new Polynomial(): the constructor's AddInPlace(Monomial.Zero) leaves a zero entry at degree 0. */
  function Empty(ctx: Context): (t: Terms)
    requires ctx.Valid()
    ensures t == map[0 := 0]
  {
    ReduceZero(ctx);
    AddTerm(ctx, map[], Zero.coefficient, Zero.degree)
  }

  /** new Polynomial(monomials): the zero entry, then AddInPlace of each term in turn. */
  function New(ctx: Context, ms: seq<Monomial>): Terms
    requires ctx.Valid()
  {
    AddAll(ctx, Empty(ctx), ms)
  }

  /** The implicit conversion of a Monomial to a Polynomial (and Polynomial.Parse). */
  function FromMonomial(ctx: Context, m: Monomial): Terms
    requires ctx.Valid()
  {
    New(ctx, [m])
  }

  /** Polynomial.Add: the nonzero terms of the first, then those of the second, into a new polynomial. */
  function Add(ctx: Context, p: Terms, q: Terms): Terms
    requires ctx.Valid()
  {
    AddAll(ctx, New(ctx, NonzeroTerms(p)), NonzeroTerms(q))
  }

  /** The products of a with each term of qs, in order: one pass of the inner loop of Multiply. */
  function Row(ctx: Context, a: Monomial, qs: seq<Monomial>): (r: seq<Monomial>)
    requires ctx.Valid()
    ensures |r| == |qs|
  {
    if |qs| == 0 then [] else Row(ctx, a, qs[..|qs| - 1]) + [Monomials.Multiply(ctx, a, qs[|qs| - 1])]
  }

  /** Every product the two loops of Multiply add, in the order they add them. */
  function Products(ctx: Context, ps: seq<Monomial>, qs: seq<Monomial>): seq<Monomial>
    requires ctx.Valid()
  {
    if |ps| == 0 then [] else Products(ctx, ps[..|ps| - 1], qs) + Row(ctx, ps[|ps| - 1], qs)
  }

  /** Polynomial.Multiply: each nonzero term of p times each nonzero term of q, added up. */
  function Multiply(ctx: Context, p: Terms, q: Terms): Terms
    requires ctx.Valid()
  {
    New(ctx, Products(ctx, NonzeroTerms(p), NonzeroTerms(q)))
  }

  /** Unary minus: multiplication by Monomial.MinusOne converted to a polynomial. */
  function Negate(ctx: Context, p: Terms): Terms
    requires ctx.Valid()
  {
    Multiply(ctx, p, FromMonomial(ctx, MinusOne))
  }

  /** Polynomial.Subtract: p plus the negation of q. */
  function Subtract(ctx: Context, p: Terms, q: Terms): Terms
    requires ctx.Valid()
  {
    Add(ctx, p, Negate(ctx, q))
  }

  /** Polynomial.Copy: the nonzero terms of p into a new polynomial. */
  function Copy(ctx: Context, p: Terms): Terms
    requires ctx.Valid()
  {
    New(ctx, NonzeroTerms(p))
  }

  /** The terms new Monomial(1, i) for i = 0 .. n - 1. */
  function Ones(ctx: Context, n: nat): (r: seq<Monomial>)
    requires ctx.Valid()
    ensures |r| == n
  {
    if n == 0 then [] else Ones(ctx, n - 1) + [Make(ctx, 1, n - 1)]
  }

  /** BasicMultinomial(n) for n >= 0: 1 + x + ... + x^(n-1). */
  function Multinomial(ctx: Context, n: nat): Terms
    requires ctx.Valid()
  {
    AddAll(ctx, Empty(ctx), Ones(ctx, n))
  }

  // ------------------------------------------------------------------ meaning

  /** t stores reduced coefficients, and each is the coefficient of ms modulo the modulus. */
  ghost predicate Means(ctx: Context, t: Terms, ms: seq<Monomial>)
    requires ctx.Valid()
  {
    Stored(ctx, t) && forall d :: Utilities.ModEq(ctx, Coeff(t, d), SumAt(ms, d))
  }

  /** What Means says at one degree. */
  lemma MeansAt(ctx: Context, t: Terms, ms: seq<Monomial>, d: int)
    requires ctx.Valid() && Means(ctx, t, ms)
    ensures Utilities.ModEq(ctx, Coeff(t, d), SumAt(ms, d)) && Utilities.Reduced(ctx, Coeff(t, d))
  {
  }

  lemma {:induction false} AddAllMeans(ctx: Context, t: Terms, base: seq<Monomial>, ms: seq<Monomial>)
    requires ctx.Valid() && Means(ctx, t, base)
    ensures Means(ctx, AddAll(ctx, t, ms), base + ms)
  {
    AddAllKeeps(ctx, t, ms);
    forall d ensures Utilities.ModEq(ctx, Coeff(AddAll(ctx, t, ms), d), SumAt(base + ms, d)) {
      AddAllCoeff(ctx, t, ms, d);
      SumAtConcat(base, ms, d);
      Utilities.ModEqRefl(ctx, SumAt(ms, d));
      Utilities.ModEqAdd(ctx, Coeff(t, d), SumAt(ms, d), SumAt(base, d), SumAt(ms, d));
      Utilities.ModEqTrans(ctx, Coeff(AddAll(ctx, t, ms), d), Coeff(t, d) + SumAt(ms, d), SumAt(base + ms, d));
    }
  }

  /** A new polynomial means the sum of the terms it was built from. */
  lemma NewMeans(ctx: Context, ms: seq<Monomial>)
    requires ctx.Valid()
    ensures Means(ctx, New(ctx, ms), ms)
  {
    forall d ensures Utilities.ModEq(ctx, Coeff(Empty(ctx), d), SumAt([], d)) {
      Utilities.ModEqRefl(ctx, 0);
    }
    AddAllMeans(ctx, Empty(ctx), [], ms);
    assert [] + ms == ms;
  }

  /** Means only depends on the coefficients of the term list. */
  lemma MeansEquiv(ctx: Context, t: Terms, ms: seq<Monomial>, ns: seq<Monomial>)
    requires ctx.Valid() && Means(ctx, t, ms) && Equiv(ctx, ms, ns)
    ensures Means(ctx, t, ns)
  {
    forall d ensures Utilities.ModEq(ctx, Coeff(t, d), SumAt(ns, d)) {
      Utilities.ModEqTrans(ctx, Coeff(t, d), SumAt(ms, d), SumAt(ns, d));
    }
  }

  /** The nonzero terms of a stored polynomial mean it. */
  lemma NonzeroMeans(ctx: Context, t: Terms)
    requires ctx.Valid() && Stored(ctx, t)
    ensures Means(ctx, t, NonzeroTerms(t))
  {
    forall d ensures Utilities.ModEq(ctx, Coeff(t, d), SumAt(NonzeroTerms(t), d)) {
      NonzeroTermsSum(t, d);
      Utilities.ModEqRefl(ctx, Coeff(t, d));
    }
  }

  /** What a polynomial means is the list of its nonzero terms, up to equivalence. */
  lemma MeansNonzero(ctx: Context, t: Terms, ms: seq<Monomial>)
    requires ctx.Valid() && Means(ctx, t, ms)
    ensures Equiv(ctx, NonzeroTerms(t), ms)
  {
    forall d ensures Utilities.ModEq(ctx, SumAt(NonzeroTerms(t), d), SumAt(ms, d)) {
      NonzeroTermsSum(t, d);
    }
  }

  /** Add: the coefficients of the sum are the sums of the coefficients. */
  lemma AddMeans(ctx: Context, p: Terms, q: Terms)
    requires ctx.Valid()
    ensures Means(ctx, Add(ctx, p, q), NonzeroTerms(p) + NonzeroTerms(q))
  {
    NewMeans(ctx, NonzeroTerms(p));
    AddAllMeans(ctx, New(ctx, NonzeroTerms(p)), NonzeroTerms(p), NonzeroTerms(q));
  }

  lemma AddCoefficients(ctx: Context, p: Terms, q: Terms, d: int)
    requires ctx.Valid()
    ensures Utilities.ModEq(ctx, Coeff(Add(ctx, p, q), d), Coeff(p, d) + Coeff(q, d))
    ensures Utilities.Reduced(ctx, Coeff(Add(ctx, p, q), d))
  {
    AddMeans(ctx, p, q);
    SumAtConcat(NonzeroTerms(p), NonzeroTerms(q), d);
    NonzeroTermsSum(p, d);
    NonzeroTermsSum(q, d);
  }

  /** Add is commutative, coefficient by coefficient. */
  lemma AddCommutes(ctx: Context, p: Terms, q: Terms, d: int)
    requires ctx.Valid()
    ensures Utilities.ModEq(ctx, Coeff(Add(ctx, p, q), d), Coeff(Add(ctx, q, p), d))
  {
    AddCoefficients(ctx, p, q, d);
    AddCoefficients(ctx, q, p, d);
    Utilities.ModEqSym(ctx, Coeff(Add(ctx, q, p), d), Coeff(q, d) + Coeff(p, d));
    Utilities.ModEqTrans(ctx, Coeff(Add(ctx, p, q), d), Coeff(p, d) + Coeff(q, d), Coeff(Add(ctx, q, p), d));
  }

  /** One product of the inner loop, seen at degree d. */
  lemma ProductTerm(ctx: Context, a: Monomial, b: Monomial, d: int)
    requires ctx.Valid()
    ensures Utilities.ModEq(ctx, Term(Monomials.Multiply(ctx, a, b), d), a.coefficient * Term(b, d - a.degree))
  {
    var m := Monomials.Multiply(ctx, a, b);
    if m.degree != d {
      assert Term(b, d - a.degree) == 0;
      Utilities.ModEqRefl(ctx, 0);
    }
  }

  lemma {:induction false} RowSum(ctx: Context, a: Monomial, qs: seq<Monomial>, d: int)
    requires ctx.Valid()
    ensures Utilities.ModEq(ctx, SumAt(Row(ctx, a, qs), d), a.coefficient * SumAt(qs, d - a.degree))
  {
    if |qs| == 0 {
      Utilities.ModEqRefl(ctx, 0);
    } else {
      var init, last := qs[..|qs| - 1], qs[|qs| - 1];
      var m := Monomials.Multiply(ctx, a, last);
      var c, e := a.coefficient, d - a.degree;
      var s1, t1 := SumAt(Row(ctx, a, init), d), Term(m, d);
      var s2, t2 := SumAt(init, e), Term(last, e);
      assert SumAt(Row(ctx, a, qs), d) == s1 + t1 by {
        assert Row(ctx, a, qs) == Row(ctx, a, init) + [m];
        SumAtConcat(Row(ctx, a, init), [m], d);
      }
      assert c * SumAt(qs, e) == c * s2 + c * t2 by {
        assert qs == init + [last];
        SumAtConcat(init, [last], e);
        Arith.Distributes(c, s2, t2);
      }
      assert Utilities.ModEq(ctx, s1, c * s2) by {
        RowSum(ctx, a, init, d);
      }
      assert Utilities.ModEq(ctx, t1, c * t2) by {
        ProductTerm(ctx, a, last, d);
      }
      Utilities.ModEqAdd(ctx, s1, t1, c * s2, c * t2);
    }
  }

  lemma {:induction false} DotSnoc(ps: seq<Monomial>, p: Monomial, qs: seq<Monomial>, d: int)
    ensures Dot(ps + [p], qs, d) == Dot(ps, qs, d) + p.coefficient * SumAt(qs, d - p.degree)
  {
    if |ps| == 0 {
      assert ps + [p] == [p];
    } else {
      assert (ps + [p])[1..] == ps[1..] + [p];
      DotSnoc(ps[1..], p, qs, d);
    }
  }

  lemma {:induction false} ProductsSum(ctx: Context, ps: seq<Monomial>, qs: seq<Monomial>, d: int)
    requires ctx.Valid()
    ensures Utilities.ModEq(ctx, SumAt(Products(ctx, ps, qs), d), Dot(ps, qs, d))
  {
    if |ps| == 0 {
      Utilities.ModEqRefl(ctx, 0);
    } else {
      var init, last := ps[..|ps| - 1], ps[|ps| - 1];
      ProductsSum(ctx, init, qs, d);
      RowSum(ctx, last, qs, d);
      SumAtConcat(Products(ctx, init, qs), Row(ctx, last, qs), d);
      assert ps == init + [last];
      DotSnoc(init, last, qs, d);
      Utilities.ModEqAdd(ctx, SumAt(Products(ctx, init, qs), d), SumAt(Row(ctx, last, qs), d),
        Dot(init, qs, d), last.coefficient * SumAt(qs, d - last.degree));
    }
  }

  /** Multiply: the product polynomial means the product of the two term lists. */
  lemma MultiplyMeans(ctx: Context, p: Terms, q: Terms)
    requires ctx.Valid()
    ensures Means(ctx, Multiply(ctx, p, q), Times(NonzeroTerms(p), NonzeroTerms(q)))
  {
    var P, Q := NonzeroTerms(p), NonzeroTerms(q);
    NewMeans(ctx, Products(ctx, P, Q));
    forall d ensures Utilities.ModEq(ctx, SumAt(Products(ctx, P, Q), d), SumAt(Times(P, Q), d)) {
      ProductsSum(ctx, P, Q, d);
      SumAtTimes(P, Q, d);
    }
    MeansEquiv(ctx, Multiply(ctx, p, q), Products(ctx, P, Q), Times(P, Q));
  }

  /** Multiply is commutative, coefficient by coefficient. */
  lemma MultiplyCommutes(ctx: Context, p: Terms, q: Terms)
    requires ctx.Valid()
    ensures forall d :: Utilities.ModEq(ctx, Coeff(Multiply(ctx, p, q), d), Coeff(Multiply(ctx, q, p), d))
  {
    MultiplyMeans(ctx, p, q);
    MultiplyMeans(ctx, q, p);
    TimesCommutesEquiv(ctx, NonzeroTerms(p), NonzeroTerms(q));
    MeansEquiv(ctx, Multiply(ctx, p, q), Times(NonzeroTerms(p), NonzeroTerms(q)), Times(NonzeroTerms(q), NonzeroTerms(p)));
    forall d ensures Utilities.ModEq(ctx, Coeff(Multiply(ctx, p, q), d), Coeff(Multiply(ctx, q, p), d)) {
      var s := SumAt(Times(NonzeroTerms(q), NonzeroTerms(p)), d);
      Utilities.ModEqSym(ctx, Coeff(Multiply(ctx, q, p), d), s);
      Utilities.ModEqTrans(ctx, Coeff(Multiply(ctx, p, q), d), s, Coeff(Multiply(ctx, q, p), d));
    }
  }

  /** Multiply means the product of what its operands mean. */
  lemma MultiplyMeansProduct(ctx: Context, p: Terms, q: Terms, ps: seq<Monomial>, qs: seq<Monomial>)
    requires ctx.Valid() && Means(ctx, p, ps) && Means(ctx, q, qs)
    ensures Means(ctx, Multiply(ctx, p, q), Times(ps, qs))
  {
    MultiplyMeans(ctx, p, q);
    MeansNonzero(ctx, p, ps);
    MeansNonzero(ctx, q, qs);
    TimesEquiv(ctx, NonzeroTerms(p), ps, NonzeroTerms(q), qs);
    MeansEquiv(ctx, Multiply(ctx, p, q), Times(NonzeroTerms(p), NonzeroTerms(q)), Times(ps, qs));
  }

  /** Multiply means the product of what its operands mean, for any operands. */
  lemma MultiplyEquiv(ctx: Context, p: Terms, q: Terms, ps: seq<Monomial>, qs: seq<Monomial>)
    requires ctx.Valid() && Equiv(ctx, NonzeroTerms(p), ps) && Equiv(ctx, NonzeroTerms(q), qs)
    ensures Equiv(ctx, NonzeroTerms(Multiply(ctx, p, q)), Times(ps, qs))
  {
    MultiplyMeans(ctx, p, q);
    TimesEquiv(ctx, NonzeroTerms(p), ps, NonzeroTerms(q), qs);
    MeansEquiv(ctx, Multiply(ctx, p, q), Times(NonzeroTerms(p), NonzeroTerms(q)), Times(ps, qs));
    MeansNonzero(ctx, Multiply(ctx, p, q), Times(ps, qs));
  }

  /** Multiply is associative, coefficient by coefficient. */
  lemma MultiplyAssociates(ctx: Context, p: Terms, q: Terms, s: Terms)
    requires ctx.Valid()
    ensures Equiv(ctx, NonzeroTerms(Multiply(ctx, Multiply(ctx, p, q), s)), NonzeroTerms(Multiply(ctx, p, Multiply(ctx, q, s))))
  {
    var P, Q, S := NonzeroTerms(p), NonzeroTerms(q), NonzeroTerms(s);
    var A, B := Multiply(ctx, Multiply(ctx, p, q), s), Multiply(ctx, p, Multiply(ctx, q, s));
    SameSums(ctx, P, P);
    SameSums(ctx, Q, Q);
    SameSums(ctx, S, S);
    assert Equiv(ctx, NonzeroTerms(A), Times(Times(P, Q), S)) by {
      MultiplyEquiv(ctx, p, q, P, Q);
      MultiplyEquiv(ctx, Multiply(ctx, p, q), s, Times(P, Q), S);
    }
    assert Equiv(ctx, NonzeroTerms(B), Times(P, Times(Q, S))) by {
      MultiplyEquiv(ctx, q, s, Q, S);
      MultiplyEquiv(ctx, p, Multiply(ctx, q, s), P, Times(Q, S));
    }
    TimesAssociates(P, Q, S);
    EquivSym(ctx, NonzeroTerms(B), Times(P, Times(Q, S)));
    EquivTrans(ctx, NonzeroTerms(A), Times(P, Times(Q, S)), NonzeroTerms(B));
  }

  /** Multiplying by a monomial converted to a polynomial means multiplying by the monomial. */
  lemma MonomialProductMeans(ctx: Context, p: Terms, m: Monomial)
    requires ctx.Valid()
    ensures Means(ctx, Multiply(ctx, p, FromMonomial(ctx, m)), Times(NonzeroTerms(p), [m]))
  {
    var P, M := NonzeroTerms(p), FromMonomial(ctx, m);
    MultiplyMeans(ctx, p, M);
    NewMeans(ctx, [m]);
    MeansNonzero(ctx, M, [m]);
    SameSums(ctx, P, P);
    TimesEquiv(ctx, P, P, NonzeroTerms(M), [m]);
    MeansEquiv(ctx, Multiply(ctx, p, M), Times(P, NonzeroTerms(M)), Times(P, [m]));
  }

  /** A polynomial meaning ps times c x^k has c times the coefficient of degree d - k of p at d. */
  lemma MonomialProductAt(ctx: Context, p: Terms, m: Monomial, x: Terms, d: int)
    requires ctx.Valid() && Means(ctx, x, Times(NonzeroTerms(p), [m]))
    ensures Utilities.ModEq(ctx, Coeff(x, d), m.coefficient * Coeff(p, d - m.degree))
    ensures Utilities.Reduced(ctx, Coeff(x, d))
  {
    var P := NonzeroTerms(p);
    MeansAt(ctx, x, Times(P, [m]), d);
    SumAtTimes(P, [m], d);
    DotSingleRight(P, m, d);
    NonzeroTermsSum(p, d - m.degree);
  }

  /** The product with a monomial c x^k has c times the coefficient of degree d - k at degree d. */
  lemma MonomialProductCoefficients(ctx: Context, p: Terms, m: Monomial, d: int)
    requires ctx.Valid()
    ensures Utilities.ModEq(ctx, Coeff(Multiply(ctx, p, FromMonomial(ctx, m)), d), m.coefficient * Coeff(p, d - m.degree))
    ensures Utilities.Reduced(ctx, Coeff(Multiply(ctx, p, FromMonomial(ctx, m)), d))
  {
    MonomialProductMeans(ctx, p, m);
    MonomialProductAt(ctx, p, m, Multiply(ctx, p, FromMonomial(ctx, m)), d);
  }

  /** A polynomial meaning ps times -1 has the negated coefficients of p. */
  lemma NegationAt(ctx: Context, p: Terms, x: Terms, d: int)
    requires ctx.Valid() && Means(ctx, x, Times(NonzeroTerms(p), [MinusOne]))
    ensures Utilities.ModEq(ctx, Coeff(x, d), -Coeff(p, d))
  {
    MonomialProductAt(ctx, p, MinusOne, x, d);
  }

  /** Negation negates every coefficient. */
  lemma NegateCoefficients(ctx: Context, p: Terms, d: int)
    requires ctx.Valid()
    ensures Utilities.ModEq(ctx, Coeff(Negate(ctx, p), d), -Coeff(p, d))
  {
    MonomialProductMeans(ctx, p, MinusOne);
    NegationAt(ctx, p, Negate(ctx, p), d);
  }

  /** x = y + z and z = -w give x = y - w, modulo the modulus. */
  lemma ModEqDifference(ctx: Context, x: int, y: int, z: int, w: int)
    requires ctx.Valid() && Utilities.ModEq(ctx, x, y + z) && Utilities.ModEq(ctx, z, -w)
    ensures Utilities.ModEq(ctx, x, y - w)
  {
    Utilities.ModEqRefl(ctx, y);
    Utilities.ModEqAdd(ctx, y, z, y, -w);
    Utilities.ModEqTrans(ctx, x, y + z, y - w);
  }

  /** Adding a polynomial whose coefficient at d is the negative of q's subtracts q's. */
  lemma AddNegation(ctx: Context, p: Terms, q: Terms, n: Terms, d: int)
    requires ctx.Valid() && Utilities.ModEq(ctx, Coeff(n, d), -Coeff(q, d))
    ensures Utilities.ModEq(ctx, Coeff(Add(ctx, p, n), d), Coeff(p, d) - Coeff(q, d))
    ensures Utilities.Reduced(ctx, Coeff(Add(ctx, p, n), d))
  {
    AddCoefficients(ctx, p, n, d);
    ModEqDifference(ctx, Coeff(Add(ctx, p, n), d), Coeff(p, d), Coeff(n, d), Coeff(q, d));
  }

  /** Subtract: the coefficients of the difference are the differences of the coefficients. */
  lemma SubtractCoefficients(ctx: Context, p: Terms, q: Terms, d: int)
    requires ctx.Valid()
    ensures Utilities.ModEq(ctx, Coeff(Subtract(ctx, p, q), d), Coeff(p, d) - Coeff(q, d))
    ensures Utilities.Reduced(ctx, Coeff(Subtract(ctx, p, q), d))
  {
    NegateCoefficients(ctx, q, d);
    AddNegation(ctx, p, q, Negate(ctx, q), d);
  }

  /** x = y - w and y = v + w give x = v, modulo the modulus. */
  lemma ModEqCancel(ctx: Context, x: int, y: int, v: int, w: int)
    requires ctx.Valid() && Utilities.ModEq(ctx, x, y - w) && Utilities.ModEq(ctx, y, v + w)
    ensures Utilities.ModEq(ctx, x, v)
  {
    Utilities.ModEqRefl(ctx, -w);
    Utilities.ModEqAdd(ctx, y, -w, v + w, -w);
    Utilities.ModEqTrans(ctx, x, y - w, v);
  }

  /** Subtracting q from a polynomial whose coefficient at d is that of p plus q's leaves p's. */
  lemma SubtractCancels(ctx: Context, p: Terms, q: Terms, s: Terms, d: int)
    requires ctx.Valid() && Utilities.ModEq(ctx, Coeff(s, d), Coeff(p, d) + Coeff(q, d))
    ensures Utilities.ModEq(ctx, Coeff(Subtract(ctx, s, q), d), Coeff(p, d))
  {
    SubtractCoefficients(ctx, s, q, d);
    ModEqCancel(ctx, Coeff(Subtract(ctx, s, q), d), Coeff(s, d), Coeff(p, d), Coeff(q, d));
  }

  /** Subtracting what was added gives back the coefficients of p. */
  lemma AddThenSubtract(ctx: Context, p: Terms, q: Terms, d: int)
    requires ctx.Valid()
    ensures Utilities.ModEq(ctx, Coeff(Subtract(ctx, Add(ctx, p, q), q), d), Coeff(p, d))
  {
    AddCoefficients(ctx, p, q, d);
    SubtractCancels(ctx, p, q, Add(ctx, p, q), d);
  }

  /** The degrees of ms are pairwise distinct and every coefficient is reduced. */
  ghost predicate DistinctReduced(ctx: Context, ms: seq<Monomial>)
    requires ctx.Valid()
  {
    && (forall i, j :: 0 <= i < j < |ms| ==> ms[i].degree != ms[j].degree)
    && (forall i :: 0 <= i < |ms| ==> Utilities.Reduced(ctx, ms[i].coefficient))
  }

  /** Terms none of which has degree d contribute nothing at d. */
  lemma {:induction false} SumAtAbsent(ms: seq<Monomial>, d: int)
    requires forall i :: 0 <= i < |ms| ==> ms[i].degree != d
    ensures SumAt(ms, d) == 0
  {
    if |ms| > 0 {
      SumAtAbsent(ms[1..], d);
    }
  }

  /**
   * Adding terms of distinct degrees and reduced coefficients where the entry is 0 stores
   * each coefficient as it is, under either sign convention.
   */
  lemma {:induction false} AddAllDistinct(ctx: Context, t: Terms, ms: seq<Monomial>, d: int)
    requires ctx.Valid() && Coeff(t, d) == 0 && DistinctReduced(ctx, ms)
    ensures Coeff(AddAll(ctx, t, ms), d) == SumAt(ms, d)
  {
    if |ms| > 0 {
      var init, last := ms[..|ms| - 1], ms[|ms| - 1];
      assert ms == init + [last];
      SumAtConcat(init, [last], d);
      assert DistinctReduced(ctx, init);
      var u := AddAll(ctx, t, init);
      AddAllDistinct(ctx, t, init, d);
      if last.degree == d {
        SumAtAbsent(init, d);
        Utilities.ReduceReduced(ctx, last.coefficient);
        assert Coeff(u, d) + Utilities.Reduce(ctx, last.coefficient) == last.coefficient;
      } else {
        AddTermCoeff(ctx, u, last.coefficient, last.degree, d);
      }
    }
  }

  /** GetNonzeroTerms of a stored polynomial lists distinct degrees with reduced coefficients. */
  lemma NonzeroTermsDistinct(ctx: Context, p: Terms)
    requires ctx.Valid() && Stored(ctx, p)
    ensures DistinctReduced(ctx, NonzeroTerms(p))
  {
    var all := AllTerms(p);
    if |Nonzero(all)| > 0 {
      AllTermsDescending(p);
      AllTermsEntries(p);
      NonzeroDescending(all);
      NonzeroIn(all);
      forall i | 0 <= i < |Nonzero(all)| ensures Utilities.Reduced(ctx, Nonzero(all)[i].coefficient) {
        var k :| 0 <= k < |all| && all[k] == Nonzero(all)[i];
      }
    }
  }

  /** Copy has exactly the coefficients of a stored polynomial. */
  lemma CopyCoefficients(ctx: Context, p: Terms, d: int)
    requires ctx.Valid() && Stored(ctx, p)
    ensures Coeff(Copy(ctx, p), d) == Coeff(p, d)
  {
    NonzeroTermsDistinct(ctx, p);
    AddAllDistinct(ctx, Empty(ctx), NonzeroTerms(p), d);
    NonzeroTermsSum(p, d);
  }

  /** BasicMultinomial(n): the reduced 1 at each degree 0 .. n - 1, and 0 everywhere else. */
  lemma {:induction false} MultinomialCoefficients(ctx: Context, n: nat, d: int)
    requires ctx.Valid()
    ensures Coeff(Multinomial(ctx, n), d) == if 0 <= d < n then Utilities.Reduce(ctx, 1) else 0
  {
    if n > 0 {
      var one := Utilities.Reduce(ctx, 1);
      var t := Multinomial(ctx, n - 1);
      assert Multinomial(ctx, n) == AddTerm(ctx, t, one, n - 1) by {
        assert Ones(ctx, n)[..n - 1] == Ones(ctx, n - 1);
      }
      if d == n - 1 {
        MultinomialCoefficients(ctx, n - 1, n - 1);
        assert Coeff(t, d) == 0;
        Utilities.ReduceReduced(ctx, one);
        ReduceZero(ctx);
        assert Utilities.Reduce(ctx, 0 + one) == one;
      } else {
        MultinomialCoefficients(ctx, n - 1, d);
      }
    }
  }
}
