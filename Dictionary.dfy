/**
 * The dictionary inside a Polynomial, as a map from degree to stored coefficient, and the
 * queries on it: AddInPlace, GetAllTerms, GetNonzeroTerms, MonomialAtDegree, Degree and
 * HighestDegreeTerm. Entries with a zero coefficient stay in the map, as they do in the
 * dictionary.
 */
module Dictionary {
  import opened Globals
  import Utilities
  import opened Monomials
  import opened TermAlgebra

  /** Stored coefficient by degree. */
  type Terms = map<int, int>

  /** The coefficient of x^d: the stored one, or 0 when there is no entry. */
  function Coeff(t: Terms, d: int): int
  {
    if d in t then t[d] else 0
  }

  /** Every stored coefficient is reduced under the context. */
  ghost predicate Stored(ctx: Context, t: Terms)
    requires ctx.Valid()
  {
    forall d :: d in t ==> Utilities.Reduced(ctx, t[d])
  }

  /**
   * AddInPlace(coefficient, degree): the reduced coefficient is added to the entry at that
   * degree and the sum is reduced again (the Coefficient setter), or a new entry is made.
   */
  function AddTerm(ctx: Context, t: Terms, c: int, d: int): (r: Terms)
    requires ctx.Valid()
    ensures r.Keys == t.Keys + {d}
    ensures forall e :: e in t && e != d ==> r[e] == t[e]
    ensures Utilities.ModEq(ctx, r[d], Coeff(t, d) + c) && Utilities.Reduced(ctx, r[d])
    ensures Utilities.IsReduction(ctx, r[d], Coeff(t, d) + Utilities.Reduce(ctx, c))
    ensures r[d] == Utilities.Reduce(ctx, Coeff(t, d) + Utilities.Reduce(ctx, c))
  {
    var c' := Utilities.Reduce(ctx, c);
    AddTermSum(ctx, Coeff(t, d), c);
    Utilities.ReductionUnique(ctx, Utilities.Reduce(ctx, Coeff(t, d) + c'), Coeff(t, d) + c');
    if d in t then t[d := Utilities.Reduce(ctx, t[d] + c')]
    else
      Utilities.ReduceIdempotent(ctx, c);
      t[d := Utilities.Reduce(ctx, c')]
  }

  lemma AddTermSum(ctx: Context, x: int, c: int)
    requires ctx.Valid()
    ensures Utilities.ModEq(ctx, Utilities.Reduce(ctx, x + Utilities.Reduce(ctx, c)), x + c)
  {
    var c' := Utilities.Reduce(ctx, c);
    Utilities.ModEqRefl(ctx, x);
    Utilities.ModEqAdd(ctx, x, c', x, c);
    Utilities.ModEqTrans(ctx, Utilities.Reduce(ctx, x + c'), x + c', x + c);
  }

  /** AddInPlace applied to each term of ms in turn. */
  function AddAll(ctx: Context, t: Terms, ms: seq<Monomial>): Terms
    requires ctx.Valid()
  {
    if |ms| == 0 then t
    else
      var last := ms[|ms| - 1];
      AddTerm(ctx, AddAll(ctx, t, ms[..|ms| - 1]), last.coefficient, last.degree)
  }

  // ------------------------------------------------------------------ listing the entries

  lemma NonemptyHasElement(s: set<int>)
    requires s != {}
    ensures exists x :: x in s
  {
    if forall x :: x !in s {
      assert false;
    }
  }

  lemma MaxOfInsert(s: set<int>, x: int, k: int)
    requires k in s && forall j :: j in s ==> j <= k
    ensures var m := if x > k then x else k; m in s + {x} && forall j :: j in s + {x} ==> j <= m
  {
  }

  lemma {:induction false} MaxExists(s: set<int>)
    requires s != {}
    ensures exists k :: k in s && forall j :: j in s ==> j <= k
    decreases |s|
  {
    NonemptyHasElement(s);
    var x :| x in s;
    var s' := s - {x};
    assert s == s' + {x};
    if s' == {} {
      assert s == {x};
      assert forall j :: j in s ==> j <= x;
    } else {
      MaxExists(s');
      var k :| k in s' && forall j :: j in s' ==> j <= k;
      MaxOfInsert(s', x, k);
    }
  }

  /** The largest element of a nonempty finite set. */
  function MaxKey(s: set<int>): (k: int)
    requires s != {}
    ensures k in s && forall j :: j in s ==> j <= k
  {
    MaxExists(s);
    var k :| k in s && forall j :: j in s ==> j <= k;
    k
  }

  function Without(t: Terms, k: int): (r: Terms)
    ensures r.Keys == t.Keys - {k}
    ensures forall e :: e in r ==> r[e] == t[e]
  {
    t - {k}
  }

  /** GetAllTerms: every entry, as a term, from the highest degree down. */
  function AllTerms(t: Terms): seq<Monomial>
    decreases |t.Keys|
  {
    if |t.Keys| == 0 then []
    else
      var k := MaxKey(t.Keys);
      assert |Without(t, k).Keys| < |t.Keys| by {
        assert Without(t, k).Keys < t.Keys;
      }
      [Monomial(t[k], k)] + AllTerms(Without(t, k))
  }

  /** The terms of ms with a nonzero coefficient, in order. */
  function Nonzero(ms: seq<Monomial>): (r: seq<Monomial>)
    ensures |r| <= |ms|
    ensures forall i :: 0 <= i < |r| ==> r[i].coefficient != 0
  {
    if |ms| == 0 then []
    else if ms[0].coefficient != 0 then [ms[0]] + Nonzero(ms[1..])
    else Nonzero(ms[1..])
  }

  /** Every listed nonzero term is an entry of the list. */
  lemma {:induction false} NonzeroIn(ms: seq<Monomial>)
    ensures forall i :: 0 <= i < |Nonzero(ms)| ==> Nonzero(ms)[i] in ms
  {
    if |ms| > 0 {
      NonzeroIn(ms[1..]);
      assert forall m :: m in ms[1..] ==> m in ms;
    }
  }

  /** Dropping the zero terms of a list in strictly descending degree keeps that order. */
  lemma {:induction false} NonzeroDescending(ms: seq<Monomial>)
    requires forall i, j :: 0 <= i < j < |ms| ==> ms[i].degree > ms[j].degree
    ensures forall i, j :: 0 <= i < j < |Nonzero(ms)| ==> Nonzero(ms)[i].degree > Nonzero(ms)[j].degree
  {
    if |ms| > 0 {
      var rest := ms[1..];
      NonzeroDescending(rest);
      NonzeroIn(rest);
      if ms[0].coefficient != 0 {
        forall j | 0 < j < |Nonzero(ms)| ensures ms[0].degree > Nonzero(ms)[j].degree {
          var k :| 0 <= k < |rest| && rest[k] == Nonzero(rest)[j - 1];
          assert ms[k + 1] == rest[k];
        }
      }
    }
  }

  /** GetNonzeroTerms: the nonzero entries from the highest degree down, or Monomial.Zero alone. */
  function NonzeroTerms(t: Terms): (r: seq<Monomial>)
    ensures |r| > 0
  {
    var nz := Nonzero(AllTerms(t));
    if |nz| == 0 then [Zero] else nz
  }

  /** The Degree property: the degree of the first nonzero term. */
  function Degree(t: Terms): int
  {
    NonzeroTerms(t)[0].degree
  }

  /** MonomialAtDegree: the stored entry, or Monomial.Zero (of degree 0) when there is none. */
  function MonomialAt(t: Terms, d: int): (m: Monomial)
    ensures d in t ==> m == Monomial(t[d], d)
    ensures d !in t ==> m == Zero
  {
    if d in t then Monomial(t[d], d) else Zero
  }

  function HighestDegreeTerm(t: Terms): Monomial
  {
    MonomialAt(t, Degree(t))
  }

  /** No stored coefficient is nonzero. */
  predicate AllZero(t: Terms)
  {
    forall d :: d in t ==> t[d] == 0
  }

  // ------------------------------------------------------------------ properties of the queries

  /** Every term GetAllTerms lists is an entry of the dictionary, with its stored coefficient. */
  lemma {:induction false} AllTermsEntries(t: Terms)
    ensures |AllTerms(t)| == |t.Keys|
    ensures forall i :: 0 <= i < |AllTerms(t)| ==>
      AllTerms(t)[i].degree in t && AllTerms(t)[i].coefficient == t[AllTerms(t)[i].degree]
    decreases |t.Keys|
  {
    if |t.Keys| > 0 {
      var k := MaxKey(t.Keys);
      var rest := Without(t, k);
      assert rest.Keys < t.Keys;
      AllTermsEntries(rest);
      assert AllTerms(t) == [Monomial(t[k], k)] + AllTerms(rest);
    }
  }

  /** GetAllTerms lists the entries in strictly descending degree. */
  lemma {:induction false} AllTermsDescending(t: Terms)
    ensures forall i, j :: 0 <= i < j < |AllTerms(t)| ==> AllTerms(t)[i].degree > AllTerms(t)[j].degree
    decreases |t.Keys|
  {
    if |t.Keys| > 0 {
      var k := MaxKey(t.Keys);
      var rest := Without(t, k);
      assert rest.Keys < t.Keys;
      AllTermsDescending(rest);
      AllTermsEntries(rest);
      var A := AllTerms(t);
      assert A == [Monomial(t[k], k)] + AllTerms(rest);
      forall i, j | 0 <= i < j < |A| ensures A[i].degree > A[j].degree {
        assert A[j] == AllTerms(rest)[j - 1];
        if i > 0 {
          assert A[i] == AllTerms(rest)[i - 1];
        } else {
          assert A[j].degree in rest;
        }
      }
    }
  }

  /** Some term of ms has degree d. */
  predicate Listed(ms: seq<Monomial>, d: int)
  {
    exists i :: 0 <= i < |ms| && ms[i].degree == d
  }

  /** GetAllTerms lists every entry of the dictionary. */
  lemma {:induction false} AllTermsComplete(t: Terms)
    ensures forall d :: d in t ==> Listed(AllTerms(t), d)
    decreases |t.Keys|
  {
    if |t.Keys| > 0 {
      var k := MaxKey(t.Keys);
      var rest := Without(t, k);
      assert rest.Keys < t.Keys;
      AllTermsComplete(rest);
      var A := AllTerms(t);
      assert A == [Monomial(t[k], k)] + AllTerms(rest);
      forall d | d in t ensures Listed(A, d) {
        if d == k {
          assert A[0].degree == d;
        } else {
          assert d in rest;
          assert Listed(AllTerms(rest), d);
          var i :| 0 <= i < |AllTerms(rest)| && AllTerms(rest)[i].degree == d;
          assert A[i + 1].degree == d;
        }
      }
    } else {
      assert t.Keys == {};
    }
  }

  /** The terms of GetAllTerms add up to the stored coefficients. */
  lemma {:induction false} AllTermsSum(t: Terms, d: int)
    ensures SumAt(AllTerms(t), d) == Coeff(t, d)
    decreases |t.Keys|
  {
    if |t.Keys| > 0 {
      var k := MaxKey(t.Keys);
      assert Without(t, k).Keys < t.Keys;
      AllTermsSum(Without(t, k), d);
      assert AllTerms(t)[1..] == AllTerms(Without(t, k));
    } else {
      assert d !in t;
    }
  }

  lemma {:induction false} NonzeroSum(ms: seq<Monomial>, d: int)
    ensures SumAt(Nonzero(ms), d) == SumAt(ms, d)
  {
    if |ms| > 0 {
      NonzeroSum(ms[1..], d);
      if ms[0].coefficient != 0 {
        assert Nonzero(ms)[1..] == Nonzero(ms[1..]);
      }
    }
  }

  /** The terms of GetNonzeroTerms add up to the stored coefficients. */
  lemma NonzeroTermsSum(t: Terms, d: int)
    ensures SumAt(NonzeroTerms(t), d) == Coeff(t, d)
  {
    NonzeroSum(AllTerms(t), d);
    AllTermsSum(t, d);
  }

  /** GetNonzeroTerms means the stored coefficients, under any context. */
  lemma NonzeroTermsMeaning(ctx: Context, t: Terms)
    requires ctx.Valid()
    ensures forall d :: SumAt(NonzeroTerms(t), d) == Coeff(t, d)
  {
    forall d ensures SumAt(NonzeroTerms(t), d) == Coeff(t, d) {
      NonzeroTermsSum(t, d);
    }
  }

  /** The first nonzero entry of GetAllTerms has the highest degree among the nonzero entries. */
  lemma {:induction false} FirstNonzero(t: Terms)
    ensures |Nonzero(AllTerms(t))| == 0 <==> AllZero(t)
    ensures |Nonzero(AllTerms(t))| > 0 ==>
      var m := Nonzero(AllTerms(t))[0];
      m.degree in t && t[m.degree] == m.coefficient && m.coefficient != 0 &&
      forall d :: d in t && t[d] != 0 ==> d <= m.degree
    decreases |t.Keys|
  {
    if |t.Keys| > 0 {
      var k := MaxKey(t.Keys);
      var rest := Without(t, k);
      assert rest.Keys < t.Keys;
      FirstNonzero(rest);
      var A := AllTerms(t);
      assert A[0] == Monomial(t[k], k) && A[1..] == AllTerms(rest);
      if t[k] == 0 {
        assert Nonzero(A) == Nonzero(AllTerms(rest));
        assert AllZero(t) <==> AllZero(rest);
      } else {
        assert Nonzero(A)[0] == A[0];
      }
    } else {
      assert AllZero(t);
    }
  }

  /**
   * Degree is 0 when every coefficient is zero; otherwise its coefficient is nonzero and every
   * nonzero coefficient sits at a degree no higher.
   */
  lemma DegreeCharacterised(t: Terms)
    ensures AllZero(t) ==> Degree(t) == 0
    ensures !AllZero(t) ==> Coeff(t, Degree(t)) != 0
    ensures forall d :: Coeff(t, d) != 0 ==> d <= Degree(t)
  {
    FirstNonzero(t);
  }

  /** The highest-degree term carries the coefficient at Degree. */
  lemma HighestDegreeTermIs(t: Terms)
    ensures HighestDegreeTerm(t) == Monomial(Coeff(t, Degree(t)), Degree(t)) || (AllZero(t) && HighestDegreeTerm(t) == Zero)
    ensures !AllZero(t) ==> HighestDegreeTerm(t).coefficient != 0
  {
    DegreeCharacterised(t);
  }

  // ------------------------------------------------------------------ properties of AddInPlace

  lemma AddTermCoeff(ctx: Context, t: Terms, c: int, d: int, e: int)
    requires ctx.Valid()
    ensures Utilities.ModEq(ctx, Coeff(AddTerm(ctx, t, c, d), e), Coeff(t, e) + Term(Monomial(c, d), e))
    ensures e != d ==> Coeff(AddTerm(ctx, t, c, d), e) == Coeff(t, e)
  {
    if e != d {
      Utilities.ModEqRefl(ctx, Coeff(t, e));
    }
  }

  /** Adding a list of terms adds their coefficients, modulo the modulus. */
  lemma {:induction false} AddAllCoeff(ctx: Context, t: Terms, ms: seq<Monomial>, d: int)
    requires ctx.Valid()
    ensures Utilities.ModEq(ctx, Coeff(AddAll(ctx, t, ms), d), Coeff(t, d) + SumAt(ms, d))
  {
    if |ms| == 0 {
      Utilities.ModEqRefl(ctx, Coeff(t, d));
    } else {
      var init, last := ms[..|ms| - 1], ms[|ms| - 1];
      var u := AddAll(ctx, t, init);
      AddAllCoeff(ctx, t, init, d);
      AddTermCoeff(ctx, u, last.coefficient, last.degree, d);
      assert ms == init + [last];
      SumAtConcat(init, [last], d);
      var tl := Term(last, d);
      Utilities.ModEqRefl(ctx, tl);
      Utilities.ModEqAdd(ctx, Coeff(u, d), tl, Coeff(t, d) + SumAt(init, d), tl);
      Utilities.ModEqTrans(ctx, Coeff(AddAll(ctx, t, ms), d), Coeff(u, d) + tl, Coeff(t, d) + SumAt(ms, d));
    }
  }

  /** Adding terms never removes an entry, and every entry it writes is reduced. */
  lemma {:induction false} AddAllKeeps(ctx: Context, t: Terms, ms: seq<Monomial>)
    requires ctx.Valid()
    ensures t.Keys <= AddAll(ctx, t, ms).Keys
    ensures Stored(ctx, t) ==> Stored(ctx, AddAll(ctx, t, ms))
  {
    if |ms| > 0 {
      AddAllKeeps(ctx, t, ms[..|ms| - 1]);
    }
  }

  lemma {:induction false} AddAllConcat(ctx: Context, t: Terms, a: seq<Monomial>, b: seq<Monomial>)
    requires ctx.Valid()
    ensures AddAll(ctx, t, a + b) == AddAll(ctx, AddAll(ctx, t, a), b)
    decreases |b|
  {
    if |b| == 0 {
      assert a + b == a;
    } else {
      assert (a + b)[..|a + b| - 1] == a + b[..|b| - 1];
      AddAllConcat(ctx, t, a, b[..|b| - 1]);
    }
  }

  /** A reduced coefficient that is congruent to zero is zero, entry by entry. */
  lemma StoredZero(ctx: Context, t: Terms, d: int)
    requires ctx.Valid() && Stored(ctx, t) && Utilities.ModEq(ctx, Coeff(t, d), 0)
    ensures Coeff(t, d) == 0
  {
    if d in t {
      Utilities.ReducedZero(ctx, t[d]);
    }
  }
}
