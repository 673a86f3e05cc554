/**
 * The meaning of a list of terms: the coefficient it gives each power of x. Sums of term lists,
 * products of term lists and powers are defined here on unreduced terms, and the ring laws are
 * proved for them. Two lists are equivalent under a context when every coefficient agrees modulo
 * the modulus (exactly, without one); a list is congruent to another modulo a third when they
 * differ by a multiple of it.
 */
module TermAlgebra {
  import opened Globals
  import Arith
  import Utilities
  import opened Monomials

  /** The contribution of one term to the coefficient of x^d. */
  function Term(m: Monomial, d: int): int
  {
    if m.degree == d then m.coefficient else 0
  }

  /** The coefficient of x^d in the sum of the terms ms. */
  function SumAt(ms: seq<Monomial>, d: int): int
  {
    if |ms| == 0 then 0 else Term(ms[0], d) + SumAt(ms[1..], d)
  }

  lemma {:induction false} SumAtConcat(a: seq<Monomial>, b: seq<Monomial>, d: int)
    ensures SumAt(a + b, d) == SumAt(a, d) + SumAt(b, d)
  {
    if |a| == 0 {
      assert a + b == b;
    } else {
      assert (a + b)[1..] == a[1..] + b;
      SumAtConcat(a[1..], b, d);
    }
  }

  /** The product of two terms, unreduced. */
  function Prod(a: Monomial, b: Monomial): Monomial
  {
    Monomial(a.coefficient * b.coefficient, a.degree + b.degree)
  }

  /** The term a times each term of bs. */
  function Scale(a: Monomial, bs: seq<Monomial>): (r: seq<Monomial>)
    ensures |r| == |bs|
  {
    if |bs| == 0 then [] else [Prod(a, bs[0])] + Scale(a, bs[1..])
  }

  /** Every term of ps times every term of bs, outer and inner loop. */
  function Times(ps: seq<Monomial>, bs: seq<Monomial>): seq<Monomial>
  {
    if |ps| == 0 then [] else Scale(ps[0], bs) + Times(ps[1..], bs)
  }

  /** The coefficient of x^d in the product, summed over the terms of ps. */
  function Dot(ps: seq<Monomial>, bs: seq<Monomial>, d: int): int
  {
    if |ps| == 0 then 0 else ps[0].coefficient * SumAt(bs, d - ps[0].degree) + Dot(ps[1..], bs, d)
  }

  /** The list with every coefficient negated. */
  function Neg(ps: seq<Monomial>): seq<Monomial>
  {
    Scale(MinusOne, ps)
  }

  /** The e-th power of the sum of the terms ps. */
  function PowSem(ps: seq<Monomial>, e: nat): seq<Monomial>
  {
    if e == 0 then [One] else Times(ps, PowSem(ps, e - 1))
  }

  // ------------------------------------------------------------------ exact laws

  lemma {:induction false} SumAtScale(a: Monomial, bs: seq<Monomial>, d: int)
    ensures SumAt(Scale(a, bs), d) == a.coefficient * SumAt(bs, d - a.degree)
  {
    if |bs| > 0 {
      SumAtScale(a, bs[1..], d);
      assert Scale(a, bs)[1..] == Scale(a, bs[1..]);
      assert Term(Prod(a, bs[0]), d) == a.coefficient * Term(bs[0], d - a.degree);
      assert a.coefficient * SumAt(bs, d - a.degree)
          == a.coefficient * Term(bs[0], d - a.degree) + a.coefficient * SumAt(bs[1..], d - a.degree);
    }
  }

  /** The coefficients of a product are the sums of pairwise products. */
  lemma {:induction false} SumAtTimes(ps: seq<Monomial>, bs: seq<Monomial>, d: int)
    ensures SumAt(Times(ps, bs), d) == Dot(ps, bs, d)
  {
    if |ps| > 0 {
      SumAtConcat(Scale(ps[0], bs), Times(ps[1..], bs), d);
      SumAtScale(ps[0], bs, d);
      SumAtTimes(ps[1..], bs, d);
    }
  }

  lemma SumAtNeg(ps: seq<Monomial>, d: int)
    ensures SumAt(Neg(ps), d) == -SumAt(ps, d)
  {
    SumAtScale(MinusOne, ps, d);
  }

  lemma {:induction false} DotConcatRight(ps: seq<Monomial>, b1: seq<Monomial>, b2: seq<Monomial>, d: int)
    ensures Dot(ps, b1 + b2, d) == Dot(ps, b1, d) + Dot(ps, b2, d)
  {
    if |ps| > 0 {
      DotConcatRight(ps[1..], b1, b2, d);
      var c, e := ps[0].coefficient, d - ps[0].degree;
      SumAtConcat(b1, b2, e);
      Arith.Distributes(c, SumAt(b1, e), SumAt(b2, e));
    }
  }

  lemma {:induction false} DotSingleRight(ps: seq<Monomial>, b: Monomial, d: int)
    ensures Dot(ps, [b], d) == b.coefficient * SumAt(ps, d - b.degree)
  {
    if |ps| > 0 {
      DotSingleRight(ps[1..], b, d);
      var a := ps[0];
      assert SumAt([b], d - a.degree) == Term(b, d - a.degree);
      assert a.coefficient * Term(b, d - a.degree) == b.coefficient * Term(a, d - b.degree);
      assert b.coefficient * SumAt(ps, d - b.degree)
          == b.coefficient * Term(a, d - b.degree) + b.coefficient * SumAt(ps[1..], d - b.degree);
    }
  }

  lemma {:induction false} DotEmptyRight(ps: seq<Monomial>, d: int)
    ensures Dot(ps, [], d) == 0
  {
    if |ps| > 0 {
      DotEmptyRight(ps[1..], d);
    }
  }

  /** The coefficient sums of a product do not depend on the order of the factors. */
  lemma {:induction false} DotSwap(ps: seq<Monomial>, bs: seq<Monomial>, d: int)
    ensures Dot(ps, bs, d) == Dot(bs, ps, d)
  {
    if |ps| == 0 {
      DotEmptyRight(bs, d);
    } else {
      var p, rest := ps[0], ps[1..];
      DotSwap(rest, bs, d);
      assert ps == [p] + rest;
      DotConcatRight(bs, [p], rest, d);
      DotSingleRight(bs, p, d);
      calc {
        Dot(bs, ps, d);
        Dot(bs, [p], d) + Dot(bs, rest, d);
        p.coefficient * SumAt(bs, d - p.degree) + Dot(rest, bs, d);
        Dot(ps, bs, d);
      }
    }
  }

  lemma TimesCommutes(ps: seq<Monomial>, bs: seq<Monomial>, d: int)
    ensures SumAt(Times(ps, bs), d) == SumAt(Times(bs, ps), d)
  {
    SumAtTimes(ps, bs, d);
    SumAtTimes(bs, ps, d);
    DotSwap(ps, bs, d);
  }

  lemma {:induction false} TimesConcatLeft(a1: seq<Monomial>, a2: seq<Monomial>, bs: seq<Monomial>)
    ensures Times(a1 + a2, bs) == Times(a1, bs) + Times(a2, bs)
  {
    if |a1| == 0 {
      assert a1 + a2 == a2;
    } else {
      assert (a1 + a2)[1..] == a1[1..] + a2;
      TimesConcatLeft(a1[1..], a2, bs);
    }
  }

  lemma TimesConcatRight(ps: seq<Monomial>, b1: seq<Monomial>, b2: seq<Monomial>, d: int)
    ensures SumAt(Times(ps, b1 + b2), d) == SumAt(Times(ps, b1), d) + SumAt(Times(ps, b2), d)
  {
    SumAtTimes(ps, b1 + b2, d);
    SumAtTimes(ps, b1, d);
    SumAtTimes(ps, b2, d);
    DotConcatRight(ps, b1, b2, d);
  }

  lemma {:induction false} ScaleConcat(a: Monomial, b1: seq<Monomial>, b2: seq<Monomial>)
    ensures Scale(a, b1 + b2) == Scale(a, b1) + Scale(a, b2)
  {
    if |b1| == 0 {
      assert b1 + b2 == b2;
    } else {
      assert (b1 + b2)[1..] == b1[1..] + b2;
      ScaleConcat(a, b1[1..], b2);
    }
  }

  lemma {:induction false} ScaleScale(a: Monomial, b: Monomial, cs: seq<Monomial>)
    ensures Scale(Prod(a, b), cs) == Scale(a, Scale(b, cs))
  {
    if |cs| > 0 {
      ScaleScale(a, b, cs[1..]);
      assert Prod(Prod(a, b), cs[0]) == Prod(a, Prod(b, cs[0])) by {
        assert (a.coefficient * b.coefficient) * cs[0].coefficient
            == a.coefficient * (b.coefficient * cs[0].coefficient);
      }
    }
  }

  lemma {:induction false} TimesScale(a: Monomial, bs: seq<Monomial>, cs: seq<Monomial>)
    ensures Times(Scale(a, bs), cs) == Scale(a, Times(bs, cs))
  {
    if |bs| > 0 {
      TimesScale(a, bs[1..], cs);
      ScaleScale(a, bs[0], cs);
      ScaleConcat(a, Scale(bs[0], cs), Times(bs[1..], cs));
      assert Scale(a, bs)[1..] == Scale(a, bs[1..]);
    }
  }

  /** Multiplication of term lists is associative, as lists. */
  lemma {:induction false} TimesAssociates(ps: seq<Monomial>, bs: seq<Monomial>, cs: seq<Monomial>)
    ensures Times(Times(ps, bs), cs) == Times(ps, Times(bs, cs))
  {
    if |ps| > 0 {
      TimesAssociates(ps[1..], bs, cs);
      TimesConcatLeft(Scale(ps[0], bs), Times(ps[1..], bs), cs);
      TimesScale(ps[0], bs, cs);
    }
  }

  lemma {:induction false} TimesEmptyRight(ps: seq<Monomial>)
    ensures Times(ps, []) == []
  {
    if |ps| > 0 {
      TimesEmptyRight(ps[1..]);
    }
  }

  lemma TimesOne(bs: seq<Monomial>, d: int)
    ensures SumAt(Times([One], bs), d) == SumAt(bs, d)
  {
    SumAtTimes([One], bs, d);
  }

  // ------------------------------------------------------------------ equivalence

  /** Every coefficient agrees modulo the modulus (exactly without one). */
  ghost predicate Equiv(ctx: Context, ps: seq<Monomial>, bs: seq<Monomial>)
    requires ctx.Valid()
  {
    forall d :: Utilities.ModEq(ctx, SumAt(ps, d), SumAt(bs, d))
  }

  /** Lists with the same coefficients are equivalent. */
  lemma SameSums(ctx: Context, ps: seq<Monomial>, bs: seq<Monomial>)
    requires ctx.Valid() && forall d :: SumAt(ps, d) == SumAt(bs, d)
    ensures Equiv(ctx, ps, bs)
  {
    forall d ensures Utilities.ModEq(ctx, SumAt(ps, d), SumAt(bs, d)) {
      Utilities.ModEqRefl(ctx, SumAt(ps, d));
    }
  }

  lemma EquivSym(ctx: Context, ps: seq<Monomial>, bs: seq<Monomial>)
    requires ctx.Valid() && Equiv(ctx, ps, bs)
    ensures Equiv(ctx, bs, ps)
  {
    forall d ensures Utilities.ModEq(ctx, SumAt(bs, d), SumAt(ps, d)) {
      Utilities.ModEqSym(ctx, SumAt(ps, d), SumAt(bs, d));
    }
  }

  lemma EquivTrans(ctx: Context, ps: seq<Monomial>, bs: seq<Monomial>, cs: seq<Monomial>)
    requires ctx.Valid() && Equiv(ctx, ps, bs) && Equiv(ctx, bs, cs)
    ensures Equiv(ctx, ps, cs)
  {
    forall d ensures Utilities.ModEq(ctx, SumAt(ps, d), SumAt(cs, d)) {
      Utilities.ModEqTrans(ctx, SumAt(ps, d), SumAt(bs, d), SumAt(cs, d));
    }
  }

  lemma EquivConcat(ctx: Context, a1: seq<Monomial>, a2: seq<Monomial>, b1: seq<Monomial>, b2: seq<Monomial>)
    requires ctx.Valid() && Equiv(ctx, a1, b1) && Equiv(ctx, a2, b2)
    ensures Equiv(ctx, a1 + a2, b1 + b2)
  {
    forall d ensures Utilities.ModEq(ctx, SumAt(a1 + a2, d), SumAt(b1 + b2, d)) {
      SumAtConcat(a1, a2, d);
      SumAtConcat(b1, b2, d);
      Utilities.ModEqAdd(ctx, SumAt(a1, d), SumAt(a2, d), SumAt(b1, d), SumAt(b2, d));
    }
  }

  lemma {:induction false} DotCongRight(ctx: Context, ps: seq<Monomial>, bs: seq<Monomial>, bs': seq<Monomial>, d: int)
    requires ctx.Valid() && Equiv(ctx, bs, bs')
    ensures Utilities.ModEq(ctx, Dot(ps, bs, d), Dot(ps, bs', d))
  {
    if |ps| == 0 {
      Utilities.ModEqRefl(ctx, 0);
    } else {
      var a := ps[0];
      DotCongRight(ctx, ps[1..], bs, bs', d);
      Utilities.ModEqRefl(ctx, a.coefficient);
      Utilities.ModEqMul(ctx, a.coefficient, SumAt(bs, d - a.degree), a.coefficient, SumAt(bs', d - a.degree));
      Utilities.ModEqAdd(ctx, a.coefficient * SumAt(bs, d - a.degree), Dot(ps[1..], bs, d),
        a.coefficient * SumAt(bs', d - a.degree), Dot(ps[1..], bs', d));
    }
  }

  /** Multiplying equivalent lists gives equivalent products. */
  lemma TimesEquiv(ctx: Context, ps: seq<Monomial>, ps': seq<Monomial>, bs: seq<Monomial>, bs': seq<Monomial>)
    requires ctx.Valid() && Equiv(ctx, ps, ps') && Equiv(ctx, bs, bs')
    ensures Equiv(ctx, Times(ps, bs), Times(ps', bs'))
  {
    forall d ensures Utilities.ModEq(ctx, SumAt(Times(ps, bs), d), SumAt(Times(ps', bs'), d)) {
      SumAtTimes(ps, bs, d);
      SumAtTimes(ps', bs', d);
      DotCongRight(ctx, ps, bs, bs', d);
      DotSwap(ps, bs', d);
      DotCongRight(ctx, bs', ps, ps', d);
      DotSwap(bs', ps', d);
      Utilities.ModEqTrans(ctx, Dot(ps, bs, d), Dot(ps, bs', d), Dot(ps', bs', d));
    }
  }

  lemma TimesCommutesEquiv(ctx: Context, ps: seq<Monomial>, bs: seq<Monomial>)
    requires ctx.Valid()
    ensures Equiv(ctx, Times(ps, bs), Times(bs, ps))
  {
    forall d ensures SumAt(Times(ps, bs), d) == SumAt(Times(bs, ps), d) {
      TimesCommutes(ps, bs, d);
    }
    SameSums(ctx, Times(ps, bs), Times(bs, ps));
  }

  // ------------------------------------------------------------------ congruence modulo a list

  /** xs and ys differ by a multiple of ms (and are equivalent when ms is empty). */
  ghost predicate CongruentMod(ctx: Context, xs: seq<Monomial>, ys: seq<Monomial>, ms: seq<Monomial>)
    requires ctx.Valid()
  {
    exists ks :: Equiv(ctx, xs + Times(ks, ms), ys)
  }

  /** Modulo the empty list, congruence is equivalence. */
  lemma CongruentEmpty(ctx: Context, xs: seq<Monomial>, ys: seq<Monomial>)
    requires ctx.Valid()
    ensures CongruentMod(ctx, xs, ys, []) <==> Equiv(ctx, xs, ys)
  {
    if CongruentMod(ctx, xs, ys, []) {
      var ks :| Equiv(ctx, xs + Times(ks, []), ys);
      TimesEmptyRight(ks);
      assert xs + Times(ks, []) == xs;
    }
    if Equiv(ctx, xs, ys) {
      TimesEmptyRight([]);
      assert xs + Times([], []) == xs;
    }
  }

  lemma EquivCongruent(ctx: Context, xs: seq<Monomial>, ys: seq<Monomial>, ms: seq<Monomial>)
    requires ctx.Valid() && Equiv(ctx, xs, ys)
    ensures CongruentMod(ctx, xs, ys, ms)
  {
    assert xs + Times([], ms) == xs;
  }

  lemma CongruentTrans(ctx: Context, xs: seq<Monomial>, ys: seq<Monomial>, zs: seq<Monomial>, ms: seq<Monomial>)
    requires ctx.Valid() && CongruentMod(ctx, xs, ys, ms) && CongruentMod(ctx, ys, zs, ms)
    ensures CongruentMod(ctx, xs, zs, ms)
  {
    var k1 :| Equiv(ctx, xs + Times(k1, ms), ys);
    var k2 :| Equiv(ctx, ys + Times(k2, ms), zs);
    TimesConcatLeft(k1, k2, ms);
    forall d ensures Utilities.ModEq(ctx, SumAt(xs + Times(k1 + k2, ms), d), SumAt(zs, d)) {
      SumAtConcat(xs, Times(k1, ms) + Times(k2, ms), d);
      SumAtConcat(Times(k1, ms), Times(k2, ms), d);
      SumAtConcat(xs, Times(k1, ms), d);
      SumAtConcat(ys, Times(k2, ms), d);
      var t2 := SumAt(Times(k2, ms), d);
      Utilities.ModEqRefl(ctx, t2);
      Utilities.ModEqAdd(ctx, SumAt(xs + Times(k1, ms), d), t2, SumAt(ys, d), t2);
      Utilities.ModEqTrans(ctx, SumAt(xs + Times(k1 + k2, ms), d), SumAt(ys + Times(k2, ms), d), SumAt(zs, d));
    }
  }

  lemma CongruentSym(ctx: Context, xs: seq<Monomial>, ys: seq<Monomial>, ms: seq<Monomial>)
    requires ctx.Valid() && CongruentMod(ctx, xs, ys, ms)
    ensures CongruentMod(ctx, ys, xs, ms)
  {
    var k :| Equiv(ctx, xs + Times(k, ms), ys);
    TimesScale(MinusOne, k, ms);
    forall d ensures Utilities.ModEq(ctx, SumAt(ys + Times(Neg(k), ms), d), SumAt(xs, d)) {
      SumAtConcat(ys, Times(Neg(k), ms), d);
      SumAtConcat(xs, Times(k, ms), d);
      SumAtScale(MinusOne, Times(k, ms), d);
      var t := SumAt(Times(k, ms), d);
      Utilities.ModEqSym(ctx, SumAt(xs + Times(k, ms), d), SumAt(ys, d));
      Utilities.ModEqRefl(ctx, -t);
      Utilities.ModEqAdd(ctx, SumAt(ys, d), -t, SumAt(xs, d) + t, -t);
    }
  }

  /** A congruence multiplied on the right by any list is a congruence. */
  lemma CongruentTimesLeft(ctx: Context, xs: seq<Monomial>, xs': seq<Monomial>, ys: seq<Monomial>, ms: seq<Monomial>)
    requires ctx.Valid() && CongruentMod(ctx, xs, xs', ms)
    ensures CongruentMod(ctx, Times(xs, ys), Times(xs', ys), ms)
  {
    var k :| Equiv(ctx, xs + Times(k, ms), xs');
    SameSums(ctx, ys, ys);
    TimesEquiv(ctx, xs + Times(k, ms), xs', ys, ys);
    TimesConcatLeft(xs, Times(k, ms), ys);
    TimesAssociates(k, ms, ys);
    TimesAssociates(k, ys, ms);
    SameSums(ctx, k, k);
    TimesCommutesEquiv(ctx, ms, ys);
    TimesEquiv(ctx, k, k, Times(ms, ys), Times(ys, ms));
    SameSums(ctx, Times(xs, ys), Times(xs, ys));
    EquivConcat(ctx, Times(xs, ys), Times(Times(k, ms), ys), Times(xs, ys), Times(Times(k, ys), ms));
    EquivSym(ctx, Times(xs, ys) + Times(Times(k, ms), ys), Times(xs, ys) + Times(Times(k, ys), ms));
    EquivTrans(ctx, Times(xs, ys) + Times(Times(k, ys), ms), Times(xs, ys) + Times(Times(k, ms), ys), Times(xs', ys));
  }

  lemma CongruentTimesRight(ctx: Context, xs: seq<Monomial>, ys: seq<Monomial>, ys': seq<Monomial>, ms: seq<Monomial>)
    requires ctx.Valid() && CongruentMod(ctx, ys, ys', ms)
    ensures CongruentMod(ctx, Times(xs, ys), Times(xs, ys'), ms)
  {
    CongruentTimesLeft(ctx, ys, ys', xs, ms);
    TimesCommutesEquiv(ctx, xs, ys);
    TimesCommutesEquiv(ctx, ys', xs);
    EquivCongruent(ctx, Times(xs, ys), Times(ys, xs), ms);
    EquivCongruent(ctx, Times(ys', xs), Times(xs, ys'), ms);
    CongruentTrans(ctx, Times(xs, ys), Times(ys, xs), Times(ys', xs), ms);
    CongruentTrans(ctx, Times(xs, ys), Times(ys', xs), Times(xs, ys'), ms);
  }

  /** Congruences multiply. */
  lemma CongruentTimes(ctx: Context, xs: seq<Monomial>, xs': seq<Monomial>, ys: seq<Monomial>, ys': seq<Monomial>, ms: seq<Monomial>)
    requires ctx.Valid() && CongruentMod(ctx, xs, xs', ms) && CongruentMod(ctx, ys, ys', ms)
    ensures CongruentMod(ctx, Times(xs, ys), Times(xs', ys'), ms)
  {
    CongruentTimesLeft(ctx, xs, xs', ys, ms);
    CongruentTimesRight(ctx, xs', ys, ys', ms);
    CongruentTrans(ctx, Times(xs, ys), Times(xs', ys), Times(xs', ys'), ms);
  }

  // ------------------------------------------------------------------ powers

  /** x^(a+b) = x^a * x^b for term lists. */
  lemma {:induction false} PowAddSem(ctx: Context, ps: seq<Monomial>, a: nat, b: nat)
    requires ctx.Valid()
    ensures Equiv(ctx, PowSem(ps, a + b), Times(PowSem(ps, a), PowSem(ps, b)))
  {
    if a == 0 {
      forall d ensures SumAt(PowSem(ps, b), d) == SumAt(Times([One], PowSem(ps, b)), d) {
        TimesOne(PowSem(ps, b), d);
      }
      SameSums(ctx, PowSem(ps, b), Times([One], PowSem(ps, b)));
    } else {
      PowAddSem(ctx, ps, a - 1, b);
      assert PowSem(ps, a + b) == Times(ps, PowSem(ps, a - 1 + b));
      SameSums(ctx, ps, ps);
      TimesEquiv(ctx, ps, ps, PowSem(ps, a - 1 + b), Times(PowSem(ps, a - 1), PowSem(ps, b)));
      TimesAssociates(ps, PowSem(ps, a - 1), PowSem(ps, b));
    }
  }

  /** (x*x)^k = x^(2k) for term lists. */
  lemma {:induction false} PowSquareSem(ctx: Context, ps: seq<Monomial>, k: nat)
    requires ctx.Valid()
    ensures Equiv(ctx, PowSem(Times(ps, ps), k), PowSem(ps, 2 * k))
  {
    if k == 0 {
      SameSums(ctx, [One], [One]);
    } else {
      PowSquareSem(ctx, ps, k - 1);
      SameSums(ctx, Times(ps, ps), Times(ps, ps));
      TimesEquiv(ctx, Times(ps, ps), Times(ps, ps), PowSem(Times(ps, ps), k - 1), PowSem(ps, 2 * k - 2));
      TimesAssociates(ps, ps, PowSem(ps, 2 * k - 2));
      assert PowSem(ps, 2 * k) == Times(ps, Times(ps, PowSem(ps, 2 * k - 2)));
    }
  }

  /** Powers of congruent lists are congruent. */
  lemma {:induction false} PowCongruent(ctx: Context, xs: seq<Monomial>, xs': seq<Monomial>, k: nat, ms: seq<Monomial>)
    requires ctx.Valid() && CongruentMod(ctx, xs, xs', ms)
    ensures CongruentMod(ctx, PowSem(xs, k), PowSem(xs', k), ms)
  {
    if k == 0 {
      SameSums(ctx, [One], [One]);
      EquivCongruent(ctx, [One], [One], ms);
    } else {
      PowCongruent(ctx, xs, xs', k - 1, ms);
      CongruentTimes(ctx, xs, xs', PowSem(xs, k - 1), PowSem(xs', k - 1), ms);
    }
  }
}
