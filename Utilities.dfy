/**
 * The integer number theory of the library (class Utilities): reduction by the ambient
 * modulus, modular inverses and division, gcd, fast powers, Euler's totient, multiplicative
 * order, the search for the AKS parameter r, and the perfect-power test.
 */
module Utilities {
  import opened Wrappers
  import opened Arith
  import opened Globals

  // ------------------------------------------------------------------ reduction

  /**
   * Modulo(a, b): a reduced by b, or by the context's modulus when b is absent.
   * A reduced value is congruent to a and smaller than the modulus in size; it lies in
   * [0, m) unless modIgnoreSign is set, in which case it keeps the sign of a.
   */
  function Modulo(ctx: Context, a: int, b: Option<int>): (r: Result<int>)
    ensures var m := if b.Some? then b else ctx.modulus;
      && (m.None? ==> r == Ok(a))
      && (m == Some(0) ==> r == Err(ArgumentError))
      && (m.Some? && m.value < 0 ==> r == Err(NotImplemented))
      && (m.Some? && m.value > 0 ==>
            && r.Ok? && Cong(m.value, r.value, a) && Abs(r.value) < m.value
            && (!ctx.modIgnoreSign ==> r.value >= 0)
            && (ctx.modIgnoreSign ==> (a >= 0 ==> r.value >= 0) && (a <= 0 ==> r.value <= 0)))
  {
    var m := if b.Some? then b else ctx.modulus;
    if m.None? then Ok(a)
    else if m.value == 0 then Err(ArgumentError)
    else if m.value < 0 then Err(NotImplemented)
    else
      var r := TruncMod(a, m.value);
      TruncModCong(a, m.value);
      CongMultiple(m.value, r, 1);
      CongTrans(m.value, r + 1 * m.value, r, a);
      Ok(if !ctx.modIgnoreSign && r < 0 then r + Abs(m.value) else r)
  }

  /** Equality of integers as the context sees it: congruence under a modulus. */
  ghost predicate ModEq(ctx: Context, x: int, y: int)
    requires ctx.Valid()
  {
    if ctx.modulus.Some? then exists k :: x - y == Multiple(k, ctx.modulus.value) else x == y
  }

  /** Under a modulus, ModEq is the congruence of Arith. */
  lemma ModEqCong(ctx: Context, x: int, y: int)
    requires ctx.Valid()
    ensures ctx.modulus.Some? ==> (ModEq(ctx, x, y) <==> Cong(ctx.modulus.value, x, y))
  {
    if ctx.modulus.Some? {
      CongMultipleOf(ctx.modulus.value, x, y);
    }
  }

  /** A value that reduction leaves alone under the context. */
  predicate Reduced(ctx: Context, x: int)
    requires ctx.Valid()
  {
    ctx.modulus.Some? ==>
      Abs(x) < ctx.modulus.value && (!ctx.modIgnoreSign ==> x >= 0)
  }

  /** Modulo(a) with the context's own modulus, which cannot raise in a valid context. */
  function Reduce(ctx: Context, a: int): (r: int)
    requires ctx.Valid()
    ensures ModEq(ctx, r, a) && Reduced(ctx, r)
    ensures ctx.modIgnoreSign ==> (a >= 0 ==> r >= 0) && (a <= 0 ==> r <= 0)
  {
    var r := Modulo(ctx, a, None).value;
    ModEqCong(ctx, r, a);
    r
  }

  /** Reduction fixes reduced values, so it is idempotent. */
  lemma ReduceReduced(ctx: Context, x: int)
    requires ctx.Valid() && Reduced(ctx, x)
    ensures Reduce(ctx, x) == x
  {
    if ctx.modulus.Some? {
      var m := ctx.modulus.value;
      SmallMod(Abs(x), m);
      assert TruncMod(x, m) == x;
      assert Modulo(ctx, x, None) == Ok(x);
    }
  }

  lemma ReduceIdempotent(ctx: Context, a: int)
    requires ctx.Valid()
    ensures Reduce(ctx, Reduce(ctx, a)) == Reduce(ctx, a)
  {
    ReduceReduced(ctx, Reduce(ctx, a));
  }

  /** A reduced value equal to 0 as the context sees it is 0. */
  lemma ReducedZero(ctx: Context, x: int)
    requires ctx.Valid() && Reduced(ctx, x) && ModEq(ctx, x, 0)
    ensures x == 0
  {
    if ctx.modulus.Some? {
      ModEqCong(ctx, x, 0);
      CongZeroSmall(ctx.modulus.value, x);
    }
  }

  /** Under sign normalisation, reduction depends only on the residue class. */
  lemma ReduceCanonical(ctx: Context, x: int, y: int)
    requires ctx.Valid() && !ctx.modIgnoreSign && ModEq(ctx, x, y)
    ensures Reduce(ctx, x) == Reduce(ctx, y)
  {
    if ctx.modulus.Some? {
      var m := ctx.modulus.value;
      ModEqCong(ctx, Reduce(ctx, x), x);
      ModEqCong(ctx, Reduce(ctx, y), y);
      ModEqCong(ctx, x, y);
      CongTrans(m, Reduce(ctx, x), x, y);
      CongSym(m, Reduce(ctx, y), y);
      CongTrans(m, Reduce(ctx, x), y, Reduce(ctx, y));
      CongCanonical(m, Reduce(ctx, x), Reduce(ctx, y));
    }
  }

  /**
   * r is a reduction of a: congruent to a, reduced, and of a's sign when the context keeps
   * signs (C#'s % takes the dividend's sign).
   */
  ghost predicate IsReduction(ctx: Context, r: int, a: int)
    requires ctx.Valid()
  {
    && ModEq(ctx, r, a) && Reduced(ctx, r)
    && (ctx.modIgnoreSign ==> (a >= 0 ==> r >= 0) && (a <= 0 ==> r <= 0))
  }

  /** A value has exactly one reduction, and it is what Reduce returns. */
  lemma ReductionUnique(ctx: Context, r: int, a: int)
    requires ctx.Valid()
    ensures IsReduction(ctx, r, a) <==> r == Reduce(ctx, a)
  {
    var s := Reduce(ctx, a);
    if IsReduction(ctx, r, a) && ctx.modulus.Some? {
      var m := ctx.modulus.value;
      ModEqCong(ctx, r, a);
      ModEqCong(ctx, s, a);
      CongSym(m, s, a);
      CongTrans(m, r, a, s);
      if !ctx.modIgnoreSign || a >= 0 {
        CongCanonical(m, r, s);
      } else {
        CongNeg(m, r, s);
        CongCanonical(m, -r, -s);
      }
    }
  }

  lemma ModEqRefl(ctx: Context, x: int)
    requires ctx.Valid()
    ensures ModEq(ctx, x, x)
  {
    ModEqCong(ctx, x, x);
    if ctx.modulus.Some? {
      CongRefl(ctx.modulus.value, x);
    }
  }

  lemma ModEqSym(ctx: Context, x: int, y: int)
    requires ctx.Valid() && ModEq(ctx, x, y)
    ensures ModEq(ctx, y, x)
  {
    ModEqCong(ctx, x, y);
    ModEqCong(ctx, y, x);
    if ctx.modulus.Some? {
      CongSym(ctx.modulus.value, x, y);
    }
  }

  lemma ModEqTrans(ctx: Context, x: int, y: int, z: int)
    requires ctx.Valid() && ModEq(ctx, x, y) && ModEq(ctx, y, z)
    ensures ModEq(ctx, x, z)
  {
    ModEqCong(ctx, x, y);
    ModEqCong(ctx, y, z);
    ModEqCong(ctx, x, z);
    if ctx.modulus.Some? {
      CongTrans(ctx.modulus.value, x, y, z);
    }
  }

  lemma ModEqAdd(ctx: Context, x: int, y: int, x': int, y': int)
    requires ctx.Valid() && ModEq(ctx, x, x') && ModEq(ctx, y, y')
    ensures ModEq(ctx, x + y, x' + y')
  {
    ModEqCong(ctx, x, x');
    ModEqCong(ctx, y, y');
    ModEqCong(ctx, x + y, x' + y');
    if ctx.modulus.Some? {
      CongAdd(ctx.modulus.value, x, y, x', y');
    }
  }

  lemma ModEqNeg(ctx: Context, x: int, x': int)
    requires ctx.Valid() && ModEq(ctx, x, x')
    ensures ModEq(ctx, -x, -x')
  {
    ModEqCong(ctx, x, x');
    ModEqCong(ctx, -x, -x');
    if ctx.modulus.Some? {
      CongNeg(ctx.modulus.value, x, x');
    }
  }

  lemma ModEqMul(ctx: Context, x: int, y: int, x': int, y': int)
    requires ctx.Valid() && ModEq(ctx, x, x') && ModEq(ctx, y, y')
    ensures ModEq(ctx, x * y, x' * y')
  {
    ModEqCong(ctx, x, x');
    ModEqCong(ctx, y, y');
    ModEqCong(ctx, x * y, x' * y');
    if ctx.modulus.Some? {
      CongMul(ctx.modulus.value, x, y, x', y');
    }
  }

  // ------------------------------------------------------------------ modular inverse

  /**
   * The extended-Euclid loop of ModularMultiplicativeInverse, one recursive call per pass:
   * (b, mod, x0, x1) becomes (mod, b % mod, x1 - (b / mod) * x0, x0) until b <= 1.
   */
  function InverseLoop(b: int, mod: nat, x0: int, x1: int): int
    requires b > 1 ==> Gcd(b, mod) == 1
    decreases mod
  {
    if b <= 1 then x1
    else InverseLoop(mod, b % mod, x1 - (b / mod) * x0, x0)
  }

  /**
   * What a pass of the loop keeps, for the inverse of A modulo M: x1 stands for b and x0 for
   * mod (times A, modulo M), x0 and x1 have opposite signs, and |x1|*mod + |x0|*b == M.
   */
  ghost predicate EuclidInv(A: int, M: int, b: int, mod: int, x0: int, x1: int)
  {
    && M > 1 && b >= 1 && 0 <= mod <= M && Gcd(b, mod) == 1
    && Cong(M, x1 * A, b) && Cong(M, x0 * A, mod)
    && ((x0 >= 0 && x1 <= 0) || (x0 <= 0 && x1 >= 0))
    && Abs(x1) * mod + Abs(x0) * b == M
    && (mod == 0 ==> Abs(x1) < M)
  }

  /** The cofactor of the new remainder stands for it: (x1 - q*x0)*A == b - q*mod == r. */
  lemma EuclidCong(M: int, A: int, b: int, mod: int, q: int, r: int, x0: int, x1: int)
    requires M > 0 && Cong(M, x1 * A, b) && Cong(M, x0 * A, mod) && b == q * mod + r
    ensures Cong(M, (x1 - q * x0) * A, r)
  {
    CongMul(M, q, x0 * A, q, mod);
    CongNeg(M, q * (x0 * A), q * mod);
    CongAdd(M, x1 * A, -(q * (x0 * A)), b, -(q * mod));
    assert (x1 - q * x0) * A == x1 * A + -(q * (x0 * A));
  }

  /** The cofactors keep opposite signs and the size identity |x1|*mod + |x0|*b == M. */
  lemma EuclidSize(M: int, b: int, mod: int, q: int, r: int, x0: int, x1: int)
    requires q >= 0 && b == q * mod + r
    requires (x0 >= 0 && x1 <= 0) || (x0 <= 0 && x1 >= 0)
    requires Abs(x1) * mod + Abs(x0) * b == M
    ensures var x0' := x1 - q * x0;
      ((x0' >= 0 && x0 <= 0) || (x0' <= 0 && x0 >= 0)) && Abs(x0) * r + Abs(x0') * mod == M
  {
    var x0' := x1 - q * x0;
    var qa := q * Abs(x0);
    assert qa >= 0;
    if x0 >= 0 {
      assert q * x0 == qa;
    } else {
      assert q * x0 == -qa;
    }
    assert Abs(x0') == Abs(x1) + qa;
    calc {
      Abs(x0) * r + Abs(x0') * mod;
      Abs(x0) * r + Abs(x1) * mod + qa * mod;
      { assert qa * mod == Abs(x0) * (q * mod); }
      Abs(x0) * (r + q * mod) + Abs(x1) * mod;
    }
  }

  /** A cofactor whose multiple by b >= 2 fits below M is itself below M. */
  lemma SmallCofactor(a0: int, a1: int, b: int, M: int)
    requires a0 >= 0 && a1 >= 0 && b >= 2 && M > 1 && a1 + a0 * b == M
    ensures a0 < M
  {
    assert a0 * b == a0 * 2 + a0 * (b - 2);
    MulSign(b - 1, a0);
  }

  /** One pass of the loop, with the quotient q and remainder r of b by mod as plain values. */
  lemma EuclidDivided(A: int, M: int, b: int, mod: int, x0: int, x1: int, q: int, r: int)
    requires EuclidInv(A, M, b, mod, x0, x1) && b > 1 && mod > 0
    requires b == q * mod + r && 0 <= r < mod && q >= 0 && Gcd(mod, r) == 1
    ensures EuclidInv(A, M, mod, r, x1 - q * x0, x0)
  {
    var x0' := x1 - q * x0;
    assert Cong(M, x0' * A, r) by {
      EuclidCong(M, A, b, mod, q, r, x0, x1);
    }
    assert ((x0' >= 0 && x0 <= 0) || (x0' <= 0 && x0 >= 0)) && Abs(x0) * r + Abs(x0') * mod == M by {
      EuclidSize(M, b, mod, q, r, x0, x1);
    }
    assert r == 0 ==> Abs(x0) < M by {
      if r == 0 {
        assert mod == 1;
        SmallCofactor(Abs(x0), Abs(x1), b, M);
      }
    }
  }

  lemma EuclidStep(A: int, M: int, b: int, mod: int, x0: int, x1: int)
    requires EuclidInv(A, M, b, mod, x0, x1) && b > 1
    ensures mod > 0
    ensures EuclidInv(A, M, mod, b % mod, x1 - (b / mod) * x0, x0)
  {
    assert mod != 0;
    EuclidQuotient(b, mod);
    EuclidDivided(A, M, b, mod, x0, x1, b / mod, b % mod);
  }

  /** Euclidean division of the remainder pair, with the gcd carried over. */
  lemma EuclidQuotient(b: int, mod: int)
    requires b > 1 && mod > 0 && Gcd(b, mod) == 1
    ensures b == (b / mod) * mod + b % mod && 0 <= b % mod < mod && b / mod >= 0
    ensures Gcd(mod, b % mod) == 1
  {
    QuotientSign(b, mod);
  }

  lemma QuotientSign(b: int, mod: int)
    requires b > 1 && mod > 0
    ensures b == (b / mod) * mod + b % mod && 0 <= b % mod < mod && b / mod >= 0
  {
    var q, r := b / mod, b % mod;
    assert b == mod * q + r && 0 <= r < mod;
  }

  /** At the exit (b == 1) the cofactor x1 is smaller than M in size. */
  lemma EuclidExitBound(M: int, mod: int, a0: int, a1: int)
    requires M > 1 && 0 <= mod <= M && a0 >= 0 && a1 >= 0 && a1 * mod + a0 == M
    requires mod == 0 ==> a1 < M
    requires a0 == 0 && mod > 0 ==> mod == M
    ensures a1 < M
  {
    if mod > 0 && a0 == 0 {
      assert a1 * M - M == M * (a1 - 1);
      MulSign(M, a1 - 1);
    } else if mod > 0 {
      if a1 > 0 {
        MulSign(a1, mod - 1);
      }
      assert a1 * mod == a1 + a1 * (mod - 1);
    }
  }

  lemma EuclidExit(A: int, M: int, b: int, mod: int, x0: int, x1: int)
    requires EuclidInv(A, M, b, mod, x0, x1) && b <= 1
    ensures Cong(M, x1 * A, 1) && Abs(x1) < M
  {
    assert b == 1;
    if x0 == 0 && mod > 0 {
      assert Cong(M, 0, mod);
      CongSym(M, 0, mod);
      ModZero(mod, M);
      MulSign(M, mod / M);
    }
    EuclidExitBound(M, mod, Abs(x0), Abs(x1));
  }

  lemma {:induction false} InverseLoopCorrect(A: int, M: int, b: int, mod: int, x0: int, x1: int)
    requires EuclidInv(A, M, b, mod, x0, x1)
    ensures Cong(M, InverseLoop(b, mod, x0, x1) * A, 1)
    ensures Abs(InverseLoop(b, mod, x0, x1)) < M
    decreases mod
  {
    if b <= 1 {
      EuclidExit(A, M, b, mod, x0, x1);
    } else {
      EuclidStep(A, M, b, mod, x0, x1);
      InverseLoopCorrect(A, M, mod, b % mod, x1 - (b / mod) * x0, x0);
    }
  }

  /** Shifting a negative b by mod, as the inverse does, keeps its gcd with mod. */
  lemma GcdShift(b: int, mod: int)
    requires mod > 0
    ensures b < 0 && -b <= mod ==> Gcd(mod + b, mod) == Gcd(Abs(b), mod)
  {
    if b < 0 && -b <= mod {
      GcdComplement(-b, mod);
    }
  }

  /** The value ModularMultiplicativeInverse(b, mod) returns or the exception it raises. */
  function ModInverse(b: int, mod: int): (r: Result<int>)
    ensures mod == 0 ==> r == Err(ArgumentError)
    ensures mod < 0 ==> r == Err(NotImplemented)
    ensures mod > 0 ==> (r.Ok? <==> Gcd(Abs(b), mod) == 1)
    ensures mod > 0 && r.Err? ==> r.error == BadModulus
  {
    if mod == 0 then Err(ArgumentError)
    else if mod < 0 then Err(NotImplemented)
    else if Gcd(Abs(b), mod) != 1 then Err(BadModulus)
    else
      var b' := if b < 0 then mod + b else b;
      GcdShift(b, mod);
      if mod == 1 then Ok(0)
      else
        var x := InverseLoop(b', mod, 0, 1);
        Ok(if x < 0 then x + mod else x)
  }

  /**
   * Moving the loop's cofactor x into [0, mod), and b back from its shifted value b', keeps
   * the congruence x * b' == 1 (mod mod).
   */
  lemma InverseShift(b: int, mod: int, b': int, x: int, y: int)
    requires mod > 1 && b > -mod && b' == (if b < 0 then mod + b else b)
    requires Cong(mod, x * b', 1) && Abs(x) < mod && y == (if x < 0 then x + mod else x)
    ensures 0 <= y < mod && Cong(mod, b * y, 1)
  {
    assert Cong(mod, y, x) by {
      if x < 0 {
        CongMultiple(mod, x, 1);
      } else {
        CongRefl(mod, x);
      }
    }
    assert Cong(mod, b, b') by {
      if b < 0 {
        CongMultiple(mod, b, 1);
        CongSym(mod, b + 1 * mod, b);
      } else {
        CongRefl(mod, b);
      }
    }
    CongMul(mod, b, y, b', x);
    assert b' * x == x * b';
    CongTrans(mod, b * y, b' * x, 1);
  }

  /** The loop, started from b' in [1, mod), returns a cofactor of b' modulo mod. */
  lemma InverseLoopStart(b': int, mod: int)
    requires mod > 1 && b' >= 0 && Gcd(b', mod) == 1
    ensures Cong(mod, InverseLoop(b', mod, 0, 1) * b', 1) && Abs(InverseLoop(b', mod, 0, 1)) < mod
  {
    assert EuclidInv(b', mod, b', mod, 0, 1) by {
      CongRefl(mod, b');
      MultipleMod(1, mod);
    }
    InverseLoopCorrect(b', mod, b', mod, 0, 1);
  }

  /**
   * The inverse is 0 modulo 1; for mod > 1 and b > -mod it is the x in [0, mod) with
   * b * x == 1 (mod mod); for b < -mod the loop never runs and the result is 1.
   */
  lemma ModInverseCorrect(b: int, mod: int)
    requires mod > 0 && Gcd(Abs(b), mod) == 1
    ensures mod == 1 ==> ModInverse(b, mod) == Ok(0)
    ensures mod > 1 && b > -mod ==>
      var x := ModInverse(b, mod).value; 0 <= x < mod && Cong(mod, b * x, 1)
    ensures mod > 1 && b < -mod ==> ModInverse(b, mod) == Ok(1)
  {
    var b' := if b < 0 then mod + b else b;
    GcdShift(b, mod);
    if mod > 1 && b > -mod {
      InverseLoopStart(b', mod);
      var x := InverseLoop(b', mod, 0, 1);
      InverseShift(b, mod, b', x, ModInverse(b, mod).value);
    }
  }

  /** The inverse of 3 modulo 17 is 6. */
  lemma ModInverseExample()
    ensures ModInverse(3, 17) == Ok(6)
  {
    assert Gcd(3, 17) == 1;
    ModInverseCorrect(3, 17);
    var x := ModInverse(3, 17).value;
    assert Cong(17, 3 * 6, 1);
    CongSym(17, 3 * 6, 1);
    CongTrans(17, 3 * x, 1, 3 * 6);
    // 3 * (x - 6) is a multiple of 17, and so is x - 6 = 6 * (3 * (x - 6)) - 17 * (x - 6)
    ModZero(3 * x - 3 * 6, 17);
    var k := (3 * x - 18) / 17;
    assert x - 6 == (6 * k - (x - 6)) * 17;
    MultipleMod(6 * k - (x - 6), 17);
    CongCanonical(17, x, 6);
  }

  /** Utilities.ModularMultiplicativeInverse: extended Euclid on (b, mod) with cofactors x0, x1. */
  method ModularMultiplicativeInverse(b: int, mod: int) returns (r: Result<int>)
    ensures r == ModInverse(b, mod)
  {
    if mod == 0 {
      return Err(ArgumentError);
    } else if mod < 0 {
      return Err(NotImplemented);
    }
    if Gcd(Abs(b), mod) != 1 {
      return Err(BadModulus);
    }
    var u, m := b, mod;
    if u < 0 {
      u := m + u;
    }
    GcdShift(b, mod);
    var m0, x0, x1 := m, 0, 1;
    if m == 1 {
      return Ok(0);
    }
    ghost var u0 := u;
    while u > 1
      invariant 0 <= m && (u > 1 ==> Gcd(u, m) == 1)
      invariant InverseLoop(u, m, x0, x1) == InverseLoop(u0, m0, 0, 1)
      decreases m
    {
      TruncAgrees(u, m);
      var q := TruncDiv(u, m);
      var t := m;
      m := TruncMod(u, m);
      u := t;
      t := x0;
      x0 := x1 - q * x0;
      x1 := t;
    }
    if x1 < 0 {
      x1 := x1 + m0;
    }
    return Ok(x1);
  }

  // ------------------------------------------------------------------ division

  /** Utilities.ModDivide(a, b, mod): a times the inverse of b, reduced by mod. */
  function ModDivide(ctx: Context, a: int, b: int, mod: int): (r: Result<int>)
    ensures ModInverse(b, mod).Err? ==> r == Err(ModInverse(b, mod).error)
    ensures ModInverse(b, mod).Ok? ==>
      r.Ok? && Abs(r.value) < mod && (!ctx.modIgnoreSign ==> r.value >= 0)
  {
    match ModInverse(b, mod)
    case Err(e) => Err(e)
    case Ok(inv) =>
      var r := TruncMod(a * inv, mod);
      Ok(if !ctx.modIgnoreSign && r < 0 then r + Abs(mod) else r)
  }

  /** A value congruent to a * inv, where inv inverts b, times b is congruent to a. */
  lemma CancelInverse(m: int, q: int, a: int, b: int, inv: int)
    requires m > 0 && Cong(m, q, a * inv) && Cong(m, b * inv, 1)
    ensures Cong(m, q * b, a)
  {
    CongRefl(m, b);
    CongMul(m, q, b, a * inv, b);
    assert (a * inv) * b == a * (b * inv);
    CongRefl(m, a);
    CongMul(m, a, b * inv, a, 1);
    CongTrans(m, q * b, a * (b * inv), a);
  }

  /** Adding the modulus once, as the sign normalisation does, stays in the class. */
  lemma CongShift(m: int, t: int, q: int)
    requires m > 0 && (q == t || q == t + m)
    ensures Cong(m, q, t)
  {
    CongMultiple(m, t, 1);
  }

  /** ModDivide(a, b, mod) times b is a, modulo mod, whenever b > -mod. */
  lemma ModDivideCorrect(ctx: Context, a: int, b: int, mod: int)
    requires mod > 1 && b > -mod && ModInverse(b, mod).Ok?
    ensures Cong(mod, ModDivide(ctx, a, b, mod).value * b, a)
  {
    ModInverseCorrect(b, mod);
    var inv := ModInverse(b, mod).value;
    var p := a * inv;
    var t := TruncMod(p, mod);
    var q := ModDivide(ctx, a, b, mod).value;
    assert q == t || q == t + mod;
    TruncModCong(p, mod);
    CongShift(mod, t, q);
    CongTrans(mod, q, t, p);
    CancelInverse(mod, q, a, b, inv);
  }

  /**
   * Utilities.Divide(a, b): exact integer division without a modulus; under a modulus,
   * multiplication by the inverse of b, with a negated result for operands of opposite sign
   * when modIgnoreSign is set.
   */
  function Divide(ctx: Context, a: int, b: int): (r: Result<int>)
  {
    match ctx.modulus
    case None =>
      if b == 0 then Err(DivideByZero)
      else if TruncMod(a, b) != 0 then Err(ArgumentError)
      else Ok(TruncDiv(a, b))
    case Some(m) =>
      match ModInverse(b, m)
      case Err(e) => Err(e)
      case Ok(_) =>
        if ctx.modIgnoreSign && ((a < 0) != (b < 0)) then
          match ModDivide(ctx, Abs(a), Abs(b), m)
          case Err(e) => Err(e)
          case Ok(q) => Ok(-q)
        else ModDivide(ctx, a, b, m)
  }

  /** Zero divided by anything it can be divided by is zero. */
  lemma DivideZero(ctx: Context, b: int)
    requires ctx.Valid()
    ensures Divide(ctx, 0, b).Ok? ==> Divide(ctx, 0, b).value == 0
  {
    if ctx.modulus.Some? && Divide(ctx, 0, b).Ok? {
      var m := ctx.modulus.value;
      assert TruncMod(0, m) == 0;
    }
  }

  /** Without a modulus, Divide succeeds exactly when b divides a, and then q * b == a. */
  lemma DivideExact(ctx: Context, a: int, b: int)
    requires ctx.modulus.None?
    ensures b == 0 ==> Divide(ctx, a, b) == Err(DivideByZero)
    ensures b != 0 ==> (Divide(ctx, a, b).Ok? <==> TruncMod(a, b) == 0)
    ensures b != 0 && Divide(ctx, a, b).Ok? ==> Divide(ctx, a, b).value * b == a
    ensures b != 0 && Divide(ctx, a, b).Err? ==> Divide(ctx, a, b).error == ArgumentError
  {
  }

  /** The negated quotient of the magnitudes divides operands of opposite signs. */
  lemma NegatedQuotient(m: int, p: int, a: int, b: int)
    requires m > 0 && Cong(m, p * Abs(b), Abs(a)) && (a < 0) != (b < 0)
    ensures Cong(m, (-p) * b, a)
  {
    if b < 0 {
      assert (-p) * b == p * Abs(b);
    } else {
      assert (-p) * b == -(p * Abs(b));
      CongNeg(m, p * Abs(b), Abs(a));
    }
  }

  /**
   * Under a modulus m > 0, Divide succeeds exactly when b is invertible modulo m, with a
   * result smaller than m in size; the result times b is a (mod m) whenever b > -m.
   */
  lemma DivideModular(ctx: Context, a: int, b: int)
    requires ctx.modulus.Some?
    ensures ctx.modulus.value == 0 ==> Divide(ctx, a, b) == Err(ArgumentError)
    ensures ctx.modulus.value < 0 ==> Divide(ctx, a, b) == Err(NotImplemented)
    ensures ctx.modulus.value > 0 ==>
      (Divide(ctx, a, b).Ok? <==> Gcd(Abs(b), ctx.modulus.value) == 1) &&
      (Divide(ctx, a, b).Err? ==> Divide(ctx, a, b).error == BadModulus) &&
      (Divide(ctx, a, b).Ok? ==> Abs(Divide(ctx, a, b).value) < ctx.modulus.value)
    ensures ctx.modulus.value > 1 && b > -ctx.modulus.value && Divide(ctx, a, b).Ok? ==>
      Cong(ctx.modulus.value, Divide(ctx, a, b).value * b, a)
  {
    var m := ctx.modulus.value;
    assert Abs(Abs(b)) == Abs(b);
    if m > 1 && b > -m && Divide(ctx, a, b).Ok? {
      if ctx.modIgnoreSign && ((a < 0) != (b < 0)) {
        ModDivideCorrect(ctx, Abs(a), Abs(b), m);
        NegatedQuotient(m, ModDivide(ctx, Abs(a), Abs(b), m).value, a, b);
      } else {
        ModDivideCorrect(ctx, a, b, m);
      }
    }
  }

  // ------------------------------------------------------------------ gcd

  /** Utilities.GCD: Euclid by repeated remainders; negative operands are refused. */
  method GCD(a: int, b: int) returns (r: Result<int>)
    ensures a < 0 || b < 0 ==> r == Err(NotImplemented)
    ensures a >= 0 && b >= 0 ==> r == Ok(Gcd(a, b))
  {
    if a < 0 || b < 0 {
      return Err(NotImplemented);
    }
    var x, y := a, b;
    while x != 0 && y != 0
      invariant 0 <= x && 0 <= y && Gcd(x, y) == Gcd(a, b)
      decreases x + y
    {
      if x > y {
        GcdModLeft(x, y);
        x := TruncMod(x, y);
      } else {
        GcdModRight(x, y);
        y := TruncMod(y, x);
      }
    }
    GcdZeroLeft(y);
    return Ok(if x == 0 then y else x);
  }

  /** Utilities.IsCoprime(n, m): whether GCD(n, m) is 1. */
  function IsCoprime(n: int, m: int): (r: Result<bool>)
    ensures n < 0 || m < 0 ==> r == Err(NotImplemented)
    ensures n >= 0 && m >= 0 ==> r.Ok? && (r.value <==> Gcd(n, m) == 1)
  {
    if n < 0 || m < 0 then Err(NotImplemented) else Ok(Gcd(n, m) == 1)
  }

  // ------------------------------------------------------------------ powers

  /** One squaring pass: x^k == x^(k % 2) * (x*x)^(k / 2). */
  lemma SquareStep(x: int, k: nat)
    ensures Pow(x, k) == (if k % 2 == 1 then x else 1) * Pow(x * x, k / 2)
  {
    PowSquare(x, k / 2);
    PowAdd(x, 2 * (k / 2), k % 2);
    assert k == 2 * (k / 2) + k % 2;
  }

  /** One squaring pass modulo M, with the running result and base reduced. */
  lemma PowerStep(M: int, res: int, base: int, k: nat, res': int, base': int)
    requires M > 0 && Cong(M, base', base * base)
    requires Cong(M, res', if k % 2 == 1 then res * base else res)
    ensures Cong(M, res' * Pow(base', k / 2), res * Pow(base, k))
  {
    PowCong(M, base', base * base, k / 2);
    CongMul(M, res', Pow(base', k / 2), if k % 2 == 1 then res * base else res, Pow(base * base, k / 2));
    SquareStep(base, k);
    assert (if k % 2 == 1 then res * base else res) * Pow(base * base, k / 2) == res * Pow(base, k);
  }

  /**
   * What each pass of Power keeps: the running result times the base raised to the remaining
   * exponent k is x^n (congruent to it, under a nonzero mod), and the running result is
   * already reduced unless it is still the initial 1.
   */
  ghost predicate PowerInv(x: int, n: nat, mod: Option<int>, result: int, base: int, k: nat)
  {
    && k <= n
    && (mod.None? ==> result * Pow(base, k) == Pow(x, n))
    && (mod.Some? && mod.value != 0 ==>
          && Cong(Abs(mod.value), result * Pow(base, k), Pow(x, n))
          && ((result == 1 && (k > 0 || n == 0)) || Abs(result) < Abs(mod.value)))
    && (n == 0 ==> result == 1)
    && (x >= 0 ==> result >= 0 && base >= 0)
  }

  /** The congruence part of PowerInv survives a pass under a nonzero modulus. */
  lemma PowerPassModular(x: int, n: nat, m: int, result: int, base: int, k: nat, result': int, base': int)
    requires m != 0 && k > 0 && Cong(Abs(m), result * Pow(base, k), Pow(x, n))
    requires var p := if k % 2 == 1 then result * base else result;
      result' == (if k % 2 == 1 then TruncMod(p, m) else p)
    requires base' == TruncMod(base * base, m)
    ensures Cong(Abs(m), result' * Pow(base', k / 2), Pow(x, n))
  {
    var M := Abs(m);
    TruncModCong(base * base, m);
    if k % 2 == 1 {
      TruncModCong(result * base, m);
    } else {
      CongRefl(M, result);
    }
    PowerStep(M, result, base, k, result', base');
    CongTrans(M, result' * Pow(base', k / 2), result * Pow(base, k), Pow(x, n));
  }

  lemma PowerPass(x: int, n: nat, mod: Option<int>, result: int, base: int, k: nat,
                  result': int, base': int)
    requires PowerInv(x, n, mod, result, base, k) && k > 0 && mod != Some(0)
    requires var p := if k % 2 == 1 then result * base else result;
      result' == (if mod.Some? && k % 2 == 1 then TruncMod(p, mod.value) else p)
    requires base' == (if mod.Some? then TruncMod(base * base, mod.value) else base * base)
    ensures PowerInv(x, n, mod, result', base', k / 2)
  {
    if mod.None? {
      assert result' * Pow(base', k / 2) == Pow(x, n) by {
        SquareStep(base, k);
      }
    } else {
      assert Cong(Abs(mod.value), result' * Pow(base', k / 2), Pow(x, n)) by {
        PowerPassModular(x, n, mod.value, result, base, k, result', base');
      }
      assert (result' == 1 && (k / 2 > 0 || n == 0)) || Abs(result') < Abs(mod.value) by {
        PowerPassBound(n, mod.value, result, base, k, result');
      }
    }
    if x >= 0 {
      PowerPassSigns(mod, result, base, k, result', base');
    }
  }

  /** A pass keeps a non-negative running result and base non-negative. */
  lemma PowerPassSigns(mod: Option<int>, result: int, base: int, k: nat, result': int, base': int)
    requires result >= 0 && base >= 0 && mod != Some(0)
    requires var p := if k % 2 == 1 then result * base else result;
      result' == (if mod.Some? && k % 2 == 1 then TruncMod(p, mod.value) else p)
    requires base' == (if mod.Some? then TruncMod(base * base, mod.value) else base * base)
    ensures result' >= 0 && base' >= 0
  {
    assert base * base >= 0 && result * base >= 0;
  }

  /** The running result stays 1 or below the modulus in size after a pass. */
  lemma PowerPassBound(n: nat, m: int, result: int, base: int, k: nat, result': int)
    requires m != 0 && k > 0 && ((result == 1 && (k > 0 || n == 0)) || Abs(result) < Abs(m))
    requires result' == (if k % 2 == 1 then TruncMod(result * base, m) else result)
    ensures (result' == 1 && (k / 2 > 0 || n == 0)) || Abs(result') < Abs(m)
  {
  }

  /**
   * Utilities.Power(x, n, mod): square-and-multiply. Without mod it is x^n; with a nonzero
   * mod it is congruent to x^n and smaller than mod in size, and for mod > 0 and x >= 0 it
   * is exactly x^n % mod.
   */
  method Power(x: int, n: int, mod: Option<int>) returns (r: Result<int>)
    ensures n < 0 ==> r == Err(ArgumentError)
    ensures n == 0 ==> r == Ok(1)
    ensures n >= 0 && mod.None? ==> r == Ok(Pow(x, n))
    ensures n > 0 && mod == Some(0) ==> r == Err(DivideByZero)
    ensures n > 0 && mod.Some? && mod.value != 0 ==>
      r.Ok? && Cong(Abs(mod.value), r.value, Pow(x, n)) && Abs(r.value) < Abs(mod.value)
    ensures n > 0 && mod.Some? && mod.value > 0 && x >= 0 ==> r == Ok(Pow(x, n) % mod.value)
  {
    if n < 0 {
      return Err(ArgumentError);
    }
    var result, base, k := 1, x, n;
    while k > 0
      invariant 0 <= k
      invariant PowerInv(x, n, mod, result, base, k)
      invariant mod == Some(0) ==> k == n
      decreases k
    {
      ghost var result0, base0, k0 := result, base, k;
      if k % 2 == 1 {
        result := result * base;
        if mod.Some? {
          if mod.value == 0 {
            return Err(DivideByZero);
          }
          result := TruncMod(result, mod.value);
        }
      }
      base := base * base;
      if mod.Some? {
        if mod.value == 0 {
          return Err(DivideByZero);
        }
        base := TruncMod(base, mod.value);
      }
      k := k / 2;
      PowerPass(x, n, mod, result0, base0, k0, result, base);
    }
    assert result * Pow(base, k) == result;
    if mod.Some? && mod.value > 0 && x >= 0 && n > 0 {
      var m := mod.value;
      PowNonNegative(x, n);
      CongSameRem(m, result, Pow(x, n));
      SmallMod(result, m);
    }
    return Ok(result);
  }

  // ------------------------------------------------------------------ totient

  /** The number of k in [1, j] with gcd(k, n) == 1. */
  function CoprimeCount(n: nat, j: nat): nat
  {
    if j == 0 then 0 else CoprimeCount(n, j - 1) + (if Gcd(j, n) == 1 then 1 else 0)
  }

  /** Utilities.Totient(n): counts the k in [1, n] with GCD(k, n) == 1. */
  method Totient(n: int) returns (amount: int)
    ensures n >= 0 ==> amount == CoprimeCount(n, n)
    ensures n < 0 ==> amount == 0
  {
    amount := 0;
    var k := 1;
    while k < n + 1
      invariant 1 <= k && (n >= 0 ==> k <= n + 1) && (n < 0 ==> k == 1)
      invariant n >= 0 ==> amount == CoprimeCount(n, k - 1)
      invariant n < 0 ==> amount == 0
    {
      var g := GCD(k, n);
      if g == Ok(1) {
        amount := amount + 1;
      }
      k := k + 1;
    }
  }

  /** The k in [1, j] coprime to n. */
  function Units(n: nat, j: nat): set<nat>
  {
    set k: nat | 1 <= k <= j && Gcd(k, n) == 1
  }

  /** CoprimeCount counts exactly the members of Units. */
  lemma {:induction false} CoprimeCountIsCard(n: nat, j: nat)
    ensures CoprimeCount(n, j) == |Units(n, j)|
  {
    if j > 0 {
      CoprimeCountIsCard(n, j - 1);
      assert j !in Units(n, j - 1);
      if Gcd(j, n) == 1 {
        assert Units(n, j) == Units(n, j - 1) + {j};
      } else {
        assert Units(n, j) == Units(n, j - 1);
      }
    }
  }

  predicate IsPrime(p: int)
  {
    p >= 2 && forall d :: 2 <= d < p ==> p % d != 0
  }

  /** A positive divisor of a positive number is no larger than it. */
  lemma DivisorBound(d: int, k: int)
    requires d > 0 && k > 0 && Divides(d, k)
    ensures d <= k
  {
    ModZero(k, d);
    MulSign(d, k / d);
  }

  lemma {:induction false} CoprimeCountBelowPrime(p: int, j: nat)
    requires IsPrime(p) && j < p
    ensures CoprimeCount(p, j) == j
  {
    if j > 0 {
      CoprimeCountBelowPrime(p, j - 1);
      var g := Gcd(j, p);
      GcdDivides(j, p);
      assert g != 0;
      DivisorBound(g, j);
      assert p % g == 0;
      assert g == 1;
    }
  }

  /** Totient(p) == p - 1 for a prime p. */
  lemma TotientOfPrime(p: int)
    requires IsPrime(p)
    ensures CoprimeCount(p, p) == p - 1
  {
    CoprimeCountBelowPrime(p, p - 1);
    assert Gcd(p, p) == Gcd(p, 0) == p;
  }

  /** Totient(9) == 6. */
  lemma TotientNine()
    ensures CoprimeCount(9, 9) == 6
  {
    assert Gcd(1, 9) == 1 by { GcdOneLeft(9); }
    assert Gcd(2, 9) == 1;
    assert Gcd(3, 9) == 3;
    assert Gcd(4, 9) == 1;
    assert Gcd(5, 9) == 1;
    assert Gcd(6, 9) == 3;
    assert Gcd(7, 9) == 1;
    assert Gcd(8, 9) == 1;
    assert Gcd(9, 9) == 9;
  }

  // ------------------------------------------------------------------ multiplicative order

  /** BigInteger.ModPow(a, k, n): a^k with the truncated remainder by n. */
  function ModPow(a: int, k: nat, n: int): (r: int)
    requires n != 0
    ensures a >= 0 && n > 0 ==> r == Pow(a, k) % n
  {
    if a >= 0 then
      PowNonNegative(a, k);
      TruncMod(Pow(a, k), n)
    else TruncMod(Pow(a, k), n)
  }

  /** k is the multiplicative order of a modulo n: the least k >= 1 with a^k mod n == 1. */
  predicate IsOrder(a: int, n: int, k: int)
    requires n != 0
  {
    k >= 1 && ModPow(a, k, n) == 1 && forall j :: 1 <= j < k ==> ModPow(a, j, n) != 1
  }

  /** n + 1 values drawn from [0, n) repeat. */
  lemma {:induction false} Pigeonhole(s: seq<int>, n: nat)
    requires n >= 1 && |s| > n
    requires forall i :: 0 <= i < |s| ==> 0 <= s[i] < n
    ensures exists i, j :: 0 <= i < j < |s| && s[i] == s[j]
    decreases n
  {
    var last := |s| - 1;
    var v := s[last];
    if exists i :: 0 <= i < last && s[i] == v {
      var i :| 0 <= i < last && s[i] == v;
      assert s[i] == s[last];
    } else {
      assert s[0] != v;
      var t := seq(last, i requires 0 <= i < last => if s[i] > v then s[i] - 1 else s[i]);
      Pigeonhole(t, n - 1);
      var i, j :| 0 <= i < j < |t| && t[i] == t[j];
      assert s[i] == s[j];
    }
  }

  /** If Y inverts P and P == P * E, then E == 1 (all modulo n). */
  lemma CancelPower(n: int, Y: int, P: int, E: int)
    requires n > 0 && Cong(n, Y * P, 1) && Cong(n, P, P * E)
    ensures Cong(n, E, 1)
  {
    CongRefl(n, Y);
    CongMul(n, Y, P, Y, P * E);
    assert Y * (P * E) == (Y * P) * E;
    CongRefl(n, E);
    CongMul(n, Y * P, E, 1, E);
    CongSym(n, Y * P, 1);
    CongTrans(n, 1, Y * P, (Y * P) * E);
    CongTrans(n, 1, (Y * P) * E, E);
    CongSym(n, 1, E);
  }

  /** A power of a unit modulo n is invertible modulo n. */
  lemma PowerInvertible(a: int, n: int, i: nat)
    requires n >= 2 && a >= 0 && Gcd(n, a) == 1
    ensures exists Y :: Cong(n, Y * Pow(a, i), 1)
  {
    GcdSymmetric(n, a);
    ModInverseCorrect(a, n);
    var y := ModInverse(a, n).value;
    assert Cong(n, a * y, 1);
    PowProduct(y, a, i);
    assert y * a == a * y;
    PowCong(n, y * a, 1, i);
    PowOne(i);
    assert Cong(n, Pow(y, i) * Pow(a, i), 1);
  }

  /** Two equal residues a^i and a^(i+e) of a unit give a^e == 1 modulo n. */
  lemma RepeatGivesOne(a: int, n: int, i: nat, e: nat)
    requires n >= 2 && a >= 0 && Gcd(n, a) == 1
    requires Pow(a, i) % n == Pow(a, i + e) % n
    ensures Pow(a, e) % n == 1
  {
    var P, E := Pow(a, i), Pow(a, e);
    PowAdd(a, i, e);
    CongSameRem(n, P, P * E);
    PowerInvertible(a, n, i);
    var Y :| Cong(n, Y * P, 1);
    CancelPower(n, Y, P, E);
    CongSameRem(n, E, 1);
    SmallMod(1, n);
  }

  /** A unit modulo n >= 2 has a power in [1, n] that is 1 modulo n. */
  lemma OrderExists(a: int, n: int)
    requires n >= 2 && a >= 0 && Gcd(n, a) == 1
    ensures exists e :: 1 <= e <= n && Pow(a, e) % n == 1
  {
    var s := seq(n + 1, i requires 0 <= i <= n => Pow(a, i + 1) % n);
    Pigeonhole(s, n);
    var i, j :| 0 <= i < j < |s| && s[i] == s[j];
    RepeatGivesOne(a, n, i + 1, j - i);
    assert 1 <= j - i <= n;
  }

  /**
   * Utilities.Ord(n, a): the multiplicative order of a modulo n, found by trying k = 1, 2, ...
   * The search ends by k == n, since the order of a unit modulo n is at most n.
   */
  method Ord(n: int, a: int) returns (r: Result<int>)
    ensures n < 0 || a < 0 ==> r == Err(NotImplemented)
    ensures n >= 0 && a >= 0 && (Gcd(n, a) != 1 || n <= 1) ==> r == Err(ArgumentError)
    ensures n >= 2 && a >= 0 && Gcd(n, a) == 1 ==> r.Ok? && IsOrder(a, n, r.value) && r.value <= n
  {
    var c := IsCoprime(n, a);
    if c.Err? {
      return Err(c.error);
    }
    if !c.value {
      return Err(ArgumentError);
    }
    if n <= 1 {
      return Err(ArgumentError);
    }
    OrderExists(a, n);
    ghost var e :| 1 <= e <= n && Pow(a, e) % n == 1;
    var k := 1;
    while ModPow(a, k, n) != 1
      invariant 1 <= k <= e
      invariant forall j :: 1 <= j < k ==> ModPow(a, j, n) != 1
      decreases e - k
    {
      k := k + 1;
    }
    return Ok(k);
  }

  /** The order of 2 modulo 7 is 3. */
  lemma OrdExample()
    ensures forall k :: IsOrder(2, 7, k) <==> k == 3
  {
    assert ModPow(2, 1, 7) == 2;
    assert ModPow(2, 2, 7) == 4;
    assert ModPow(2, 3, 7) == 1;
  }

  // ------------------------------------------------------------------ the AKS parameter r

  /**
   * What the default search accepts as r: the gcd test is made on r - 1 before r is
   * incremented, and n^k mod r is neither 0 nor 1 for every k in [1, maxK + 1], maxK being
   * the integer part of log2(n)^2.
   */
  predicate OldAccepted(n: int, maxK: int, r: int)
  {
    && n >= 0 && r >= 2 && Gcd(r - 1, n) == 1
    && forall k :: 1 <= k <= maxK + 1 ==> Pow(n, k) % r != 0 && Pow(n, k) % r != 1
  }

  /** What the second search accepts as r: r is a unit modulo n of order above maxK. */
  predicate NewAccepted(n: int, maxK: int, r: int)
  {
    && n >= 2 && r >= 2 && Gcd(n, r) == 1
    && forall k :: 1 <= k <= maxK ==> ModPow(r, k, n) != 1
  }

  /**
   * Utilities.FindR(n, oldImplementation): the least accepted r, trying r = 2, 3, ... in
   * turn; fuel bounds the number of candidates tried.
   */
  method FindR(n: int, maxK: int, oldImplementation: bool, fuel: nat) returns (r: Result<int>)
    ensures n < 0 && fuel > 0 ==> r == Err(NotImplemented)
    ensures oldImplementation && r.Ok? ==>
      OldAccepted(n, maxK, r.value) &&
      forall r' :: 2 <= r' < r.value ==> !OldAccepted(n, maxK, r')
    ensures oldImplementation && r.Err? && r.error == OutOfFuel ==>
      forall r' :: 2 <= r' <= fuel + 1 ==> !OldAccepted(n, maxK, r')
    ensures !oldImplementation && r.Ok? ==>
      NewAccepted(n, maxK, r.value) && forall r' :: 2 <= r' < r.value ==> !NewAccepted(n, maxK, r')
    ensures !oldImplementation && r.Err? && r.error == OutOfFuel ==>
      forall r' :: 2 <= r' <= fuel + 1 ==> !NewAccepted(n, maxK, r')
    ensures !oldImplementation && n == 1 && fuel > 0 ==> r == Err(ArgumentError)
    ensures !oldImplementation && n == 0 ==> r == Err(OutOfFuel)
    ensures r.Ok? || r.error in {NotImplemented, ArgumentError, OutOfFuel}
    ensures oldImplementation && n >= 0 && r.Err? ==> r.error == OutOfFuel
  {
    if oldImplementation {
      var nextR := true;
      var r := 1;
      var tries := 0;
      while nextR
        invariant 0 <= tries <= fuel && r == tries + 1
        invariant n < 0 ==> tries == 0
        invariant nextR ==> forall r' :: 2 <= r' <= r ==> !OldAccepted(n, maxK, r')
        invariant !nextR ==>
          OldAccepted(n, maxK, r) && forall r' :: 2 <= r' < r ==> !OldAccepted(n, maxK, r')
        decreases fuel - tries, if nextR then 1 else 0
      {
        if tries == fuel {
          return Err(OutOfFuel);
        }
        tries := tries + 1;
        var g := GCD(r, n);
        if g.Err? {
          return Err(g.error);
        }
        if g.value != 1 {
          r := r + 1;
          continue;
        }
        r := r + 1;
        nextR := false;
        var k := 0;
        while k <= maxK && !nextR
          invariant 0 <= k && (k <= maxK + 1 || k == 0)
          invariant !nextR ==> forall j :: 1 <= j <= k ==> Pow(n, j) % r != 0 && Pow(n, j) % r != 1
          invariant nextR ==> 1 <= k <= maxK + 1 && (Pow(n, k) % r == 0 || Pow(n, k) % r == 1)
          decreases maxK + 1 - k
        {
          k := k + 1;
          var powerResult := Power(n, k, Some(r));
          if powerResult == Ok(0) || powerResult == Ok(1) {
            nextR := true;
          }
        }
      }
      return Ok(r);
    } else {
      var r := 2;
      var tries := 0;
      while true
        invariant 0 <= tries <= fuel && r == tries + 2
        invariant n < 0 || n == 1 ==> tries == 0
        invariant forall r' :: 2 <= r' < r ==> !NewAccepted(n, maxK, r')
        decreases fuel - tries
      {
        if tries == fuel {
          return Err(OutOfFuel);
        }
        tries := tries + 1;
        var c := IsCoprime(n, r);
        if c.Err? {
          return Err(c.error);
        }
        if !c.value {
          r := r + 1;
          continue;
        }
        GcdZeroLeft(r);
        var o := Ord(n, r);
        if o.Err? {
          return Err(o.error);
        }
        if o.value > maxK {
          return Ok(r);
        }
        assert ModPow(r, o.value, n) == 1;
        r := r + 1;
      }
    }
  }

  // ------------------------------------------------------------------ logarithm, roots, powers

  lemma Log2Step(n: int, length: nat, temp: int)
    requires temp > 0
    requires Pow(2, length) * temp <= n < Pow(2, length) * (temp + 1)
    ensures Pow(2, length + 1) * (temp / 2) <= n < Pow(2, length + 1) * (temp / 2 + 1)
    ensures Pow(2, length) <= n
  {
    var P := Pow(2, length);
    PowPositive(2, length);
    var h, b := temp / 2, temp % 2;
    assert temp == 2 * h + b && 0 <= b <= 1;
    assert Pow(2, length + 1) == 2 * P;
    assert P * temp == 2 * P * h + P * b;
    assert P * (temp + 1) == 2 * P * h + P * (b + 1);
    assert P * (b + 1) <= P * 2;
    assert P * temp >= P;
  }

  /** floor(log2(n)) for a positive n: the number of halvings that leave a number above 1. */
  function Log2(n: int): nat
    decreases n
  {
    if n < 2 then 0 else 1 + Log2(n / 2)
  }

  /** Log2(n) is the one exponent L with 2^L <= n < 2^(L+1). */
  lemma {:induction false} Log2Unique(n: int, L: nat)
    requires Pow(2, L) <= n < Pow(2, L + 1)
    ensures L == Log2(n)
    decreases L
  {
    PowPositive(2, L);
    if L == 0 {
      assert n == 1;
    } else {
      assert n >= 2 by { PowTwoAbove(L); }
      var l: nat := L - 1;
      assert Pow(2, L) == 2 * Pow(2, l) && Pow(2, L + 1) == 2 * Pow(2, l + 1);
      Log2Unique(n / 2, l);
    }
  }

  /** Utilities.GetLog2(n): the bit length of n minus one, that is floor(log2(n)). */
  method GetLog2(n: int) returns (r: Result<int>)
    ensures n <= 0 ==> r == Err(OutOfRange)
    ensures n > 0 ==> r.Ok? && r.value >= 0 && Pow(2, r.value) <= n < Pow(2, r.value + 1)
    ensures n > 0 ==> r == Ok(Log2(n))
  {
    if n <= 0 {
      return Err(OutOfRange);
    }
    var length := 0;
    var temp := n;
    while temp > 0
      invariant 0 <= temp && 0 <= length
      invariant Pow(2, length) * temp <= n < Pow(2, length) * (temp + 1)
      invariant length >= 1 ==> Pow(2, length - 1) <= n
      decreases temp
    {
      Log2Step(n, length, temp);
      temp := temp / 2;
      length := length + 1;
    }
    Log2Unique(n, length - 1);
    return Ok(length - 1);
  }

  /** A root r with r^e <= n < (r+1)^e is the only candidate for an exact e-th root of n. */
  lemma FloorRootUnique(c: int, r: int, e: nat, n: int)
    requires c >= 0 && r >= 0 && e >= 1
    requires Pow(r, e) <= n < Pow(r + 1, e) && Pow(c, e) == n
    ensures c == r
  {
    PowOrder(c, r, e);
    PowOrder(r + 1, c, e);
  }

  /**
   * Utilities.FindIntegerRoot(n, e): binary search for the largest r >= 1 with r^e <= n, after
   * doubling an upper bound until it exceeds the root. On a miss it returns that floor root.
   */
  method FindIntegerRoot(n: int, e: int) returns (r: Result<int>)
    ensures n <= 0 ==> r == Err(OutOfRange)
    ensures n > 0 && e == 0 ==> r == Err(DivideByZero)
    ensures n > 0 && e < 0 ==> r == Err(OutOfRange)
    ensures n > 0 && e > 0 ==> r.Ok? && 1 <= r.value && Pow(r.value, e) <= n < Pow(r.value + 1, e)
  {
    var log := GetLog2(n);
    if log.Err? {
      return Err(log.error);
    }
    if e == 0 {
      return Err(DivideByZero);
    }
    var bound := TruncDiv(log.value, e) + 2;
    if bound < 0 {
      return Err(OutOfRange);
    }
    if e < 0 {
      return Err(OutOfRange);
    }
    var low, high := 1, Pow(2, bound);
    PowPositive(2, bound);
    while Pow(high, e) <= n
      invariant high >= 1
      decreases n - high
    {
      PowAtLeastBase(high, e);
      high := high * 2;
    }
    forall x | x > high
      ensures Pow(x, e) > n
    {
      PowOrder(high, x, e);
    }
    var result := 0;
    while low <= high
      invariant 1 <= low && 0 <= high && result == low - 1
      invariant forall x :: 1 <= x < low ==> Pow(x, e) < n
      invariant forall x :: x > high ==> Pow(x, e) > n
      decreases high - low + 1
    {
      var mid := low + (high - low) / 2;
      var midPow := Pow(mid, e);
      if midPow == n {
        PowOrder(mid, mid + 1, e);
        return Ok(mid);
      } else if midPow < n {
        forall x | 1 <= x <= mid
          ensures Pow(x, e) < n
        {
          PowOrder(x, mid, e);
        }
        result := mid;
        low := mid + 1;
      } else {
        forall x | x >= mid
          ensures Pow(x, e) > n
        {
          PowOrder(mid, x, e);
        }
        high := mid - 1;
      }
    }
    PowOne(e);
    return Ok(result);
  }

  /** BigInteger.IsPowerOfTwo, by halving. */
  predicate IsPowerOfTwo(n: int)
    decreases if n > 0 then n else 0
  {
    n == 1 || (n > 1 && n % 2 == 0 && IsPowerOfTwo(n / 2))
  }

  lemma {:induction false} PowerOfTwoHasExponent(n: int)
    requires IsPowerOfTwo(n)
    ensures exists k: nat :: Pow(2, k) == n
    decreases if n > 0 then n else 0
  {
    if n == 1 {
      assert Pow(2, 0) == n;
    } else {
      PowerOfTwoHasExponent(n / 2);
      var k: nat :| Pow(2, k) == n / 2;
      assert Pow(2, k + 1) == n;
    }
  }

  lemma {:induction false} ExponentIsPowerOfTwo(k: nat)
    ensures IsPowerOfTwo(Pow(2, k))
  {
    if k > 0 {
      ExponentIsPowerOfTwo(k - 1);
      PowPositive(2, k - 1);
      assert Pow(2, k) / 2 == Pow(2, k - 1);
    }
  }

  /** IsPowerOfTwo holds exactly of the powers 2^k. */
  lemma PowerOfTwoCharacterised(n: int)
    ensures IsPowerOfTwo(n) <==> exists k: nat :: Pow(2, k) == n
  {
    if IsPowerOfTwo(n) {
      PowerOfTwoHasExponent(n);
    }
    if exists k: nat :: Pow(2, k) == n {
      var k: nat :| Pow(2, k) == n;
      ExponentIsPowerOfTwo(k);
    }
  }

  /** n is a perfect power: a^b with a >= 2 and b >= 2. */
  ghost predicate PerfectPower(n: int)
  {
    exists a: int, b: nat :: a >= 2 && b >= 2 && Pow(a, b) == n
  }

  /** A power of a number >= 2 with an exponent beyond floor(log2(n)) exceeds n. */
  lemma PowerBeyondLog(c: int, d: nat, L: nat, n: int)
    requires c >= 2 && d >= L + 1 && n < Pow(2, L + 1)
    ensures Pow(c, d) > n
  {
    PowAdd(2, L + 1, d - (L + 1));
    PowPositive(2, d - (L + 1));
    PowPositive(2, L + 1);
    assert Pow(2, d) >= Pow(2, L + 1);
    PowMonotone(2, c, d);
  }

  /**
   * Utilities.IsPerfectPower(n): false for n <= 1, true for every power of two, and otherwise
   * whether an exact root exists for some exponent b in [2, floor(log2(n))]. So it decides
   * "n is a perfect power", except that it also accepts 2.
   */
  method IsPerfectPower(n: int) returns (r: bool)
    ensures r <==> n == 2 || PerfectPower(n)
  {
    if n <= 1 {
      forall a: int, b: nat | a >= 2 && b >= 2
        ensures Pow(a, b) != n
      {
        PowAtLeastBase(a, b);
      }
      return false;
    }
    if IsPowerOfTwo(n) {
      PowerOfTwoCharacterised(n);
      var k: nat :| Pow(2, k) == n;
      if k >= 2 {
        assert Pow(2, k) == n;
      }
      return true;
    }
    PowerOfTwoCharacterised(n);
    var maxExponent := GetLog2(n);
    var L := maxExponent.value;
    var b := 2;
    while b <= L
      invariant 2 <= b && (b <= L + 1 || b == 2)
      invariant forall c: int, d: nat :: 2 <= d < b && c >= 2 ==> Pow(c, d) != n
    {
      var root := FindIntegerRoot(n, b);
      if root.value != 0 && Pow(root.value, b) == n {
        PowOne(b);
        assert root.value >= 2;
        return true;
      }
      forall c: int | c >= 2
        ensures Pow(c, b) != n
      {
        if Pow(c, b) == n {
          FloorRootUnique(c, root.value, b, n);
        }
      }
      b := b + 1;
    }
    forall c: int, d: nat | c >= 2 && d >= 2
      ensures Pow(c, d) != n
    {
      if d > L {
        PowerBeyondLog(c, d, L, n);
      }
    }
    return false;
  }

  /** 2 is prime, so it is no a^b with a, b >= 2: Pow(a, b) is at least a * a >= 4. */
  lemma TwoIsNoPower()
    ensures IsPrime(2) && !PerfectPower(2)
  {
    forall a: int, b: nat | a >= 2 && b >= 2
      ensures Pow(a, b) != 2
    {
      PowAtLeastBase(a, b - 1);
      assert Pow(a, b) == a * Pow(a, b - 1);
      assert a * Pow(a, b - 1) >= 2 * Pow(a, b - 1) >= 4;
    }
  }

  /**
   * The perfect-power test as its doc comment describes it (a > 1 and b > 1): the power-of-two
   * shortcut without 2 itself.
   */
  method IsPerfectPowerCorrected(n: int) returns (r: bool)
    ensures r <==> PerfectPower(n)
  {
    var asWritten := IsPerfectPower(n);
    TwoIsNoPower();
    r := asWritten && n != 2;
  }
}
