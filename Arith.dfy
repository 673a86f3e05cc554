/**
 * Integer facts the library relies on: the truncating division of C#'s BigInteger,
 * congruences, powers and the greatest common divisor.
 */
module Arith {

  function Abs(x: int): nat { if x < 0 then -x else x }

  /** C#'s `a / b`: the quotient rounded toward zero. */
  function TruncDiv(a: int, b: int): int
    requires b != 0
  {
    if (a >= 0) == (b > 0) then Abs(a) / Abs(b) else -(Abs(a) / Abs(b))
  }

  /** C#'s `a % b`: the remainder carries the sign of the dividend. */
  function TruncMod(a: int, b: int): (r: int)
    requires b != 0
    ensures a == b * TruncDiv(a, b) + r
    ensures Abs(r) < Abs(b)
    ensures a >= 0 ==> r >= 0
    ensures a <= 0 ==> r <= 0
  {
    var n, d := Abs(a), Abs(b);
    var q, s := n / d, n % d;
    assert n == d * q + s;
    TruncModSigns(a, b, q, s);
    if a >= 0 then s else -s
  }

  /** The signs in b * TruncDiv(a, b), for |a| = |b| * q + s. */
  lemma TruncModSigns(a: int, b: int, q: int, s: int)
    requires b != 0 && Abs(a) == Abs(b) * q + s && q == Abs(a) / Abs(b)
    ensures a == b * TruncDiv(a, b) + (if a >= 0 then s else -s)
  {
    var t := TruncDiv(a, b);
    assert t == q || t == -q;
    if (a >= 0) == (b > 0) {
      assert t == q;
      if a >= 0 {
        assert b * q == Abs(b) * q;
      } else {
        assert b * q == -(Abs(b) * q);
      }
    } else {
      assert t == -q;
      if a >= 0 {
        assert b * -q == Abs(b) * q;
      } else {
        assert b * -q == -(Abs(b) * q);
      }
    }
  }

  /** On a non-negative dividend and a positive divisor the two conventions agree. */
  lemma TruncAgrees(a: int, b: int)
    requires a >= 0 && b > 0
    ensures TruncDiv(a, b) == a / b && TruncMod(a, b) == a % b
  {
  }

  /** x ≡ y (mod m). */
  predicate Cong(m: int, x: int, y: int)
    requires m > 0
  {
    (x - y) % m == 0
  }

  /** k times m, named so that a quantifier over k has a term to match on. */
  function Multiple(k: int, m: int): int { k * m }

  /** x ≡ y (mod m) exactly when x - y is a multiple of m. */
  lemma CongMultipleOf(m: int, x: int, y: int)
    requires m > 0
    ensures Cong(m, x, y) <==> exists k :: x - y == Multiple(k, m)
  {
    if Cong(m, x, y) {
      ModZero(x - y, m);
      assert x - y == Multiple((x - y) / m, m);
    }
    if exists k :: x - y == Multiple(k, m) {
      var k :| x - y == Multiple(k, m);
      MultipleMod(k, m);
    }
  }

  /** The sign of a multiple of a positive number. */
  lemma MulSign(m: int, j: int)
    requires m > 0
    ensures j >= 1 ==> m * j >= m
    ensures j <= -1 ==> m * j <= -m
    ensures j == 0 ==> m * j == 0
  {
    if j >= 1 {
      assert m * j == m + m * (j - 1);
    } else if j <= -1 {
      assert m * j == -m + m * (j + 1);
    }
  }

  lemma MultipleMod(k: int, m: int)
    requires m > 0
    ensures (k * m) % m == 0
  {
    var q, r := (k * m) / m, (k * m) % m;
    assert k * m == m * q + r;
    assert m * (k - q) == m * k - m * q;
    MulSign(m, k - q);
  }

  /** A number in [0, m) is its own remainder. */
  lemma SmallMod(x: int, m: int)
    requires 0 <= x < m
    ensures x % m == x && x / m == 0
  {
    var q, r := x / m, x % m;
    assert x == m * q + r;
    MulSign(m, q);
  }

  /** A number divisible by m is a multiple of m. */
  lemma ModZero(x: int, m: int)
    requires m > 0 && x % m == 0
    ensures x == (x / m) * m
  {
  }

  lemma CongRefl(m: int, x: int)
    requires m > 0
    ensures Cong(m, x, x)
  {
  }

  /** A difference that is a multiple of m is a congruence. */
  lemma MultipleCong(m: int, x: int, y: int, k: int)
    requires m > 0 && x - y == k * m
    ensures Cong(m, x, y)
  {
    MultipleMod(k, m);
  }

  /** Products with m distribute over sums and negation. */
  lemma Distrib(a: int, b: int, m: int)
    ensures a * m + b * m == (a + b) * m
    ensures -(a * m) == (-a) * m
  {
  }

  lemma CongSym(m: int, x: int, y: int)
    requires m > 0 && Cong(m, x, y)
    ensures Cong(m, y, x)
  {
    var k := (x - y) / m;
    ModZero(x - y, m);
    Distrib(k, 0, m);
    MultipleCong(m, y, x, -k);
  }

  lemma CongTrans(m: int, x: int, y: int, z: int)
    requires m > 0 && Cong(m, x, y) && Cong(m, y, z)
    ensures Cong(m, x, z)
  {
    var a, b := (x - y) / m, (y - z) / m;
    ModZero(x - y, m);
    ModZero(y - z, m);
    Distrib(a, b, m);
    MultipleCong(m, x, z, a + b);
  }

  lemma CongAdd(m: int, x: int, y: int, x': int, y': int)
    requires m > 0 && Cong(m, x, x') && Cong(m, y, y')
    ensures Cong(m, x + y, x' + y')
  {
    var a, b := (x - x') / m, (y - y') / m;
    ModZero(x - x', m);
    ModZero(y - y', m);
    Distrib(a, b, m);
    MultipleCong(m, x + y, x' + y', a + b);
  }

  lemma CongNeg(m: int, x: int, x': int)
    requires m > 0 && Cong(m, x, x')
    ensures Cong(m, -x, -x')
  {
    var a := (x - x') / m;
    ModZero(x - x', m);
    Distrib(a, 0, m);
    MultipleCong(m, -x, -x', -a);
  }

  lemma CongMul(m: int, x: int, y: int, x': int, y': int)
    requires m > 0 && Cong(m, x, x') && Cong(m, y, y')
    ensures Cong(m, x * y, x' * y')
  {
    ModZero(x - x', m);
    ModZero(y - y', m);
    var a, b := (x - x') / m, (y - y') / m;
    assert x * y - x' * y' == (x - x') * y + x' * (y - y');
    assert x * y - x' * y' == (a * y + x' * b) * m;
    MultipleCong(m, x * y, x' * y', a * y + x' * b);
  }

  /** Adding a multiple of m does not change the class. */
  lemma CongMultiple(m: int, x: int, k: int)
    requires m > 0
    ensures Cong(m, x + k * m, x)
  {
    MultipleMod(k, m);
  }

  /** The truncated remainder is congruent to the dividend. */
  lemma TruncModCong(a: int, m: int)
    requires m != 0
    ensures Cong(Abs(m), TruncMod(a, m), a)
  {
    var q, r := TruncDiv(a, m), TruncMod(a, m);
    var k := if m > 0 then -q else q;
    assert r - a == k * Abs(m);
    MultipleMod(k, Abs(m));
  }

  /** Congruent numbers leave the same Euclidean remainder. */
  lemma CongSameRem(m: int, x: int, y: int)
    requires m > 0
    ensures Cong(m, x, y) <==> x % m == y % m
  {
    var qx, qy := x / m, y / m;
    assert x == qx * m + x % m && y == qy * m + y % m;
    assert x - y == (qx - qy) * m + (x % m - y % m);
    if x % m == y % m {
      MultipleMod(qx - qy, m);
    }
    if Cong(m, x, y) {
      CongMultiple(m, x % m, qx);
      CongMultiple(m, y % m, qy);
      CongSym(m, x % m + qx * m, x % m);
      CongTrans(m, x % m, x, y);
      CongTrans(m, x % m, y, y % m + qy * m);
      CongTrans(m, x % m, y % m + qy * m, y % m);
      CongCanonical(m, x % m, y % m);
    }
  }

  /** Two numbers that are congruent and lie in [0, m) are equal. */
  lemma CongCanonical(m: int, x: int, y: int)
    requires m > 0 && Cong(m, x, y) && 0 <= x < m && 0 <= y < m
    ensures x == y
  {
    ModZero(x - y, m);
    MulSign(m, (x - y) / m);
  }

  /** A number congruent to 0 whose size is below m is 0. */
  lemma CongZeroSmall(m: int, x: int)
    requires m > 0 && Cong(m, x, 0) && Abs(x) < m
    ensures x == 0
  {
    ModZero(x, m);
    MulSign(m, x / m);
  }

  // ---------------------------------------------------------------- powers

  function Pow(x: int, n: nat): int
  {
    if n == 0 then 1 else x * Pow(x, n - 1)
  }

  lemma {:induction false} PowAdd(x: int, a: nat, b: nat)
    ensures Pow(x, a + b) == Pow(x, a) * Pow(x, b)
  {
    if a > 0 {
      PowAdd(x, a - 1, b);
      assert Pow(x, a + b) == x * Pow(x, a - 1 + b);
    }
  }

  lemma {:induction false} PowProduct(x: int, y: int, n: nat)
    ensures Pow(x * y, n) == Pow(x, n) * Pow(y, n)
  {
    if n > 0 {
      PowProduct(x, y, n - 1);
      var p, q := Pow(x, n - 1), Pow(y, n - 1);
      calc {
        Pow(x * y, n);
        (x * y) * (p * q);
        { MulSwapMiddle(x, y, p, q); }
        (x * p) * (y * q);
      }
    }
  }

  lemma MulSwapMiddle(a: int, b: int, c: int, d: int)
    ensures (a * b) * (c * d) == (a * c) * (b * d)
  {
    calc {
      (a * b) * (c * d);
      a * (b * (c * d));
      a * ((b * c) * d);
      a * ((c * b) * d);
      a * (c * (b * d));
      (a * c) * (b * d);
    }
  }

  /** Squaring the base halves the exponent. */
  lemma PowSquare(x: int, k: nat)
    ensures Pow(x * x, k) == Pow(x, 2 * k)
  {
    PowProduct(x, x, k);
    PowAdd(x, k, k);
  }

  lemma {:induction false} PowNonNegative(x: int, n: nat)
    requires x >= 0
    ensures Pow(x, n) >= 0
  {
    if n > 0 {
      PowNonNegative(x, n - 1);
    }
  }

  lemma {:induction false} PowPositive(x: int, n: nat)
    requires x > 0
    ensures Pow(x, n) > 0
  {
    if n > 0 {
      PowPositive(x, n - 1);
    }
  }

  /** Powers with a positive exponent are strictly increasing on the non-negative numbers. */
  lemma PowOrder(x: int, y: int, n: nat)
    requires 0 <= x && 0 <= y && n >= 1
    ensures x < y ==> Pow(x, n) < Pow(y, n)
    ensures x <= y ==> Pow(x, n) <= Pow(y, n)
  {
    if x < y {
      PowStrict(x, y, n);
    } else if x == y {
    }
  }

  lemma Distributes(c: int, x: int, y: int)
    ensures c * (x + y) == c * x + c * y
  {
  }

  /** Multiplying by a non-negative number keeps an order; by a positive one, a strict order. */
  lemma MulOrder(a: int, b: int, c: int)
    requires a <= b && c >= 0
    ensures a * c <= b * c
    ensures a < b && c > 0 ==> a * c < b * c
  {
    var d := b - a;
    assert b * c == a * c + d * c;
    if c > 0 {
      MulSign(c, d);
    }
  }

  /** 0 <= x <= y implies x^n <= y^n. */
  lemma {:induction false} PowMonotone(x: int, y: int, n: nat)
    requires 0 <= x <= y
    ensures Pow(x, n) <= Pow(y, n)
  {
    if n > 0 {
      PowMonotone(x, y, n - 1);
      PowNonNegative(x, n - 1);
      var p, q := Pow(x, n - 1), Pow(y, n - 1);
      MulOrder(x, y, p);
      MulOrder(p, q, y);
      assert Pow(x, n) == x * p && Pow(y, n) == y * q;
    }
  }

  /** 0 <= x < y implies x^n < y^n when n >= 1. */
  lemma {:induction false} PowStrict(x: int, y: int, n: nat)
    requires 0 <= x < y && n >= 1
    ensures Pow(x, n) < Pow(y, n)
  {
    if n > 1 {
      PowStrict(x, y, n - 1);
      PowNonNegative(x, n - 1);
      var p, q := Pow(x, n - 1), Pow(y, n - 1);
      MulOrder(x, y, p);
      MulOrder(p, q, y);
      assert Pow(x, n) == x * p && Pow(y, n) == y * q;
    }
  }

  /** x^n >= x for x >= 1 and n >= 1. */
  lemma PowAtLeastBase(x: int, n: nat)
    requires x >= 1 && n >= 1
    ensures Pow(x, n) >= x
  {
    PowMonotone(1, x, n - 1);
    assert Pow(1, n - 1) == 1 by { PowOne(n - 1); }
    assert Pow(x, n) == x * Pow(x, n - 1);
  }

  lemma {:induction false} PowOne(n: nat)
    ensures Pow(1, n) == 1
  {
    if n > 0 {
      PowOne(n - 1);
    }
  }

  /** n < 2^n. */
  lemma {:induction false} PowTwoAbove(n: nat)
    ensures n < Pow(2, n)
  {
    if n > 0 {
      PowTwoAbove(n - 1);
    }
  }

  /** Raising congruent numbers to the same power gives congruent numbers. */
  lemma {:induction false} PowCong(m: int, x: int, y: int, n: nat)
    requires m > 0 && Cong(m, x, y)
    ensures Cong(m, Pow(x, n), Pow(y, n))
  {
    if n == 0 {
      CongRefl(m, 1);
    } else {
      PowCong(m, x, y, n - 1);
      CongMul(m, x, Pow(x, n - 1), y, Pow(y, n - 1));
    }
  }

  // ---------------------------------------------------------------- divisibility and gcd

  /** d divides x (0 divides only 0). */
  predicate Divides(d: int, x: int)
  {
    if d == 0 then x == 0 else x % Abs(d) == 0
  }

  /** The greatest common divisor of two non-negative numbers, by Euclid's recursion. */
  function Gcd(a: nat, b: nat): nat
    decreases b
  {
    if b == 0 then a else Gcd(b, a % b)
  }

  lemma DividesLinear(d: int, x: int, y: int, k: int)
    requires d > 0 && Divides(d, x) && Divides(d, y)
    ensures Divides(d, x + k * y)
  {
    ModZero(x, d);
    ModZero(y, d);
    assert x + k * y == (x / d + k * (y / d)) * d;
    MultipleMod(x / d + k * (y / d), d);
  }

  lemma {:induction false} GcdDivides(a: nat, b: nat)
    ensures Divides(Gcd(a, b), a) && Divides(Gcd(a, b), b)
    decreases b
  {
    if b == 0 {
      if a > 0 {
        MultipleMod(1, a);
        MultipleMod(0, a);
      }
    } else {
      GcdDivides(b, a % b);
      var g := Gcd(a, b);
      assert g != 0;
      assert a == a % b + (a / b) * b;
      DividesLinear(g, a % b, b, a / b);
    }
  }

  /** Every positive common divisor divides the gcd. */
  lemma {:induction false} GcdGreatest(a: nat, b: nat, d: int)
    requires d > 0 && Divides(d, a) && Divides(d, b)
    ensures Divides(d, Gcd(a, b))
    decreases b
  {
    if b > 0 {
      assert a % b == a + (-(a / b)) * b;
      DividesLinear(d, a, b, -(a / b));
      GcdGreatest(b, a % b, d);
    }
  }

  lemma DividesAntisym(x: nat, y: nat)
    requires Divides(x, y) && Divides(y, x)
    ensures x == y
  {
    if x != 0 && y != 0 {
      ModZero(y, x);
      ModZero(x, y);
      var k, j := y / x, x / y;
      assert x * k == y && y * j == x;
      MulSign(x, k);
      MulSign(y, j);
    }
  }

  /** A non-negative common divisor that every common divisor divides is the gcd. */
  lemma GcdUnique(a: nat, b: nat, g: nat)
    requires Divides(g, a) && Divides(g, b)
    requires forall d :: d > 0 && Divides(d, a) && Divides(d, b) ==> Divides(d, g)
    ensures g == Gcd(a, b)
  {
    GcdDivides(a, b);
    var h := Gcd(a, b);
    if a == 0 && b == 0 {
      assert Divides(g + 1, a) && Divides(g + 1, b);
      assert g % (g + 1) == g;
    } else {
      GcdGreatest(a, b, g);
      DividesAntisym(g, h);
    }
  }

  lemma GcdSymmetric(a: nat, b: nat)
    ensures Gcd(a, b) == Gcd(b, a)
  {
    GcdDivides(b, a);
    forall d | d > 0 && Divides(d, a) && Divides(d, b)
      ensures Divides(d, Gcd(b, a))
    {
      GcdGreatest(b, a, d);
    }
    GcdUnique(a, b, Gcd(b, a));
  }

  /** Reducing the first operand modulo the second keeps the gcd. */
  lemma GcdModLeft(a: nat, b: nat)
    requires b > 0
    ensures Gcd(a % b, b) == Gcd(a, b)
  {
    GcdSymmetric(a % b, b);
  }

  /** Reducing the second operand modulo the first keeps the gcd. */
  lemma GcdModRight(a: nat, b: nat)
    requires a > 0
    ensures Gcd(a, b % a) == Gcd(a, b)
  {
    GcdSymmetric(a, b);
  }

  /** gcd(m - x, m) = gcd(x, m). */
  lemma GcdComplement(x: nat, m: nat)
    requires x <= m
    ensures Gcd(m - x, m) == Gcd(x, m)
  {
    var g := Gcd(x, m);
    GcdDivides(x, m);
    if g > 0 {
      DividesLinear(g, m, x, -1);
    } else {
      assert x == 0 && m == 0;
    }
    forall d | d > 0 && Divides(d, m - x) && Divides(d, m)
      ensures Divides(d, g)
    {
      DividesLinear(d, m, m - x, -1);
      GcdGreatest(x, m, d);
    }
    GcdUnique(m - x, m, g);
  }

  lemma GcdZeroLeft(b: nat)
    ensures Gcd(0, b) == b
  {
    if b > 0 {
      assert 0 % b == 0;
    }
  }

  lemma GcdOneLeft(b: nat)
    ensures Gcd(1, b) == 1
  {
    if b > 1 {
      assert 1 % b == 1;
      assert Gcd(1, b) == Gcd(b, 1);
      assert b % 1 == 0;
      assert Gcd(b, 1) == Gcd(1, 0);
    }
  }
}
