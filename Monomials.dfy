/**
 * Terms coefficient * x^degree (class Monomial). Every way of building a term reduces its
 * coefficient under the ambient modulus; the degree is kept as given.
 */
module Monomials {
  import opened Wrappers
  import opened Arith
  import opened Globals
  import Utilities
  import opened Text

  /** A term: the stored coefficient and the degree of x. */
  datatype Monomial = Monomial(coefficient: int, degree: int)

  /** new Monomial(coefficient, degree): the coefficient reduced, the degree as given. */
  function Make(ctx: Context, coefficient: int, degree: int): (m: Monomial)
    requires ctx.Valid()
    ensures m.degree == degree
    ensures Utilities.IsReduction(ctx, m.coefficient, coefficient)
    ensures m.coefficient == Utilities.Reduce(ctx, coefficient)
  {
    Utilities.ReductionUnique(ctx, Utilities.Reduce(ctx, coefficient), coefficient);
    Monomial(Utilities.Reduce(ctx, coefficient), degree)
  }

  /** Monomial.Constant(c): the term c * x^0. */
  function Constant(ctx: Context, c: int): (m: Monomial)
    requires ctx.Valid()
    ensures m.degree == 0
    ensures Utilities.IsReduction(ctx, m.coefficient, c) && m.coefficient == Utilities.Reduce(ctx, c)
  {
    Make(ctx, c, 0)
  }

  /**
   * The Coefficient setter (SetCoefficient): the new value is reduced before it is stored,
   * and the degree is untouched.
   */
  function SetCoefficient(ctx: Context, m: Monomial, value: int): (m': Monomial)
    requires ctx.Valid()
    ensures m'.degree == m.degree
    ensures Utilities.IsReduction(ctx, m'.coefficient, value)
    ensures m'.coefficient == Utilities.Reduce(ctx, value)
  {
    Utilities.ReductionUnique(ctx, Utilities.Reduce(ctx, value), value);
    m.(coefficient := Utilities.Reduce(ctx, value))
  }

  /** Monomial.Multiply: coefficients multiply (and are reduced), degrees add. */
  function Multiply(ctx: Context, a: Monomial, b: Monomial): (m: Monomial)
    requires ctx.Valid()
    ensures m.degree == a.degree + b.degree
    ensures Utilities.IsReduction(ctx, m.coefficient, a.coefficient * b.coefficient)
    ensures m.coefficient == Utilities.Reduce(ctx, a.coefficient * b.coefficient)
  {
    Make(ctx, a.coefficient * b.coefficient, a.degree + b.degree)
  }

  /** Monomial.Divide: Utilities.Divide on the coefficients, degrees subtract. */
  function Divide(ctx: Context, a: Monomial, b: Monomial): (r: Result<Monomial>)
    requires ctx.Valid()
    ensures r.Err? <==> Utilities.Divide(ctx, a.coefficient, b.coefficient).Err?
    ensures r.Err? ==> r.error == Utilities.Divide(ctx, a.coefficient, b.coefficient).error
    ensures r.Ok? ==> r.value.degree == a.degree - b.degree
    ensures r.Ok? ==>
      var q := Utilities.Divide(ctx, a.coefficient, b.coefficient).value;
      Utilities.IsReduction(ctx, r.value.coefficient, q) && r.value.coefficient == Utilities.Reduce(ctx, q)
  {
    match Utilities.Divide(ctx, a.coefficient, b.coefficient)
    case Err(e) => Err(e)
    case Ok(q) => Ok(Make(ctx, q, a.degree - b.degree))
  }

  /** Monomial.Abs: the reduced absolute value of the coefficient. */
  function Abs(ctx: Context, a: Monomial): (m: Monomial)
    requires ctx.Valid()
    ensures m.degree == a.degree
    ensures Utilities.IsReduction(ctx, m.coefficient, Arith.Abs(a.coefficient))
    ensures m.coefficient == Utilities.Reduce(ctx, Arith.Abs(a.coefficient))
  {
    Make(ctx, Arith.Abs(a.coefficient), a.degree)
  }

  /** Unary minus: the reduced negated coefficient. */
  function Negate(ctx: Context, a: Monomial): (m: Monomial)
    requires ctx.Valid()
    ensures m.degree == a.degree
    ensures Utilities.IsReduction(ctx, m.coefficient, -a.coefficient)
    ensures m.coefficient == Utilities.Reduce(ctx, -a.coefficient)
  {
    Make(ctx, -a.coefficient, a.degree)
  }

  predicate IsZero(m: Monomial) { m.coefficient == 0 }

  predicate IsNegative(m: Monomial) { m.coefficient < 0 }

  predicate IsConstant(m: Monomial) { m.degree == 0 }

  /** Monomial.Equals: the stored coefficients and the degrees agree. */
  predicate Equals(a: Monomial, b: Monomial)
  {
    a.coefficient == b.coefficient && a.degree == b.degree
  }

  /** Equals is equality of terms. */
  lemma EqualsIsEquality(a: Monomial, b: Monomial)
    ensures Equals(a, b) <==> a == b
  {
  }

  /**
   * Monomial.One, Zero and MinusOne, taken at their values under no modulus. The source
   * builds these static fields at some time before their first use, under whatever modulus
   * is then in force; the model abstracts from that moment.
   */
  const One: Monomial := Monomial(1, 0)
  const Zero: Monomial := Monomial(0, 0)
  const MinusOne: Monomial := Monomial(-1, 0)

  // ------------------------------------------------------------------ properties

  /** Building a term from a reduced coefficient stores that coefficient unchanged. */
  lemma MakeReduced(ctx: Context, c: int, d: int)
    requires ctx.Valid() && Utilities.Reduced(ctx, c)
    ensures Make(ctx, c, d) == Monomial(c, d)
  {
    Utilities.ReduceReduced(ctx, c);
  }

  /** Multiplication of terms is commutative. */
  lemma MultiplyCommutes(ctx: Context, a: Monomial, b: Monomial)
    requires ctx.Valid()
    ensures Multiply(ctx, a, b) == Multiply(ctx, b, a)
  {
    assert a.coefficient * b.coefficient == b.coefficient * a.coefficient;
  }

  /** Negating twice gives back the term's class: the coefficient is congruent to the original. */
  lemma NegateTwice(ctx: Context, a: Monomial)
    requires ctx.Valid()
    ensures Negate(ctx, Negate(ctx, a)).degree == a.degree
    ensures Utilities.ModEq(ctx, Negate(ctx, Negate(ctx, a)).coefficient, a.coefficient)
  {
    var n := Negate(ctx, a);
    Utilities.ModEqNeg(ctx, n.coefficient, -a.coefficient);
    Utilities.ModEqTrans(ctx, Negate(ctx, n).coefficient, -n.coefficient, a.coefficient);
  }

  /**
   * Dividing and multiplying back restores the term: the degree exactly, the coefficient
   * exactly without a modulus, and up to the modulus m when the divisor's coefficient
   * exceeds -m.
   */
  lemma DivideThenMultiply(ctx: Context, a: Monomial, b: Monomial)
    requires ctx.Valid() && Divide(ctx, a, b).Ok?
    requires ctx.modulus.Some? ==> ctx.modulus.value > 1 && b.coefficient > -ctx.modulus.value
    ensures Multiply(ctx, Divide(ctx, a, b).value, b).degree == a.degree
    ensures Utilities.ModEq(ctx, Multiply(ctx, Divide(ctx, a, b).value, b).coefficient, a.coefficient)
  {
    var q := Utilities.Divide(ctx, a.coefficient, b.coefficient).value;
    var Q := Divide(ctx, a, b).value;
    if ctx.modulus.None? {
      Utilities.DivideExact(ctx, a.coefficient, b.coefficient);
    } else {
      Utilities.DivideModular(ctx, a.coefficient, b.coefficient);
    }
    Utilities.ModEqCong(ctx, q * b.coefficient, a.coefficient);
    Utilities.ModEqRefl(ctx, b.coefficient);
    Utilities.ModEqMul(ctx, Q.coefficient, b.coefficient, q, b.coefficient);
    var m := Multiply(ctx, Q, b);
    Utilities.ModEqTrans(ctx, m.coefficient, Q.coefficient * b.coefficient, q * b.coefficient);
    Utilities.ModEqTrans(ctx, m.coefficient, q * b.coefficient, a.coefficient);
  }

  // ------------------------------------------------------------------ text

  /** The variable's name (Globals.symbol). */
  const Symbol: char := 'x'

  /** Monomial.ToString: "0", the bare coefficient at degree 0, else "x" or "x^d" after the coefficient unless it is 1. */
  function ToString(m: Monomial): string
  {
    if m.coefficient == 0 then "0"
    else if m.degree == 0 then IntToString(m.coefficient)
    else
      var output := if m.degree == 1 then [Symbol] else [Symbol, '^'] + IntToString(m.degree);
      if m.coefficient != 1 then IntToString(m.coefficient) + output else output
  }

  predicate IsNumberChar(c: char) { IsDigit(c) || c == '.' || c == '-' }

  /** The characters of s that may belong to a number, in order. */
  function NumberChars(s: string): (r: string)
    ensures |r| <= |s|
    ensures forall i :: 0 <= i < |r| ==> IsNumberChar(r[i])
  {
    if |s| == 0 then "" else
      NumberChars(s[..|s| - 1]) + (if IsNumberChar(s[|s| - 1]) then [s[|s| - 1]] else "")
  }

  /** The coefficient text after the defaults: empty means 1, a lone minus sign means -1. */
  function CoefficientText(digits: string): string
  {
    var t :=
      if |digits| == 0 then "1"
      else if !IsDigit(digits[0]) && digits[0] != '-' then "1" + digits
      else digits;
    if t == "-" then "-1" else t
  }

  /** The rewriting FromString starts with: "**" becomes "^", then "*" and "+" are deleted. */
  function Normalize(input: string): string
  {
    Replace(Replace(Replace(input, "**", "^"), "*", ""), "+", "")
  }

  /** Text without '^' gets the exponent 1 when it names the variable and 0 otherwise. */
  function WithExponent(str: string): (full: string)
    requires Count(str, '^') <= 1
    ensures Count(full, '^') == 1
  {
    if Count(str, '^') == 0 then
      var suffix := if HasLetter(str) then "^1" else "^0";
      CountConcat(str, suffix, '^');
      assert suffix == ['^'] + suffix[1..];
      CountConcat(['^'], suffix[1..], '^');
      str + suffix
    else str
  }

  /** The two parses: the coefficient from the number characters of the head, then the degree. */
  function ParseParts(ctx: Context, head: string, exponent: string): (r: Result<Monomial>)
    requires ctx.Valid()
    ensures r.Err? ==> r.error == FormatError
    ensures r.Ok? <==> ParseInteger(CoefficientText(NumberChars(head))).Ok? && ParseInteger(exponent).Ok?
    ensures r.Ok? ==> r.value.degree == ParseInteger(exponent).value
    ensures r.Ok? ==> Utilities.Reduced(ctx, r.value.coefficient)
    ensures r.Ok? ==> Utilities.ModEq(ctx, r.value.coefficient, ParseInteger(CoefficientText(NumberChars(head))).value)
  {
    match ParseInteger(CoefficientText(NumberChars(head)))
    case Err(e) => Err(e)
    case Ok(coefficient) =>
      match ParseInteger(exponent)
      case Err(e) => Err(e)
      case Ok(degree) => Ok(Make(ctx, coefficient, degree))
  }

  /**
   * Monomial.FromString, as a value: the rewriting of "**", "*" and "+", the operator checks,
   * the default exponent, the split at '^' and the two integer parses.
   */
  function ParseMonomial(ctx: Context, input: string): (r: Result<Monomial>)
    requires ctx.Valid()
    ensures r.Err? ==> r.error in {ArgumentError, NotImplemented, FormatError}
    ensures Count(Normalize(input), '^') > 1 <==> r == Err(ArgumentError)
    ensures Count(Normalize(input), '^') <= 1 && Count(Normalize(input), '.') > 0 <==> r == Err(NotImplemented)
    ensures r.Ok? ==> Utilities.Reduced(ctx, r.value.coefficient)
  {
    ParseNormalized(ctx, Normalize(input))
  }

  /** FromString after the rewriting. */
  function ParseNormalized(ctx: Context, str: string): (r: Result<Monomial>)
    requires ctx.Valid()
    ensures r.Err? ==> r.error in {ArgumentError, NotImplemented, FormatError}
    ensures Count(str, '^') > 1 <==> r == Err(ArgumentError)
    ensures Count(str, '^') <= 1 && Count(str, '.') > 0 <==> r == Err(NotImplemented)
    ensures r.Ok? ==> Utilities.Reduced(ctx, r.value.coefficient)
  {
    if Count(str, '^') > 1 then Err(ArgumentError)
    else if Count(str, '.') > 0 then Err(NotImplemented)
    else
      var full := WithExponent(str);
      var i := IndexOf(full, '^');
      CountFound(full, '^');
      ParseParts(ctx, full[..i], full[i + 1..])
  }

  /** The letter scan of FromString. */
  method ScanForLetter(str: string) returns (hasSymbol: bool)
    ensures hasSymbol <==> exists i :: 0 <= i < |str| && IsLetter(str[i])
  {
    hasSymbol := false;
    var k := 0;
    while k < |str|
      invariant 0 <= k <= |str|
      invariant hasSymbol == HasLetter(str[..k])
    {
      assert str[..k + 1][..k] == str[..k];
      if IsLetter(str[k]) {
        hasSymbol := true;
      }
      k := k + 1;
    }
    assert str[..k] == str;
    HasLetterMeans(str);
  }

  /** The digit-collecting loop of FromString. */
  method CollectNumberChars(withVariable: string) returns (digits: string)
    ensures digits == NumberChars(withVariable)
  {
    digits := "";
    var k := 0;
    while k < |withVariable|
      invariant 0 <= k <= |withVariable|
      invariant digits == NumberChars(withVariable[..k])
    {
      assert withVariable[..k + 1][..k] == withVariable[..k];
      var c := withVariable[k];
      if IsDigit(c) || c == '.' || c == '-' {
        digits := digits + [c];
      }
      k := k + 1;
    }
    assert withVariable[..k] == withVariable;
  }

  /** The default exponent of FromString, with the letter scan. */
  method AddDefaultExponent(str: string) returns (full: string)
    requires Count(str, '^') <= 1
    ensures full == WithExponent(str)
  {
    full := str;
    if Count(str, '^') == 0 {
      var hasSymbol := ScanForLetter(str);
      HasLetterMeans(str);
      if hasSymbol {
        full := str + "^1";
      } else {
        full := str + "^0";
      }
    }
  }

  /** The two parses of FromString, with the digit-collecting loop. */
  method ParseHead(ctx: Context, head: string, exponent: string) returns (r: Result<Monomial>)
    requires ctx.Valid()
    ensures r == ParseParts(ctx, head, exponent)
  {
    var digits := CollectNumberChars(head);
    var coefficient := ParseInteger(CoefficientText(digits));
    if coefficient.Err? {
      return Err(coefficient.error);
    }
    var degree := ParseInteger(exponent);
    if degree.Err? {
      return Err(degree.error);
    }
    r := Ok(Make(ctx, coefficient.value, degree.value));
  }

  /** Monomial.FromString. */
  method FromString(ctx: Context, input: string) returns (r: Result<Monomial>)
    requires ctx.Valid()
    ensures r == ParseMonomial(ctx, input)
  {
    var str := Normalize(input);
    r := FromNormalized(ctx, str);
    assert ParseMonomial(ctx, input) == ParseNormalized(ctx, str);
  }

  /** Past the operator checks, ParseNormalized is the two parses around the '^'. */
  lemma NormalizedParts(ctx: Context, str: string, head: string, exponent: string)
    requires ctx.Valid() && Count(str, '^') <= 1 && Count(str, '.') == 0
    requires var full := WithExponent(str); var i := IndexOf(full, '^');
      i < |full| && head == full[..i] && exponent == full[i + 1..]
    ensures ParseNormalized(ctx, str) == ParseParts(ctx, head, exponent)
  {
  }

  /** FromString after the rewriting: the operator checks, the default exponent and the parses. */
  method FromNormalized(ctx: Context, str: string) returns (r: Result<Monomial>)
    requires ctx.Valid()
    ensures r == ParseNormalized(ctx, str)
  {
    if Count(str, '^') > 1 {
      return Err(ArgumentError);
    }
    if Count(str, '.') > 0 {
      return Err(NotImplemented);
    }
    var full := AddDefaultExponent(str);
    var i := IndexOf(full, '^');
    CountFound(full, '^');
    var head, exponent := full[..i], full[i + 1..];
    NormalizedParts(ctx, str, head, exponent);
    r := ParseHead(ctx, head, exponent);
  }

  // ------------------------------------------------------------------ text round trip

  predicate SignedDigits(s: string) { forall i :: 0 <= i < |s| ==> IsDigit(s[i]) || s[i] == '-' }

  lemma {:induction false} NumberCharsConcat(s: string, t: string)
    ensures NumberChars(s + t) == NumberChars(s) + NumberChars(t)
    decreases |t|
  {
    if |t| == 0 {
      assert s + t == s;
    } else {
      assert (s + t)[..|s + t| - 1] == s + t[..|t| - 1];
      NumberCharsConcat(s, t[..|t| - 1]);
    }
  }

  lemma {:induction false} NumberCharsKeeps(s: string)
    requires SignedDigits(s)
    ensures NumberChars(s) == s
  {
    if |s| > 0 {
      NumberCharsKeeps(s[..|s| - 1]);
    }
  }

  lemma IntToStringSigned(i: int)
    ensures SignedDigits(IntToString(i)) && Plain(IntToString(i))
    ensures Count(IntToString(i), '^') == 0 && Count(IntToString(i), '.') == 0
    ensures !HasLetter(IntToString(i))
    ensures IntToString(i) != "-" && (IsDigit(IntToString(i)[0]) || IntToString(i)[0] == '-')
  {
    var s := IntToString(i);
    assert forall k :: 1 <= k < |s| ==> IsDigit(s[k]) by {
      if i < 0 {
        forall k | 1 <= k < |s| ensures IsDigit(s[k]) {
          assert s[k] == s[1..][k - 1];
        }
      }
    }
    HasLetterMeans(s);
    CountZero(s, '^');
    CountZero(s, '.');
  }

  /** No character of s is one that the rewriting removes or replaces. */
  predicate Plain(s: string) { forall k :: 0 <= k < |s| ==> s[k] != '*' && s[k] != '+' }

  lemma PlainConcat(s: string, t: string)
    requires Plain(s) && Plain(t)
    ensures Plain(s + t)
  {
    forall k | 0 <= k < |s + t| ensures (s + t)[k] != '*' && (s + t)[k] != '+' {
      if k >= |s| {
        assert (s + t)[k] == t[k - |s|];
      }
    }
  }

  /** A plain text is left alone by the rewriting. */
  lemma NormalizeKeeps(s: string)
    requires Plain(s)
    ensures Normalize(s) == s
  {
  }

  /** The coefficient text that printing produces parses back to the coefficient. */
  lemma CoefficientRoundTrip(c: int, prefix: string)
    requires c != 0 && prefix == if c != 1 then IntToString(c) else ""
    ensures ParseInteger(CoefficientText(NumberChars(prefix))) == Ok(c)
  {
    IntToStringSigned(c);
    ParseIntToString(c);
    if c != 1 {
      NumberCharsKeeps(IntToString(c));
      assert CoefficientText(IntToString(c)) == IntToString(c);
    } else {
      SmallIntegers();
    }
  }

  /** Splitting text + "^" + exponent, where the text has no '^', at its '^'. */
  lemma SplitAtCaret(head: string, exponent: string)
    requires Count(head, '^') == 0
    ensures IndexOf(head + "^" + exponent, '^') == |head|
    ensures (head + "^" + exponent)[..|head|] == head && (head + "^" + exponent)[|head| + 1..] == exponent
  {
    var s := head + "^" + exponent;
    assert s[|head|] == '^';
    CountZero(head, '^');
  }

  /** How ParseMonomial reads a text that normalisation keeps and whose exponent part is known. */
  lemma ParseThrough(ctx: Context, s: string, head: string, exponent: string)
    requires ctx.Valid() && Normalize(s) == s && Count(s, '^') <= 1 && Count(s, '.') == 0
    requires Count(head, '^') == 0 && WithExponent(s) == head + "^" + exponent
    ensures ParseMonomial(ctx, s) == ParseParts(ctx, head, exponent)
  {
    SplitAtCaret(head, exponent);
  }

  /** The two parses succeed with the given values. */
  lemma ParsePartsOk(ctx: Context, head: string, exponent: string, m: Monomial)
    requires ctx.Valid() && Utilities.Reduced(ctx, m.coefficient)
    requires ParseInteger(CoefficientText(NumberChars(head))) == Ok(m.coefficient)
    requires ParseInteger(exponent) == Ok(m.degree)
    ensures ParseParts(ctx, head, exponent) == Ok(m)
  {
    MakeReduced(ctx, m.coefficient, m.degree);
  }

  /** A text without '^' that ends in a letter gets the exponent 1. */
  lemma ExponentOfVariable(head: string)
    requires Count(head, '^') == 0 && |head| > 0 && IsLetter(head[|head| - 1])
    ensures WithExponent(head) == head + "^" + "1"
  {
    HasLetterMeans(head);
  }

  /** A text that the rewriting keeps, whose parts around the '^' parse to the term's values. */
  lemma ParseKnownParts(ctx: Context, s: string, head: string, exponent: string, m: Monomial)
    requires ctx.Valid() && Utilities.Reduced(ctx, m.coefficient)
    requires Normalize(s) == s && Count(s, '^') <= 1 && Count(s, '.') == 0
    requires Count(head, '^') == 0 && WithExponent(s) == head + "^" + exponent
    requires ParseInteger(CoefficientText(NumberChars(head))) == Ok(m.coefficient)
    requires ParseInteger(exponent) == Ok(m.degree)
    ensures ParseMonomial(ctx, s) == Ok(m)
  {
    ParseThrough(ctx, s, head, exponent);
    ParsePartsOk(ctx, head, exponent, m);
  }

  /** The text prefix + "x", for a printed prefix, is kept by the rewriting and gets the exponent 1. */
  lemma DegreeOneText(prefix: string)
    requires Plain(prefix) && Count(prefix + [Symbol], '^') == 0
    ensures Normalize(prefix + [Symbol]) == prefix + [Symbol]
    ensures WithExponent(prefix + [Symbol]) == prefix + [Symbol] + "^" + "1"
  {
    ExponentOfVariable(prefix + [Symbol]);
    PlainConcat(prefix, [Symbol]);
    NormalizeKeeps(prefix + [Symbol]);
  }

  /** The printed form "x" or "cx" of a term of degree 1 parses back. */
  lemma ParseDegreeOne(ctx: Context, m: Monomial, prefix: string)
    requires ctx.Valid() && Utilities.Reduced(ctx, m.coefficient) && m.degree == 1
    requires ParseInteger(CoefficientText(NumberChars(prefix))) == Ok(m.coefficient)
    requires Plain(prefix) && NumberChars(prefix + [Symbol]) == NumberChars(prefix)
    requires Count(prefix + [Symbol], '^') == 0 && Count(prefix + [Symbol], '.') == 0
    ensures ParseMonomial(ctx, prefix + [Symbol]) == Ok(m)
  {
    var head := prefix + [Symbol];
    assert ParseInteger("1") == Ok(1) by {
      ParseSmall();
    }
    DegreeOneText(prefix);
    ParseKnownParts(ctx, head, head, "1", m);
  }

  /** The text head + "^" + exponent, for a printed head and exponent, is kept by the rewriting. */
  lemma HigherDegreeText(prefix: string, exponent: string)
    requires Plain(prefix) && Count(prefix + [Symbol], '^') == 0 && Count(prefix + [Symbol], '.') == 0
    requires Plain(exponent) && Count(exponent, '^') == 0 && Count(exponent, '.') == 0
    ensures Normalize(prefix + [Symbol] + "^" + exponent) == prefix + [Symbol] + "^" + exponent
    ensures Count(prefix + [Symbol] + "^" + exponent, '^') == 1
    ensures Count(prefix + [Symbol] + "^" + exponent, '.') == 0
  {
    var head := prefix + [Symbol];
    CountConcat(head, "^", '^');
    CountConcat(head + "^", exponent, '^');
    CountConcat(head, "^", '.');
    CountConcat(head + "^", exponent, '.');
    PlainConcat(prefix, [Symbol]);
    PlainConcat(head, "^");
    PlainConcat(head + "^", exponent);
    NormalizeKeeps(head + "^" + exponent);
  }

  /** The printed form "x^d" or "cx^d" of a term of degree other than 0 and 1 parses back. */
  lemma ParseHigherDegree(ctx: Context, m: Monomial, prefix: string)
    requires ctx.Valid() && Utilities.Reduced(ctx, m.coefficient)
    requires m.degree != 0 && m.degree != 1
    requires ParseInteger(CoefficientText(NumberChars(prefix))) == Ok(m.coefficient)
    requires Plain(prefix) && NumberChars(prefix + [Symbol]) == NumberChars(prefix)
    requires Count(prefix + [Symbol], '^') == 0 && Count(prefix + [Symbol], '.') == 0
    ensures ParseMonomial(ctx, prefix + [Symbol] + "^" + IntToString(m.degree)) == Ok(m)
  {
    var head := prefix + [Symbol];
    var exponent := IntToString(m.degree);
    assert ParseInteger(exponent) == Ok(m.degree) by {
      ParseIntToString(m.degree);
    }
    IntToStringSigned(m.degree);
    HigherDegreeText(prefix, exponent);
    ParseKnownParts(ctx, head + "^" + exponent, head, exponent, m);
  }

  /** The printed form of a term of degree other than 0 parses back. */
  lemma ParseVariableTerm(ctx: Context, m: Monomial)
    requires ctx.Valid() && m.coefficient != 0 && Utilities.Reduced(ctx, m.coefficient) && m.degree != 0
    ensures ParseMonomial(ctx, ToString(m)) == Ok(m)
  {
    var prefix := if m.coefficient != 1 then IntToString(m.coefficient) else "";
    PrintedPrefix(m.coefficient, prefix);
    CoefficientRoundTrip(m.coefficient, prefix);
    VariableText(m, prefix);
    if m.degree == 1 {
      ParseDegreeOne(ctx, m, prefix);
    } else {
      ParseHigherDegree(ctx, m, prefix);
    }
  }

  /** The printed form of a term of degree other than 0: the coefficient, the variable, the exponent. */
  lemma VariableText(m: Monomial, prefix: string)
    requires m.coefficient != 0 && m.degree != 0
    requires prefix == if m.coefficient != 1 then IntToString(m.coefficient) else ""
    ensures m.degree == 1 ==> ToString(m) == prefix + [Symbol]
    ensures m.degree != 1 ==> ToString(m) == prefix + [Symbol] + "^" + IntToString(m.degree)
  {
  }

  /** The coefficient printed before the variable has no operator and no number after it. */
  lemma PrintedPrefix(c: int, prefix: string)
    requires prefix == if c != 1 then IntToString(c) else ""
    ensures Plain(prefix) && Count(prefix + [Symbol], '^') == 0 && Count(prefix + [Symbol], '.') == 0
    ensures NumberChars(prefix + [Symbol]) == NumberChars(prefix)
  {
    IntToStringSigned(c);
    CountConcat(prefix, [Symbol], '^');
    CountConcat(prefix, [Symbol], '.');
    NumberCharsConcat(prefix, [Symbol]);
    assert NumberChars([Symbol]) == "";
  }


  /** The printed integer is kept by the rewriting and gets the exponent 0. */
  lemma ConstantText(c: int)
    ensures Normalize(IntToString(c)) == IntToString(c)
    ensures Count(IntToString(c), '^') == 0 && Count(IntToString(c), '.') == 0
    ensures WithExponent(IntToString(c)) == IntToString(c) + "^" + "0"
  {
    IntToStringSigned(c);
    NormalizeKeeps(IntToString(c));
  }

  /** The printed form of a constant term, its coefficient alone, parses back. */
  lemma ParseConstantTerm(ctx: Context, m: Monomial)
    requires ctx.Valid() && m.coefficient != 0 && Utilities.Reduced(ctx, m.coefficient) && m.degree == 0
    ensures ParseMonomial(ctx, IntToString(m.coefficient)) == Ok(m)
  {
    var s := IntToString(m.coefficient);
    assert ParseInteger(CoefficientText(NumberChars(s))) == Ok(m.coefficient) by {
      IntToStringSigned(m.coefficient);
      ParseIntToString(m.coefficient);
      NumberCharsKeeps(s);
    }
    assert ParseInteger("0") == Ok(0) by {
      ParseSmall();
    }
    ConstantText(m.coefficient);
    ParseKnownParts(ctx, s, s, "0", m);
  }

  /**
   * Printing a term and parsing the text back gives the term, for a nonzero coefficient that
   * is already reduced.
   */
  lemma ParseToString(ctx: Context, m: Monomial)
    requires ctx.Valid() && m.coefficient != 0 && Utilities.Reduced(ctx, m.coefficient)
    ensures ParseMonomial(ctx, ToString(m)) == Ok(m)
  {
    if m.degree == 0 {
      assert ToString(m) == IntToString(m.coefficient);
      ParseConstantTerm(ctx, m);
    } else {
      ParseVariableTerm(ctx, m);
    }
  }

  lemma ParseSmallNumbers()
    ensures ParseInteger("23") == Ok(23) && ParseInteger("1") == Ok(1)
  {
    assert TrimEnd(TrimStart("23")) == "23";
    assert DigitsValue("23") == 23 by { assert "23"[..1] == "2"; }
    assert TrimEnd(TrimStart("1")) == "1";
  }

  lemma NumberCharsOfExample()
    ensures NumberChars("2x3") == "23"
  {
    assert "2x3"[..2] == "2x" && "2x"[..1] == "2" && "2"[..0] == "";
  }

  lemma ExampleShape()
    ensures Normalize("2x3") == "2x3" && Count("2x3", '^') == 0 && Count("2x3", '.') == 0
    ensures WithExponent("2x3") == "2x3" + "^" + "1"
  {
    assert Plain("2x3");
    NormalizeKeeps("2x3");
    HasLetterMeans("2x3");
    assert IsLetter("2x3"[1]);
  }

  /** Digits written after the variable join the coefficient: "2x3" is 23x. */
  lemma DigitsAfterSymbol(ctx: Context)
    requires ctx.Valid() && ctx.modulus.None?
    ensures ParseMonomial(ctx, "2x3") == Ok(Monomial(23, 1))
  {
    ExampleShape();
    ParseThrough(ctx, "2x3", "2x3", "1");
    NumberCharsOfExample();
    ParseSmallNumbers();
    assert CoefficientText("23") == "23";
  }
}
