# Univariate polynomial computer algebra: a verified model

This project models the core of a small computer algebra system for univariate polynomials
with integer coefficients, optionally reduced modulo m. The system uses that arithmetic to run
the AKS primality test of Agrawal, Kayal and Saxena ("PRIMES is in P"). The model has three
layers, one per group of source files.

- **Integer number theory (`Utilities.cs`).**
  - `Modulo`: reduction under the process-wide modulus, with the sign flag.
  - Modular division: the extended-Euclid inverse and `Divide`.
  - `GCD`, square-and-multiply `Power`, `Totient` and the multiplicative order `Ord`.
  - The AKS helpers `FindR`, `GetLog2`, `FindIntegerRoot` and `IsPerfectPower`.
  - All of these are in `Utilities.dfy`.
  - C#'s truncating `%` and the gcd and power facts the proofs use are in `Arith.dfy`.
- **Sparse polynomials (`Monomial.cs`, `Polynomial.cs`).**
  - A monomial is a value `Monomial(coefficient, degree)` whose coefficient is reduced when it
    is built (`Monomials.dfy`).
  - A `Polynomial` is a class whose field `terms: map<int, int>` stands for the
    `Dictionary<degree, Monomial>` that `AddInPlace` updates in place (`Polynomials.dfy`).
  - Every method of the class is proved against a value-level function on `Terms`, covering:
    - the dictionary queries (`Dictionary.dfy`);
    - add, multiply, negate, subtract and copy (`PolyOps.dfy`);
    - long division (`Division.dfy`);
    - polynomial powers (`Powers.dfy`);
    - equality (`Equality.dfy`);
    - printing and parsing (`PolyText.dfy`, `Text.dfy`).
  - Those functions are in turn related to the mathematical polynomial, given as a list of
    terms whose coefficients are summed per degree (`TermAlgebra.dfy`). This covers
    coefficient-wise meaning, congruence modulo a polynomial, and the ring laws.
- **The AKS driver (`AKS.cs`).** The five steps, in order, with their early returns
  (`AKS.dfy`).

The process-wide state `Globals.modulus` and `Globals.modIgnoreSign` (Globals.cs:12-13) is an
explicit `Globals.Context` value. It is passed to every operation that reads it. `AKSStep`
sets the modulus, so it hands the new context back. The symbol is fixed to `x` (Globals.cs:15).
Exceptions become the `Wrappers.Error` kinds of a `Result`:

| C# exception | Error kind |
|---|---|
| `ArgumentException` | `ArgumentError` |
| `ArgumentOutOfRangeException` | `OutOfRange` |
| `NotImplementedException` | `NotImplemented` |
| `BadModulusException` | `BadModulus` |
| `DivideByZeroException` | `DivideByZero` |
| `FormatException` from `BigInteger.Parse` | `FormatError` |
| `OverflowException` from the checked `(int)r` cast | `Overflow` |

`OutOfFuel` stands for a search that has not ended after the number of steps it was given.

## Model

| member | source | states |
|---|---|---|
| Globals.Context.WithModulus | Globals.cs:12-13 | Setting the modulus changes the modulus only and keeps the sign flag. |
| Arith.TruncMod | Utilities.cs:39 | C#'s `%`: a = b·(a / b truncated) + r, with \|r\| < \|b\| and r carrying a's sign. |
| Arith.TruncAgrees | Utilities.cs:39 | For a non-negative dividend and a positive divisor, C#'s `%` agrees with Dafny's Euclidean `%`. |
| Arith.GcdUnique | Utilities.cs:128-141 | The gcd is the unique non-negative common divisor that every common divisor divides. |
| Utilities.Modulo | Utilities.cs:19-47 | No modulus returns a unchanged. Modulus 0 is ArgumentError and a negative modulus is NotImplemented. Otherwise the result is congruent to a with absolute value below m. It lies in [0, m) unless modIgnoreSign is set, in which case it keeps a's sign. |
| Utilities.Reduce | Utilities.cs:19-47 | Reduction under a valid context: the result is congruent to a and reduced, and keeps a's sign under modIgnoreSign. |
| Utilities.ReduceIdempotent | Utilities.cs:19-47 | Reducing twice is reducing once. |
| Utilities.ReduceCanonical | Utilities.cs:19-47 | With signs normalised, congruent values reduce to the same value. |
| Utilities.ReductionUnique | Utilities.cs:19-47 | Being congruent to a, reduced, and of a's sign under modIgnoreSign (IsReduction) holds for exactly one value, the one Modulo returns: C#'s `%` fixes the sign. |
| Utilities.ModInverse | Utilities.cs:50-97 | Modulus 0 is ArgumentError and a negative modulus is NotImplemented. Otherwise the inverse exists exactly when gcd(\|b\|, mod) = 1, and is BadModulus when it does not. |
| Utilities.ModInverseCorrect | Utilities.cs:64-97 | With gcd 1: modulus 1 gives 0. For mod > 1 and b > -mod, the result x lies in [0, mod) with b·x ≡ 1. For b < -mod the code returns 1. |
| Utilities.ModInverseExample | Utilities.cs:50-97 | An illustration of ModInverseCorrect: the inverse of 3 modulo 17 is 6. |
| Utilities.ModularMultiplicativeInverse | Utilities.cs:50-97 | The extended-Euclid loop returns exactly ModInverse(b, mod), including its errors. |
| Utilities.ModDivide | Utilities.cs:99-108 | Propagates the inverse's error. Otherwise the result is reduced below the modulus, and non-negative when signs are normalised. |
| Utilities.ModDivideCorrect | Utilities.cs:99-108 | For mod > 1 and b > -mod, the quotient times b is congruent to a. |
| Utilities.DivideExact | Utilities.cs:110-117 | Without a modulus: b = 0 is DivideByZero, a b that does not divide a is ArgumentError, and otherwise the quotient q has q·b = a. |
| Utilities.DivideModular | Utilities.cs:118-126 | Under a modulus m: m = 0 and m < 0 give Modulo's errors. A non-invertible b is BadModulus. Otherwise \|q\| < m, and q·b ≡ a when m > 1 and b > -m. |
| Utilities.Divide | Utilities.cs:110-127 | Without a modulus: DivideByZero, ArgumentError or the truncated quotient. Under a modulus: the inverse's error, or ModDivide of the operands, applied to their absolute values and negated when signs are kept and differ. DivideExact and DivideModular state what the result means. |
| Utilities.DivideZero | Utilities.cs:110-127 | A division of 0 that succeeds gives 0. |
| Utilities.GCD | Utilities.cs:128-141 | A negative operand is NotImplemented. Otherwise Euclid's loop returns the greatest common divisor, so GCD(a, 0) = a. |
| Utilities.IsCoprime | Utilities.cs:184-187 | Negative operands are NotImplemented. Otherwise true exactly when the gcd is 1. |
| Utilities.Power | Utilities.cs:142-170 | n < 0 is ArgumentError and n = 0 gives 1. Without a modulus the result is x^n. Modulus 0 is DivideByZero. Under modulus m ≠ 0 the result is congruent to x^n with absolute value below \|m\|, and equals x^n mod m when m > 0 and x ≥ 0. |
| Utilities.Totient | Utilities.cs:172-181 | Counts the k in [1, n] coprime to n, and returns 0 for negative n. |
| Utilities.CoprimeCountIsCard | Utilities.cs:172-181 | That count is the size of the set of units {k in [1, j] : gcd(k, n) = 1}. |
| Utilities.TotientOfPrime | Utilities.cs:172-181 | The totient of a prime p is p - 1. |
| Utilities.TotientNine | Utilities.cs:172-181 | An illustration of Totient's count: Totient(9) = 6. |
| Utilities.OrderExists | Utilities.cs:200-209 | For n ≥ 2 and a coprime to n, some e in [1, n] has a^e mod n = 1, so Ord's search ends. |
| Utilities.Ord | Utilities.cs:189-210 | Negative inputs are NotImplemented. Non-coprime inputs or n ≤ 1 are ArgumentError. Otherwise the result is the least k ≥ 1 with a^k mod n = 1, and it is at most n. |
| Utilities.OrdExample | Utilities.cs:189-210 | An illustration of Ord's contract: the order of 2 modulo 7 is 3 and nothing else. |
| Utilities.FindR | Utilities.cs:213-267 | Default branch: the least r whose predecessor r - 1 is coprime to n and for which n^k mod r is neither 0 nor 1 for every k in [1, maxK + 1]. Other branch: the least r coprime to n with order above maxK. It tests r = 2, 3, … and reports OutOfFuel only when no candidate up to fuel + 1 qualifies. The second branch never ends for n = 0 and raises for n = 1. |
| Utilities.GetLog2 | Utilities.cs:300-316 | n ≤ 0 is OutOfRange. Otherwise the result is the L with 2^L ≤ n < 2^(L+1). |
| Utilities.Log2Unique | Utilities.cs:300-316 | That L is unique. |
| Utilities.FindIntegerRoot | Utilities.cs:319-353 | n ≤ 0 is OutOfRange, e = 0 is DivideByZero and e < 0 is OutOfRange. Otherwise the result is the floor root r ≥ 1 with r^e ≤ n < (r+1)^e, whether or not it is exact. |
| Utilities.FloorRootUnique | Utilities.cs:319-353 | An exact e-th root of n equals the floor root. |
| Utilities.PowerOfTwoCharacterised | Utilities.cs:280 | `IsPowerOfTwo` holds exactly for the powers 2^k. |
| Utilities.IsPerfectPower | Utilities.cs:275-297 | True exactly when n = 2 or n is a^b with a, b ≥ 2. The power-of-two shortcut makes 2 come out true. |
| Utilities.TwoIsNoPower | Utilities.cs:270-272 | 2 is prime and is not a^b for any a, b ≥ 2, so the definition the doc comment gives excludes it. |
| Utilities.IsPerfectPowerCorrected | Utilities.cs:270-278 | True exactly when n is a^b with a, b ≥ 2, as the doc comment describes: the as-written test without its answer for 2. |
| Monomials.Make | Monomial.cs:33-37 | The constructor keeps the degree and stores the reduction of the coefficient (IsReduction: congruent, reduced, and of its sign under modIgnoreSign), which by ReductionUnique is exactly the value Modulo returns. |
| Monomials.Constant | Monomial.cs:130-133 | A degree-0 monomial whose coefficient is the reduction of c, exactly Modulo's value. |
| Monomials.SetCoefficient | Monomial.cs:22-31 | The setter keeps the degree and stores the reduction of the value, exactly Modulo's value, sign included under modIgnoreSign. |
| Monomials.Multiply | Monomial.cs:44-47 | The degrees add and the coefficient is the reduction of the product of the coefficients, exactly Modulo's value. |
| Monomials.MultiplyCommutes | Monomial.cs:44-47 | Multiplication of monomials commutes. |
| Monomials.Divide | Monomial.cs:49-52 | Fails exactly when Utilities.Divide of the coefficients fails, with its error. Otherwise the degree is a.degree - b.degree and the coefficient is the reduction of the quotient Utilities.Divide returns. |
| Monomials.DivideThenMultiply | Monomial.cs:44-52 | A successful quotient times the divisor gives back the dividend's degree and a congruent coefficient. |
| Monomials.Abs | Monomial.cs:85-88 | Same degree, with the reduction of \|c\| as coefficient, exactly Modulo's value. |
| Monomials.Negate | Monomial.cs:91-94 | Same degree, with the reduction of -c as coefficient, exactly Modulo's value. |
| Monomials.NegateTwice | Monomial.cs:91-94 | Negating twice gives the same degree and a congruent coefficient. |
| Monomials.EqualsIsEquality | Monomial.cs:272-279 | Equals holds exactly when coefficient and degree both match. |
| Monomials.ToString | Monomial.cs:248-270 | The definition the printing lemmas use: "0" for a zero coefficient, the bare coefficient at degree 0, otherwise the coefficient (omitted when 1) then `x` or `x^d`. ParseToString states its meaning. |
| Monomials.ParseMonomial | Monomial.cs:134-211 | After the `**`/`*`/`+` rewriting: more than one `^` is ArgumentError, and otherwise any `.` is NotImplemented. The only other failure is FormatError. A parsed coefficient is reduced. |
| Monomials.ScanForLetter | Monomial.cs:148-155 | The loop finds a letter exactly when the string holds one. |
| Monomials.AddDefaultExponent | Monomial.cs:146-164 | Appends `^1` when a letter is present and `^0` otherwise, so exactly one `^` remains. |
| Monomials.CollectNumberChars | Monomial.cs:177-184 | Keeps the digits, `.` and `-` in order, and nothing else. |
| Monomials.ParseHead | Monomial.cs:186-209 | Returns exactly ParseParts: it succeeds exactly when the coefficient text and the exponent parse as integers, and fails otherwise with FormatError. The coefficient text is the number characters, with an empty text read as 1 and a lone `-` as -1. The degree is the exponent's value and the coefficient is reduced and congruent to the parsed one. |
| Monomials.FromString | Monomial.cs:134-211 | The method returns exactly ParseMonomial(input). |
| Monomials.FromNormalized | Monomial.cs:138-209 | The part after the rewriting returns exactly ParseNormalized(str). |
| Monomials.ParseToString | Monomial.cs:134-270 | For a nonzero reduced coefficient, parsing the printed monomial gives the monomial back. |
| Monomials.DigitsAfterSymbol | Monomial.cs:177-184 | An illustration of ParseHead and CollectNumberChars: "2x3" parses as 23x: digits after the symbol join the coefficient. |
| Text.ParseIntToString | Monomial.cs:207-208 | BigInteger.Parse reads back every printed integer. |
| Text.ParseRejects | Monomial.cs:207-208 | "", "-", "x" and "--5" are FormatError. |
| Text.CountConcat | Monomial.cs:138-146 | Character counts add over concatenation. |
| Text.HasLetterMeans | Monomial.cs:148-155 | HasLetter holds exactly when some character is a letter. |
| Dictionary.AddTerm | Polynomial.cs:98-112 | AddInPlace on the dictionary: the degree is added to the keys, every other entry is unchanged, and the entry at d is the reduction of the old coefficient plus the reduced c, exactly Modulo's value; it is congruent to the old coefficient plus c. |
| Dictionary.AddAllCoeff | Polynomial.cs:17-26 | Adding a list of monomials adds, at each degree, the sum of their coefficients there: repeated degrees accumulate. |
| Dictionary.AllTermsEntries | Polynomial.cs:271-277 | GetAllTerms lists every stored entry exactly once, with its coefficient. |
| Dictionary.AllTermsDescending | Polynomial.cs:271-277 | GetAllTerms is in strictly descending degree. |
| Dictionary.AllTermsComplete | Polynomial.cs:271-277 | Every stored degree is listed. |
| Dictionary.NonzeroTermsMeaning | Polynomial.cs:280-289 | GetNonzeroTerms has the stored coefficient at every degree, including when it returns the single Monomial.Zero. |
| Dictionary.FirstNonzero | Polynomial.cs:280-338 | There are no nonzero terms exactly when all coefficients are zero. Otherwise the first one is the stored entry of highest degree with a nonzero coefficient. |
| Dictionary.DegreeCharacterised | Polynomial.cs:333-338 | Degree is 0 for a zero polynomial. Otherwise its coefficient is nonzero and no nonzero coefficient lies above it. |
| Dictionary.HighestDegreeTermIs | Polynomial.cs:327-342 | HighestDegreeTerm is the monomial stored at Degree, or Monomial.Zero for a zero polynomial, and its coefficient is nonzero otherwise. |
| Dictionary.MonomialAt | Polynomial.cs:327-332 | The stored monomial at d, or Monomial.Zero when d is absent. |
| Dictionary.StoredZero | Polynomial.cs:98-112 | A stored coefficient congruent to 0 is 0. |
| PolyOps.Empty | Polynomial.cs:17-26 | A new polynomial holds exactly the entry 0 at degree 0. |
| PolyOps.Add | Polynomial.cs:222-234 | The definition Add is proved against: the nonzero terms of p into a new polynomial, then those of q added in turn. AddCoefficients, AddCommutes and AddThenSubtract state its meaning. |
| PolyOps.Multiply | Polynomial.cs:113-126 | The definition: every product of a nonzero term of p with one of q, row by row, added into a new polynomial. MultiplyMeans, MultiplyCommutes and MultiplyAssociates state its meaning. |
| PolyOps.Negate | Polynomial.cs:251-254 | The definition: multiplication by Monomial.MinusOne made a polynomial. NegateCoefficients states its meaning. |
| PolyOps.Subtract | Polynomial.cs:235-238 | The definition: p plus the negation of q. SubtractCoefficients and AddThenSubtract state its meaning. |
| PolyOps.Copy | Polynomial.cs:260-268 | The definition: the nonzero terms re-added into a new polynomial. CopyCoefficients states its meaning. |
| PolyOps.NewMeans | Polynomial.cs:17-26 | The constructor's dictionary has, at each degree, the reduced sum of the given monomials' coefficients. |
| PolyOps.AddCoefficients | Polynomial.cs:222-234 | Add's coefficient at each degree is reduced and congruent to the sum of the operands' coefficients there. |
| PolyOps.AddCommutes | Polynomial.cs:222-234 | Add commutes coefficient-wise. |
| PolyOps.MultiplyMeans | Polynomial.cs:113-126 | Multiply's coefficient at d is the reduced sum of c1·c2 over the pairs of nonzero terms with d1 + d2 = d. |
| PolyOps.MultiplyCommutes | Polynomial.cs:113-126 | Multiply commutes coefficient-wise. |
| PolyOps.MultiplyAssociates | Polynomial.cs:113-126 | Multiply associates, as polynomials. |
| PolyOps.NegateCoefficients | Polynomial.cs:251-254 | Negation is multiplication by -1, so each coefficient becomes congruent to minus the old one. |
| PolyOps.SubtractCoefficients | Polynomial.cs:235-238 | Subtract's coefficients are reduced and congruent to the differences. |
| PolyOps.AddThenSubtract | Polynomial.cs:222-238 | (p + q) - q has p's coefficients, modulo the modulus. |
| PolyOps.CopyCoefficients | Polynomial.cs:260-268 | A copy of a polynomial with reduced entries has exactly its coefficients, under either sign setting. |
| PolyOps.MultinomialCoefficients | Polynomial.cs:46-58 | BasicMultinomial(n) has coefficient 1 (reduced) at degrees 0 … n-1 and 0 elsewhere. |
| TermAlgebra.TimesCommutes | Polynomial.cs:113-126 | The product of term lists commutes per degree. |
| TermAlgebra.TimesAssociates | Polynomial.cs:113-126 | The product of term lists associates. |
| TermAlgebra.PowCongruent | Polynomial.cs:128-166 | Congruent polynomials have congruent powers modulo a polynomial. |
| TermAlgebra.CongruentTimes | Polynomial.cs:128-166 | Congruence modulo a polynomial is kept by multiplication. |
| Division.HeightFalls | Polynomial.cs:207-215 | Each pass cancels the leading term, so the degree gap strictly falls. |
| Division.Loop | Polynomial.cs:197-220 | The definition of the division loop with the exit evidently intended (degree below the divisor's, or a zero remainder): the leading-term quotients collected in order and the final remainder, or the first error. LoopDone, LoopErrors, LoopSucceeds and DivisionIdentity state its meaning. |
| Division.AsWrittenLoop | Polynomial.cs:197-220 | The definition of the loop as written, whose only exit is a remainder of degree below the divisor's, run for at most fuel passes. AsWrittenAgrees, ConstantDivisorDiverges and ZeroByTwoDiverges state its meaning. |
| Division.LoopDone | Polynomial.cs:215-219 | The loop ends on a remainder whose degree is below the divisor's, or which is zero. |
| Division.LoopErrors | Polynomial.cs:207 | The only errors are those Monomial.Divide raises on the leading terms: DivideByZero, ArgumentError or BadModulus. |
| Division.LoopSucceeds | Polynomial.cs:207 | A divisor whose leading coefficient is 1 (no modulus), or invertible modulo m, never makes the loop raise. |
| Division.DivisionIdentity | Polynomial.cs:168-221 | dividend = quotient·divisor + remainder coefficient-wise (modulo m). The remainder is done, and its degree is below the divisor's when the divisor has degree ≥ 1. |
| Division.ModCongruent | Polynomial.cs:175-180 | PolynomialMod's result is congruent to p modulo the divisor and has lower degree when the divisor has degree ≥ 1. |
| Division.AsWrittenAgrees | Polynomial.cs:189-220 | With a divisor of degree ≥ 1 and enough passes, the source's loop computes what the corrected loop does. |
| Division.QuotientAccumulates | Polynomial.cs:182-213 | Starting the quotient from a dictionary that already holds terms adds those terms to the quotient. |
| Division.ConstantDivisorDiverges | Polynomial.cs:197-220 | For a divisor of degree 0 the source's loop never stops once the remainder is zero: no number of passes is enough. |
| Division.ZeroByTwoDiverges | Polynomial.cs:189-220 | Dividing the zero polynomial by 2 never ends in the source, while the corrected loop returns (0, 0). |
| Division.ConstantDivisorCorrected | Polynomial.cs:197-220 | The corrected loop stops at once on a zero remainder. |
| Powers.PowerLoop | Polynomial.cs:148-164 | Without a modulus polynomial the loop always succeeds. |
| Powers.Power | Polynomial.cs:128-166 | A negative exponent is ArgumentError. Without a modulus polynomial the result exists. |
| Powers.PowerCongruent | Polynomial.cs:128-166 | A successful result is congruent to base^e modulo the modulus polynomial, and has lower degree than it when that degree is ≥ 1. |
| Powers.PowerMeans | Polynomial.cs:128-166 | Without a modulus polynomial (and integer modulus ≠ 1) the result has, at each degree, the reduced coefficient of base^e. |
| Powers.PowerSucceeds | Polynomial.cs:138-164 | With a modulus polynomial whose leading coefficient is invertible, the power raises nothing. |
| Equality.SameCoefficientsMeans | Polynomial.cs:344-354 | The evident meaning of Equals: equal coefficients at every non-negative degree. |
| Equality.AsWrittenIsStricter | Polynomial.cs:344-354 | Equals as written implies equal coefficients. |
| Equality.AsWrittenWithoutStoredZeros | Polynomial.cs:327-354 | Without stored zero entries above degree 0, Equals as written is exactly coefficient equality. |
| Equality.StoredZeroUnequal | Polynomial.cs:327-354 | {0:0, 1:0, 2:1} and {0:0, 2:1} have the same coefficients, yet Equals returns false. |
| Polynomials.Polynomial.constructor | Polynomial.cs:17-26 | The new dictionary is the zero entry plus each monomial, added in turn. |
| Polynomials.Polynomial.AddInPlace | Polynomial.cs:98-112 | Updates terms to AddTerm(old terms, c, d). |
| Polynomials.Polynomial.AddEach | Polynomial.cs:21-24 | Adds each monomial in turn. |
| Polynomials.Polynomial.IsZero | Polynomial.cs:36-45 | True exactly when every stored coefficient is 0. |
| Polynomials.Polynomial.ToString | Polynomial.cs:59-85 | Returns PolyText.Print of the terms, as written. |
| Polynomials.PrintTerms | Polynomial.cs:65-84 | The loop over the nonzero terms builds exactly PolyText.Render. |
| Polynomials.Polynomial.FromString | Polynomial.cs:86-97 | Returns PolyText.FromStringAsWritten(input) as a fresh polynomial, or its error. |
| Polynomials.Polynomial.GetAllCoefficients | Polynomial.cs:292-301 | A fresh array of the coefficients of GetAllTerms, in order. |
| Polynomials.Polynomial.GetCoefficients | Polynomial.cs:304-313 | A fresh array of the coefficients of GetNonzeroTerms, in order. |
| Polynomials.Polynomial.SumOfCoefficients | Polynomial.cs:314-326 | The sum of the nonzero coefficients, reduced when applyModulo is set. |
| Polynomials.Polynomial.Equals | Polynomial.cs:344-354 | True exactly when MonomialAtDegree agrees at every d in 0 … max(Degree). |
| Polynomials.Polynomial.EqualsMonomial | Polynomial.cs:355-358 | Equals against new Polynomial(m). |
| Polynomials.Polynomial.Add | Polynomial.cs:222-234 | A fresh polynomial holding PolyOps.Add of the operands. |
| Polynomials.Polynomial.Multiply | Polynomial.cs:113-126 | A fresh polynomial holding PolyOps.Multiply, built row by row. |
| Polynomials.Polynomial.AddRow | Polynomial.cs:119-123 | The inner loop adds the products of one term with each term of the other operand, in order: the terms become AddAll of that row. |
| Polynomials.Polynomial.Negate | Polynomial.cs:251-254 | A fresh polynomial holding PolyOps.Negate. |
| Polynomials.Polynomial.Subtract | Polynomial.cs:235-238 | A fresh polynomial holding PolyOps.Subtract. |
| Polynomials.Polynomial.Copy | Polynomial.cs:260-268 | A fresh polynomial holding PolyOps.Copy. |
| Polynomials.Polynomial.BasicMultinomial | Polynomial.cs:46-58 | n < 0 is ArgumentError. Otherwise a fresh 1 + x + … + x^(n-1). |
| Polynomials.Polynomial.LongDivide | Polynomial.cs:182-221 | The remainder is Division.PolynomialMod of the dividend. The quotient object, when there is one, has the quotient terms added to what it held. A dividend that is already done is returned itself. |
| Polynomials.Polynomial.Divide | Polynomial.cs:168-173 | Returns the zero object it was given, now holding the quotient, and the remainder, as Division.LongDivide says; or its error. |
| Polynomials.Polynomial.PolynomialMod | Polynomial.cs:175-180 | The remainder alone, as Division.PolynomialMod says. |
| Polynomials.Polynomial.Power | Polynomial.cs:128-166 | The square-and-multiply loop returns exactly Powers.Power. |
| Polynomials.CoefficientArray | Polynomial.cs:292-313 | Copies the coefficients of a term list into a fresh array. |
| PolyText.RenderStep | Polynomial.cs:65-84 | One iteration: a term's piece, then the rest with the first-term flag cleared only by a positive term. |
| PolyText.Print | Polynomial.cs:59-85 | The definition of ToString as written: "0" for a zero polynomial, else the loop over the nonzero terms with the first-term flag cleared only by a non-negative term. RenderStep, FlagMatters, PrintAgreement and RemainderText state its meaning. |
| PolyText.PrintCorrected | Polynomial.cs:59-85 | The definition of ToString as evidently intended: every term clears the first-term flag. PrintAgreement and PrintCorrectedRoundTrip state its meaning. |
| PolyText.FromStringAsWritten | Polynomial.cs:86-97 | The definition of FromString as written: rewrite, split on both signs, parse each piece, build a new polynomial. MinusSignLost and DifferenceReadAsSum state its meaning. |
| PolyText.FromStringCorrected | Polynomial.cs:86-97 | The definition of FromString split at `+` only, so that each term keeps its sign. PrintCorrectedRoundTrip states its meaning. |
| PolyText.FlagMatters | Polynomial.cs:61-77 | The first-term flag changes the text unless every term is negative. |
| PolyText.PrintAgreement | Polynomial.cs:59-85 | The printer as written agrees with the corrected one exactly when the polynomial is zero or no non-negative term follows a negative leading term (so -x - 1 prints alike, -2x + 3 does not). |
| PolyText.RemainderText | Polynomial.cs:59-85 | -2x + 3 prints as " - 2x3", and the corrected printer gives " - 2x + 3". |
| PolyText.SplitFrom | Polynomial.cs:89 | String.Split with RemoveEmptyEntries: the pieces are nonempty and hold no separator. |
| PolyText.SplitKeepsText | Polynomial.cs:89 | Joining the pieces gives back the text without its separators. |
| PolyText.Collect | Polynomial.cs:91-95 | The loop of Monomial.FromString calls stops at the first error. The result is Ok exactly when every piece parses, with the parsed monomials in order. |
| PolyText.MinusSignLost | Polynomial.cs:88-89 | Parsing as written gives the same polynomial after every `-` is replaced by `+`. |
| PolyText.DifferenceReadAsSum | Polynomial.cs:88-89 | "a-b" parses as "a+b". |
| PolyText.ParseTermText | Polynomial.cs:70-80 | Each printed term reads back as the monomial it was printed from. |
| PolyText.ReadBack | Polynomial.cs:86-97 | Splitting and parsing the corrected text rebuilds the polynomial's copy. |
| PolyText.PrintCorrectedRoundTrip | Polynomial.cs:59-97 | The corrected parser reads back what the corrected printer prints, giving the copy of any polynomial with non-negative degrees. |
| PolyText.PrintRoundTrip | Polynomial.cs:59-97 | Print and FromString as written round-trip polynomials whose coefficients are all non-negative. |
| AKS.AKSStep | AKS.cs:17-25 | Sets the modulus to N and returns (x + a)^N reduced by x^r - 1, as AKS.Step says. |
| AKS.Step | AKS.cs:17-25 | The definition of AKSStep: the binomial and x^r - 1 built under the old context, then Powers.Power under modulus N. StepMeans and StepSucceeds state its meaning. |
| AKS.StepFive | AKS.cs:72-89 | The definition of step five from a on: Overflow when r exceeds int.MaxValue, the first a whose expansion is not Equals to the target gives false, and true past the bound. StepFiveAccepts and StepFiveSound state its meaning. |
| AKS.Decide | AKS.cs:45-92 | The definition of steps two to five once r is known: false when gcd(n, r) ≠ 1, true when n ≤ r, else step five. Step three is absent because it never decides (StepThree). |
| AKS.StepMeans | AKS.cs:17-25 | The expansion is congruent to (x + a)^N modulo x^r - 1 and N, and has degree below r. |
| AKS.StepSucceeds | AKS.cs:17-25 | AKSStep raises nothing: x^r - 1 is monic. |
| AKS.CyclicModulusEntries | AKS.cs:20 | x^r - 1 has entries exactly at degrees 0 and r, with leading coefficient 1 (reduced). |
| AKS.CyclicModulusLead | AKS.cs:20 | x^r - 1 has leading term x^r unless the modulus is 1. |
| AKS.StepThree | AKS.cs:53-60 | Step three as written never declares n composite. |
| AKS.StepThreeCorrected | AKS.cs:53-60 | The intended step three is composite exactly when some a in [2, min(r, n-1)] divides n. |
| AKS.SmallDivisorDecides | AKS.cs:53-60 | When r ≥ n - 1, the intended step three is composite exactly when n is not prime. |
| AKS.StepThreeMissesSix | AKS.cs:53-60 | 6 has a small divisor, yet step three as written lets it through. |
| AKS.FloorSqrt | AKS.cs:70 | The integer square root. |
| AKS.StepFiveLoop | AKS.cs:72-89 | The loop over a = 1 … bound returns exactly AKS.StepFive and leaves the modulus at n once it has run. |
| AKS.StepFiveAccepts | AKS.cs:72-92 | Step five answers true exactly when every a up to the bound passes: AKSStep succeeds and Equals the target x^(n mod r) + a. |
| AKS.StepFiveSound | AKS.cs:72-92 | When step five answers true, every a has an expansion whose coefficients equal those of x^(n mod r) + a. |
| AKS.StepFiveBounded | AKS.cs:70-89 | Step five with bound = the floor of the square root of Totient(r)·GetLog2(n)². |
| AKS.Conclude | AKS.cs:45-92 | Steps two, four and five once r is known. |
| AKS.AKSPrimalityTest | AKS.cs:35-93 | n ≤ 2 or a perfect power gives false. Otherwise r is the least r FindR accepts, and the verdict and new context are Decide's with the exact step-five bound. An unfinished search is OutOfFuel. |
| AKS.FiveDeclaredComposite | AKS.cs:45-50 | 5 is prime and no perfect power, yet FindR returns r = 10, which shares a factor with 5, so the test answers false. |
| AKS.TenAcceptedForFive | Utilities.cs:221-242 | An illustration of OldAccepted, used by FiveDeclaredComposite: the default FindR accepts r = 10 for n = 5. |
| AKS.NothingBelowTenForFive | Utilities.cs:221-242 | The default FindR rejects every r in [2, 10) for n = 5. |
| AKS.CoprimeAcceptedPassesStepTwo | AKS.cs:45-67 | An r found with the gcd test on r itself always passes step two. |
| AKS.FiveDeclaredPrime | AKS.cs:45-67 | With that test, r = 17 for n = 5, and step four declares 5 prime. |

## Left out

- Console output, `Utilities.Warn` (Utilities.cs:14-17) and the `logs` printing in `Polynomial.Power` do not affect results and are not modelled. The same holds for `Globals.logs` and `Globals.safetyChecks`.
- `Program.cs` is not part of this model. Its sample outputs are explained under Findings. `Rational.cs` is not part of this model; the source marks it as unused.
- Floating point:
  - `maxK` in `FindR` (Utilities.cs:217, 247) is an integer parameter, meant to be the integer part of log2(n)².
  - The step-five bound (AKS.cs:70) is the exact floor of √Totient(r)·GetLog2(n), computed as an integer square root. Rounding in `Math.Sqrt` is not modelled.
- Utilities.FindR: the searches are unbounded in the source. The model gives them fuel, the number of candidates tried, and proves only what happens within it. The second branch never ends for n = 0 in the source; the model reports OutOfFuel there.
- AKS.AKSPrimalityTest: the fuel it takes is passed to FindR. Running out of fuel stands for the unbounded search and has no counterpart in the source.
- Division.LongDivide: the source's quotient object is mutated even when a later pass raises. The model states the quotient only on success.
- Polynomials.Polynomial.LongDivide: the shared static `Polynomial.Zero` is passed in as an explicit object, so the aliasing across calls is a parameter, not a global.
- Powers.PowerMeans: excludes the integer modulus 1, under which the source's `Polynomial.One` is not reduced but every product is.
- PolyText.PrintCorrectedRoundTrip and PolyText.PrintRoundTrip: need non-negative degrees (a negative degree prints `x^-1`, which the parser reads differently) and reduced coefficients.
- Monomials.ParseMonomial: `char.IsLetter` is modelled for ASCII letters only, and `BigInteger.Parse` for optional surrounding spaces, an optional `-` and decimal digits.
- Monomials: a monomial is a value. The setter returns a new value, because every `Monomial` the dictionary holds is created by `AddInPlace` and never shared.
- The `Monomial` operator overloads, the implicit conversions, `Parse(long)`, `Parse(int[])`, `Copy`, `Monomial.Add` and `Monomial.Subtract` (Monomial.cs:54-128, 212-235) only forward to modelled members (`Constant`, the constructor, `Polynomial`'s constructor, `Negate`). They are not separate members.
- Contexts with modulus 0 or a negative modulus: every Monomial, Dictionary, PolyOps, Division, Powers, Polynomials and AKS member requires `ctx.Valid()` (no modulus, or a positive one). Under such a modulus the source raises ArgumentException or NotImplementedException from `Utilities.Modulo` on every monomial it builds (Utilities.cs:31-38); that path is modelled in Utilities.Modulo only. The callers in the source set a modulus greater than 1 (Program.cs:52) or N ≥ 3 (AKS.cs:21).
- Division.LeadOk: the division members (Division.Loop and the lemmas about it, Polynomials.Polynomial.LongDivide, Divide and PolynomialMod, Powers.Power with a modulus polynomial) require that, under a modulus m, the divisor's leading coefficient exceeds -m. A divisor built under no modulus or a larger one can break this, and the source then divides with the inverse 1 that ModularMultiplicativeInverse returns for b < -m, so the leading terms need not cancel and termination is not shown. A divisor whose coefficients are reduced under the current modulus meets it, and so does a monic one.
- Polynomials.Polynomial.LongDivide, Divide and PolynomialMod: require that the quotient object is not the divisor itself, so `Divide(p, Polynomial.Zero)`, where the divisor is the shared static that also collects the quotient, is not modelled.
- Text.IsDigit: `char.IsDigit` (Monomial.cs:180, 192) also accepts non-ASCII Unicode decimal digits; the model accepts `0`-`9` only, and BigInteger.Parse likewise.
- Utilities.Totient: the source counts in a 32-bit `int` and loops with an `int` k (Utilities.cs:174-175), which overflow for n ≥ int.MaxValue; the model counts with unbounded integers.
- Monomials.One, Monomials.Zero, Monomials.MinusOne, Powers.OnePoly and the statics behind Polynomials.Polynomial.Of: the source's static fields (Monomial.cs:283-285, Polynomial.cs:31-34) are built at some time before their first use, under whatever modulus is in force then, and keep that value. A session that sets `mod, 17` before the first polynomial operation stores MinusOne as 16, and after `remove mod` negation multiplies by 16. The model fixes the constants at their values under no modulus.
- Division.Loop: the corrected exit also stops on a zero remainder before any division, so it differs from the source for a constant divisor whose leading-term division fails. Under modulus 4, dividing 0 by 2 raises BadModulus in the source (2 has no inverse) and gives quotient 0 and remainder 0 in the model. The as-written loop, Division.AsWrittenLoop, keeps the source's behaviour.
- Utilities.FindIntegerRoot: its doc comment (Utilities.cs:318) says it returns 0 when there is no exact root. The code returns the floor root, and the model follows the code.

## Findings

| source | as written | input that shows it | evidently intended | confidence | as-written member | corrected member |
|---|---|---|---|---|---|---|
| Polynomial.cs:67-81 | After a negative leading term the first-term flag stays set, so the next positive term is printed with no separator. | -2x + 3 prints " - 2x3", which reads back as 23x. | " - 2x + 3" | not executed | PolyText.Print, with PolyText.RemainderText and PolyText.PrintAgreement | PolyText.PrintCorrected, with PolyText.PrintCorrectedRoundTrip |
| Polynomial.cs:88-89 | `-` becomes `+-`, then the text is split on both `+` and `-`, so every minus sign is lost. | "x^2 - 1" is read as x^2 + 1. | Split on `+` only, keeping `-` with its term. | not executed | PolyText.FromStringAsWritten, with PolyText.MinusSignLost and PolyText.DifferenceReadAsSum | PolyText.FromStringCorrected, with PolyText.PrintCorrectedRoundTrip |
| Polynomial.cs:327-332, 344-354 | An absent degree compares as Monomial.Zero of degree 0, so a stored zero entry at a positive degree never matches it. | {0:0, 1:0, 2:1} vs {0:0, 2:1}: both are x², yet Equals answers false. | Compare coefficients at every degree. | not executed | Equality.StoredZeroUnequal | Equality.SameCoefficientsMeans |
| Polynomial.cs:31, 184, 213 | Every Divide adds its quotient into the shared static Polynomial.Zero. | Two successive Divide calls: the second quotient also holds the first. | A fresh zero quotient per call. | not executed | Division.QuotientAccumulates | Division.DivisionIdentity |
| Polynomial.cs:197-220 | The loop stops only when the remainder's degree is below the divisor's. A zero remainder has degree 0, so a constant divisor never stops it. | Divide(0, 2) loops forever. | Also stop on a zero remainder. | not executed | Division.ZeroByTwoDiverges, with Division.ConstantDivisorDiverges | Division.ConstantDivisorCorrected, with Division.DivisionIdentity |
| Utilities.cs:223-228 | The gcd test is made on r before it is incremented, so the r returned is only known to have r - 1 coprime to n. | n = 5: r = 10, and gcd(5, 10) = 5 makes AKS declare 5 composite. | Test gcd on the r that is returned. | not executed | AKS.FiveDeclaredComposite | AKS.FiveDeclaredPrime, with AKS.CoprimeAcceptedPassesStepTwo |
| Utilities.cs:278 | The power-of-two shortcut also accepts 2 = 2^1, so AKS step one declares the prime 2 composite. | n = 2: IsPerfectPower(2) is true and AKSPrimalityTest(2) is false. | Accept powers of two from 4 on; 2 is prime. | not executed | Utilities.IsPerfectPower, with AKS.AKSPrimalityTest | Utilities.IsPerfectPowerCorrected, with Utilities.TwoIsNoPower |
| AKS.cs:53-60 | Step three tests a % n for a < n, which is never 0. | n = 6, r ≥ 2: 2 divides 6, yet step three passes. | Test n % a. | not executed | AKS.StepThree, with AKS.StepThreeMissesSix | AKS.StepThreeCorrected, with AKS.SmallDivisorDecides |

The sample output "-2x3" in Program.cs:129, for `polymod` of 5x^9 + 3x^8 + 7x^3 by x^2 - 1, is
explained by the first two rows up to spacing. The divisor is read as x^2 + 1, which leaves the
remainder -2x + 3 (PolyText.RemainderText, built from Division.ModCongruent's definitions). That
remainder is then printed without its separator. The model prints it " - 2x3", with the leading
" - " the loop writes for a negative term; the sample shows "-2x3", so its spacing differs.
