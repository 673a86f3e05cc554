/**
 * Polynomial.ToString and Polynomial.FromString: the text of a polynomial and the reading of
 * a text as a polynomial.
 *
 * ToString prints the nonzero terms from the highest degree down; a negative term is printed as
 * " - " and its absolute value, a nonnegative one as itself when it is the first, otherwise after
 * " + ". The onFirstTerm flag is only cleared by a nonnegative term, so a nonnegative term that
 * follows a leading negative one gets no separator (Print, against PrintCorrected).
 *
 * FromString turns "-" into "+-", deletes spaces and parentheses, splits at '+' and at '-' and
 * parses each piece as a term; splitting at '-' as well drops every minus sign (FromStringAsWritten,
 * against FromStringCorrected, which splits at '+' only and reads what PrintCorrected prints).
 */
module PolyText {
  import opened Wrappers
  import opened Globals
  import opened Text
  import opened Monomials
  import opened Dictionary
  import Utilities
  import PolyOps

  // ------------------------------------------------------------------ printing

  /** What ToString appends for one term, given the onFirstTerm flag. */
  function Piece(ctx: Context, m: Monomial, first: bool): string
    requires ctx.Valid()
  {
    if IsNegative(m) then " - " + Monomials.ToString(Abs(ctx, m))
    else if first then Monomials.ToString(m)
    else " + " + Monomials.ToString(m)
  }

  /** The loop of ToString over the terms: only a nonnegative term clears onFirstTerm. */
  function Render(ctx: Context, ms: seq<Monomial>, first: bool): string
    requires ctx.Valid()
  {
    if |ms| == 0 then ""
    else Piece(ctx, ms[0], first) + Render(ctx, ms[1..], first && IsNegative(ms[0]))
  }

  /** One turn of the loop of ToString. */
  lemma RenderStep(ctx: Context, ms: seq<Monomial>, i: nat, first: bool)
    requires ctx.Valid() && i < |ms|
    ensures Render(ctx, ms[i..], first) ==
      Piece(ctx, ms[i], first) + Render(ctx, ms[i + 1..], first && IsNegative(ms[i]))
  {
    assert ms[i..][1..] == ms[i + 1..];
  }

  lemma Associate(a: string, b: string, c: string)
    ensures a + (b + c) == (a + b) + c
  {
  }

  /** Polynomial.ToString as written. */
  function Print(ctx: Context, t: Terms): string
    requires ctx.Valid()
  {
    if AllZero(t) then "0" else Render(ctx, NonzeroTerms(t), true)
  }

  /** The loop evidently meant: every term clears onFirstTerm. */
  function RenderCorrected(ctx: Context, ms: seq<Monomial>, first: bool): string
    requires ctx.Valid()
  {
    if |ms| == 0 then ""
    else Piece(ctx, ms[0], first) + RenderCorrected(ctx, ms[1..], false)
  }

  /** Polynomial.ToString with the flag cleared after every term. */
  function PrintCorrected(ctx: Context, t: Terms): string
    requires ctx.Valid()
  {
    if AllZero(t) then "0" else RenderCorrected(ctx, NonzeroTerms(t), true)
  }

  // ------------------------------------------------------------------ reading

  /** No character of s is one of cs. */
  predicate Avoids(s: string, cs: set<char>)
  {
    forall k :: 0 <= k < |s| ==> s[k] !in cs
  }

  /** The rewriting FromString starts with: "-" becomes "+-", spaces and parentheses go. */
  function Clean(s: string): string
  {
    Replace(Replace(Replace(Replace(s, "-", "+-"), " ", ""), "(", ""), ")", "")
  }

  /** The field read so far, unless it is empty (StringSplitOptions.RemoveEmptyEntries). */
  function Flush(field: string): seq<string>
  {
    if |field| == 0 then [] else [field]
  }

  /** String.Split at any of seps without empty entries, after a field already begun. */
  function SplitFrom(s: string, seps: set<char>, field: string): (r: seq<string>)
    requires Avoids(field, seps)
    ensures forall i :: 0 <= i < |r| ==> |r[i]| > 0 && Avoids(r[i], seps)
    decreases |s|
  {
    if |s| == 0 then Flush(field)
    else if s[0] in seps then Flush(field) + SplitFrom(s[1..], seps, "")
    else SplitFrom(s[1..], seps, field + [s[0]])
  }

  function Split(s: string, seps: set<char>): seq<string>
  {
    SplitFrom(s, seps, "")
  }

  /** Monomial.FromString of each piece. */
  function Parsed(ctx: Context, pieces: seq<string>): (rs: seq<Result<Monomial>>)
    requires ctx.Valid()
    ensures |rs| == |pieces| && forall i :: 0 <= i < |pieces| ==> rs[i] == ParseMonomial(ctx, pieces[i])
  {
    seq(|pieces|, i requires 0 <= i < |pieces| => ParseMonomial(ctx, pieces[i]))
  }

  /** The terms of a list of parses, or the error of the first that failed. */
  function Collect(rs: seq<Result<Monomial>>): (r: Result<seq<Monomial>>)
    ensures r.Ok? <==> forall i :: 0 <= i < |rs| ==> rs[i].Ok?
    ensures r.Ok? ==> |r.value| == |rs| && forall i :: 0 <= i < |rs| ==> rs[i] == Ok(r.value[i])
  {
    if |rs| == 0 then Ok([])
    else
      var init := rs[..|rs| - 1];
      assert forall i :: 0 <= i < |init| ==> init[i] == rs[i];
      match Collect(init)
      case Err(e) => Err(e)
      case Ok(ms) =>
        match rs[|rs| - 1]
        case Err(e) => Err(e)
        case Ok(m) => Ok(ms + [m])
  }

  /** The loop of FromString: each piece parsed in turn, stopping at the first that fails. */
  function ParseAll(ctx: Context, pieces: seq<string>): Result<seq<Monomial>>
    requires ctx.Valid()
  {
    Collect(Parsed(ctx, pieces))
  }

  /** The polynomial of the parsed pieces: new Polynomial() and AddInPlace of each. */
  function Build(ctx: Context, pieces: seq<string>): Result<Terms>
    requires ctx.Valid()
  {
    match ParseAll(ctx, pieces)
    case Err(e) => Err(e)
    case Ok(ms) => Ok(PolyOps.New(ctx, ms))
  }

  /** The separators FromString splits at. */
  const Signs: set<char> := {'+', '-'}

  /** Polynomial.FromString as written. */
  function FromStringAsWritten(ctx: Context, input: string): Result<Terms>
    requires ctx.Valid()
  {
    Build(ctx, Split(Clean(input), Signs))
  }

  /** Polynomial.FromString splitting at '+' only, so that "+-" keeps the sign of the term. */
  function FromStringCorrected(ctx: Context, input: string): Result<Terms>
    requires ctx.Valid()
  {
    Build(ctx, Split(Clean(input), {'+'}))
  }

  // ------------------------------------------------------------------ properties of printing

  /** With onFirstTerm already cleared, the two loops print the same. */
  lemma {:induction false} RenderWithoutFlag(ctx: Context, ms: seq<Monomial>)
    requires ctx.Valid()
    ensures Render(ctx, ms, false) == RenderCorrected(ctx, ms, false)
  {
    if |ms| > 0 {
      RenderWithoutFlag(ctx, ms[1..]);
    }
  }

  /** The text of a term is not empty and does not start with a space. */
  lemma TermTextStart(m: Monomial)
    ensures |Monomials.ToString(m)| > 0 && Monomials.ToString(m)[0] != ' '
  {
  }

  /** Texts with one prefix are equal exactly when what follows the prefix is. */
  lemma Cancel(p: string, x: string, y: string)
    ensures p + x == p + y <==> x == y
  {
    if p + x == p + y {
      assert x == (p + x)[|p|..] && y == (p + y)[|p|..];
    }
  }

  /**
   * The as-written loop prints the same with onFirstTerm set as with it cleared exactly when
   * every term is negative.
   */
  lemma {:induction false} FlagMatters(ctx: Context, ms: seq<Monomial>)
    requires ctx.Valid()
    ensures Render(ctx, ms, true) == Render(ctx, ms, false) <==>
      forall i :: 0 <= i < |ms| ==> IsNegative(ms[i])
  {
    if |ms| > 0 {
      var m := ms[0];
      var rest := Render(ctx, ms[1..], false);
      if IsNegative(m) {
        FlagMatters(ctx, ms[1..]);
        Cancel(Piece(ctx, m, true), Render(ctx, ms[1..], true), rest);
        assert (forall i :: 0 <= i < |ms| ==> IsNegative(ms[i])) <==>
          (forall i :: 0 <= i < |ms[1..]| ==> IsNegative(ms[1..][i])) by {
          forall i | 0 < i < |ms| ensures ms[i] == ms[1..][i - 1] { }
        }
      } else {
        var text := Monomials.ToString(m);
        TermTextStart(m);
        assert Render(ctx, ms, true)[0] == text[0];
        assert Render(ctx, ms, false)[0] == ' ';
      }
    }
  }

  /** Some nonnegative term follows a leading negative one. */
  predicate NegativeLead(ms: seq<Monomial>)
  {
    |ms| > 0 && IsNegative(ms[0]) && exists i :: 0 < i < |ms| && !IsNegative(ms[i])
  }

  /**
   * The as-written ToString prints what the corrected one prints exactly when no nonnegative
   * term follows a leading negative term.
   */
  lemma PrintAgreement(ctx: Context, t: Terms)
    requires ctx.Valid()
    ensures Print(ctx, t) == PrintCorrected(ctx, t) <==> AllZero(t) || !NegativeLead(NonzeroTerms(t))
  {
    if !AllZero(t) {
      var ms := NonzeroTerms(t);
      RenderWithoutFlag(ctx, ms[1..]);
      if IsNegative(ms[0]) {
        FlagMatters(ctx, ms[1..]);
        Cancel(Piece(ctx, ms[0], true), Render(ctx, ms[1..], true), Render(ctx, ms[1..], false));
        if NegativeLead(ms) {
          var i :| 0 < i < |ms| && !IsNegative(ms[i]);
          assert !IsNegative(ms[1..][i - 1]);
        } else {
          forall i | 0 <= i < |ms[1..]| ensures IsNegative(ms[1..][i]) {
            assert ms[1..][i] == ms[i + 1];
          }
        }
      }
    }
  }

  // ------------------------------------------------------------------ properties of reading

  /** One turn of the loop of FromString: a failure ends it, a term is appended. */
  lemma CollectStep(rs: seq<Result<Monomial>>, i: nat, ms: seq<Monomial>)
    requires i < |rs| && Collect(rs[..i]) == Ok(ms)
    ensures rs[i].Err? ==> Collect(rs) == Err(rs[i].error)
    ensures rs[i].Ok? ==> Collect(rs[..i + 1]) == Ok(ms + [rs[i].value])
  {
    var prefix := rs[..i + 1];
    assert prefix[..|prefix| - 1] == rs[..i] && prefix[|prefix| - 1] == rs[i];
    if rs[i].Err? {
      assert Collect(prefix) == Err(rs[i].error);
      CollectPrefixErr(rs, i + 1);
    }
  }

  /** A failure among the first k parses is the failure of the whole list. */
  lemma {:induction false} CollectPrefixErr(rs: seq<Result<Monomial>>, k: nat)
    requires k <= |rs| && Collect(rs[..k]).Err?
    ensures Collect(rs) == Collect(rs[..k])
    decreases |rs| - k
  {
    if k < |rs| {
      CollectPrefixErr(rs[..|rs| - 1], k);
      assert rs[..|rs| - 1][..k] == rs[..k];
    } else {
      assert rs[..k] == rs;
    }
  }

  /** Flattening a list of texts. */
  function Concat(ts: seq<string>): string
  {
    if |ts| == 0 then "" else ts[0] + Concat(ts[1..])
  }

  /** The characters of s that are not separators, in order. */
  function Unseparated(s: string, seps: set<char>): (r: string)
    ensures Avoids(r, seps)
  {
    if |s| == 0 then ""
    else if s[0] in seps then Unseparated(s[1..], seps)
    else [s[0]] + Unseparated(s[1..], seps)
  }

  lemma {:induction false} ConcatAppend(a: seq<string>, b: seq<string>)
    ensures Concat(a + b) == Concat(a) + Concat(b)
  {
    if |a| > 0 {
      assert (a + b)[0] == a[0] && (a + b)[1..] == a[1..] + b;
      ConcatAppend(a[1..], b);
    } else {
      assert a + b == b;
    }
  }

  /** Split loses the separators and nothing else: its fields spell out the rest of the text. */
  lemma {:induction false} SplitKeepsText(s: string, seps: set<char>, field: string)
    requires Avoids(field, seps)
    ensures Concat(SplitFrom(s, seps, field)) == field + Unseparated(s, seps)
    decreases |s|
  {
    if |s| > 0 {
      if s[0] in seps {
        SplitKeepsText(s[1..], seps, "");
        ConcatAppend(Flush(field), SplitFrom(s[1..], seps, ""));
      } else {
        SplitKeepsText(s[1..], seps, field + [s[0]]);
      }
    }
  }

  // ------------------------------------------------------------------ the rewriting, piecewise

  /** Replacing a single character works on each part of a concatenation separately. */
  lemma {:induction false} ReplaceConcat(a: string, b: string, c: char, r: string)
    ensures Replace(a + b, [c], r) == Replace(a, [c], r) + Replace(b, [c], r)
    decreases |a|
  {
    if |a| > 0 {
      assert (a + b)[..1] == a[..1];
      assert (a + b)[1..] == a[1..] + b;
      ReplaceConcat(a[1..], b, c, r);
    } else {
      assert a + b == b;
    }
  }

  lemma ReplaceChar(x: char, c: char, r: string)
    ensures Replace([x], [c], r) == if x == c then r else [x]
  {
    assert [x][..1] == [x];
  }

  lemma CleanConcat(a: string, b: string)
    ensures Clean(a + b) == Clean(a) + Clean(b)
  {
    var a1, b1 := Replace(a, "-", "+-"), Replace(b, "-", "+-");
    ReplaceConcat(a, b, '-', "+-");
    var a2, b2 := Replace(a1, " ", ""), Replace(b1, " ", "");
    ReplaceConcat(a1, b1, ' ', "");
    var a3, b3 := Replace(a2, "(", ""), Replace(b2, "(", "");
    ReplaceConcat(a2, b2, '(', "");
    ReplaceConcat(a3, b3, ')', "");
  }

  /** The rewriting of one character. */
  lemma CleanChar(x: char)
    ensures Clean([x]) == if x == '-' then "+-" else if x in {' ', '(', ')'} then "" else [x]
  {
    ReplaceChar(x, '-', "+-");
    if x == '-' {
      assert Replace("+-", " ", "") == "+-" && Replace("+-", "(", "") == "+-";
      assert Replace("+-", ")", "") == "+-";
    } else {
      ReplaceChar(x, ' ', "");
      if x != ' ' {
        ReplaceChar(x, '(', "");
        if x != '(' {
          ReplaceChar(x, ')', "");
        }
      }
    }
  }

  /** Text without the characters the rewriting touches is left alone. */
  lemma CleanKeeps(s: string)
    requires Avoids(s, {'-', ' ', '(', ')'})
    ensures Clean(s) == s
  {
  }

  // ------------------------------------------------------------------ the minus sign is lost

  /** Clean, one character at a time. */
  lemma CleanCons(s: string)
    requires |s| > 0
    ensures Clean(s) == Clean([s[0]]) + Clean(s[1..])
  {
    assert s == [s[0]] + s[1..];
    CleanConcat([s[0]], s[1..]);
  }

  /** The '-' to '+' rewriting, one character at a time. */
  lemma PlusCons(s: string)
    requires |s| > 0
    ensures Replace(s, "-", "+") == (if s[0] == '-' then "+" else [s[0]]) + Replace(s[1..], "-", "+")
  {
    var head, tail := [s[0]], s[1..];
    calc {
      Replace(s, "-", "+");
      { assert s == head + tail; }
      Replace(head + tail, "-", "+");
      { ReplaceConcat(head, tail, '-', "+"); }
      Replace(head, "-", "+") + Replace(tail, "-", "+");
      { ReplaceChar(s[0], '-', "+"); }
      (if s[0] == '-' then "+" else head) + Replace(tail, "-", "+");
    }
  }

  /** Reading "+-" at '+' and '-' ends the field and starts an empty one, as "+" does. */
  lemma SplitSigns(t: string, field: string)
    requires Avoids(field, Signs)
    ensures SplitFrom("+-" + t, Signs, field) == Flush(field) + SplitFrom(t, Signs, "")
    ensures SplitFrom("+" + t, Signs, field) == Flush(field) + SplitFrom(t, Signs, "")
  {
    assert ("+-" + t)[1..] == "-" + t;
    assert ("-" + t)[1..] == t;
    assert ("+" + t)[1..] == t;
  }

  /** Reading a character that is not a separator. */
  lemma SplitOther(x: char, t: string, seps: set<char>, field: string)
    requires Avoids(field, seps)
    ensures x in seps ==> SplitFrom([x] + t, seps, field) == Flush(field) + SplitFrom(t, seps, "")
    ensures x !in seps ==> SplitFrom([x] + t, seps, field) == SplitFrom(t, seps, field + [x])
  {
    assert ([x] + t)[1..] == t;
  }

  /**
   * Splitting at '+' and '-' reads "+-" where the input had '-' as it reads a single '+':
   * the induction is over the input, with the field begun so far.
   */
  lemma {:induction false} MinusReadAsPlus(s: string, field: string)
    requires Avoids(field, Signs)
    ensures SplitFrom(Clean(s), Signs, field) == SplitFrom(Clean(Replace(s, "-", "+")), Signs, field)
    decreases |s|
  {
    if |s| > 0 {
      var x, rest := s[0], s[1..];
      var plain := if x == '-' then '+' else x;
      var s' := Replace(s, "-", "+");
      CleanCons(s);
      PlusCons(s);
      assert s' == [plain] + Replace(rest, "-", "+");
      CleanCons(s');
      assert s'[0] == plain && s'[1..] == Replace(rest, "-", "+");
      CleanChar(x);
      CleanChar(plain);
      var tail, tail' := Clean(rest), Clean(Replace(rest, "-", "+"));
      assert Clean(s) == Clean([x]) + tail;
      assert Clean(s') == Clean([plain]) + tail';
      if x == '-' {
        SplitSigns(tail, field);
        SplitSigns(tail', field);
        MinusReadAsPlus(rest, "");
      } else if x in {' ', '(', ')'} {
        assert Clean([x]) == "" && Clean([plain]) == "";
        assert Clean(s) == tail && Clean(s') == tail';
        MinusReadAsPlus(rest, field);
      } else {
        assert Clean([x]) == [x] && plain == x;
        SplitOther(x, tail, Signs, field);
        SplitOther(x, tail', Signs, field);
        if x in Signs {
          MinusReadAsPlus(rest, "");
        } else {
          MinusReadAsPlus(rest, field + [x]);
        }
      }
    }
  }

  /** FromString reads a text as it reads the text with every '-' made a '+'. */
  lemma MinusSignLost(ctx: Context, s: string)
    requires ctx.Valid()
    ensures FromStringAsWritten(ctx, s) == FromStringAsWritten(ctx, Replace(s, "-", "+"))
  {
    MinusReadAsPlus(s, "");
  }

  // ------------------------------------------------------------------ reading back what is printed

  /** The characters the rewriting or the splitting treats specially. */
  const Special: set<char> := {'+', '-', ' ', '(', ')'}

  /** A term ToString prints and FromString can read back: nonzero, reduced, of degree >= 0. */
  predicate Printable(ctx: Context, m: Monomial)
    requires ctx.Valid()
  {
    m.coefficient != 0 && m.degree >= 0 && Utilities.Reduced(ctx, m.coefficient)
  }

  /** The text a term leaves between the separators once the rewriting is done. */
  function TermText(ctx: Context, m: Monomial): string
    requires ctx.Valid()
  {
    if IsNegative(m) then "-" + Monomials.ToString(Abs(ctx, m)) else Monomials.ToString(m)
  }

  function TermTexts(ctx: Context, ms: seq<Monomial>): (ts: seq<string>)
    requires ctx.Valid()
    ensures |ts| == |ms| && forall i :: 0 <= i < |ms| ==> ts[i] == TermText(ctx, ms[i])
  {
    seq(|ms|, i requires 0 <= i < |ms| => TermText(ctx, ms[i]))
  }

  /** Each text after a '+'. */
  function Joined(ts: seq<string>): string
  {
    if |ts| == 0 then "" else "+" + ts[0] + Joined(ts[1..])
  }

  lemma AvoidsConcat(a: string, b: string, cs: set<char>)
    requires Avoids(a, cs) && Avoids(b, cs)
    ensures Avoids(a + b, cs)
  {
    forall k | 0 <= k < |a + b| ensures (a + b)[k] !in cs {
      if k >= |a| {
        assert (a + b)[k] == b[k - |a|];
      }
    }
  }

  /** Printed nonnegative numbers and exponents: digits only. */
  lemma DigitsAvoid(i: int)
    requires i >= 0
    ensures Avoids(IntToString(i), Special)
  {
  }

  /** A term with a nonnegative coefficient and degree is printed without special characters. */
  lemma TermAvoids(m: Monomial)
    requires m.coefficient >= 0 && m.degree >= 0
    ensures Avoids(Monomials.ToString(m), Special)
  {
    DigitsAvoid(m.coefficient);
    DigitsAvoid(m.degree);
    if m.coefficient != 0 && m.degree != 0 {
      var output := if m.degree == 1 then [Symbol] else [Symbol, '^'] + IntToString(m.degree);
      AvoidsConcat([Symbol, '^'], IntToString(m.degree), Special);
      AvoidsConcat(IntToString(m.coefficient), output, Special);
    }
  }

  /** The absolute value of a negative reduced coefficient is reduced, so Abs keeps it. */
  lemma AbsOfNegative(ctx: Context, m: Monomial)
    requires ctx.Valid() && m.coefficient < 0 && Utilities.Reduced(ctx, m.coefficient)
    ensures Abs(ctx, m) == Monomial(-m.coefficient, m.degree)
  {
    MakeReduced(ctx, -m.coefficient, m.degree);
  }

  /** The text of a printable term avoids the separators except for the sign it starts with. */
  lemma TermTextShape(ctx: Context, m: Monomial)
    requires ctx.Valid() && Printable(ctx, m)
    ensures |TermText(ctx, m)| > 0
    ensures IsNegative(m) ==>
      TermText(ctx, m) == "-" + Monomials.ToString(Abs(ctx, m)) && Avoids(Monomials.ToString(Abs(ctx, m)), Special)
    ensures !IsNegative(m) ==> Avoids(TermText(ctx, m), Special)
    ensures Avoids(TermText(ctx, m), {'+'})
  {
    if IsNegative(m) {
      AbsOfNegative(ctx, m);
      TermAvoids(Abs(ctx, m));
    } else {
      TermAvoids(m);
    }
  }

  /** "-1" is read as the coefficient -1. */
  lemma MinusOneText()
    ensures ParseInteger(CoefficientText(NumberChars("-"))) == Ok(-1)
  {
    NumberCharsKeeps("-");
    assert IntToString(-1) == "-1";
    ParseIntToString(-1);
  }

  /** The head "-x" of the text of -x^d: a coefficient of -1 and no '^' or '.'. */
  lemma MinusVariableHead()
    ensures Plain("-") && NumberChars("-" + [Symbol]) == NumberChars("-")
    ensures Count("-" + [Symbol], '^') == 0 && Count("-" + [Symbol], '.') == 0
  {
    NumberCharsConcat("-", [Symbol]);
    assert NumberChars([Symbol]) == "";
    CountZero("-" + [Symbol], '^');
    CountZero("-" + [Symbol], '.');
  }

  /** The text of -x^d. */
  lemma MinusVariableText(d: int)
    requires d > 0
    ensures d == 1 ==> "-" + Monomials.ToString(Monomial(1, d)) == "-" + [Symbol]
    ensures d != 1 ==> "-" + Monomials.ToString(Monomial(1, d)) == "-" + [Symbol] + "^" + IntToString(d)
  {
  }

  /** "-x" and "-x^d", the text of a term -x^d, are read back as it. */
  lemma ParseMinusVariable(ctx: Context, m: Monomial)
    requires ctx.Valid() && m.coefficient == -1 && Utilities.Reduced(ctx, -1) && m.degree > 0
    ensures ParseMonomial(ctx, "-" + Monomials.ToString(Monomial(1, m.degree))) == Ok(m)
  {
    MinusOneText();
    MinusVariableHead();
    MinusVariableText(m.degree);
    if m.degree == 1 {
      ParseDegreeOne(ctx, m, "-");
    } else {
      ParseHigherDegree(ctx, m, "-");
    }
  }

  /** The text of a printable term is read back as the term. */
  lemma ParseTermText(ctx: Context, m: Monomial)
    requires ctx.Valid() && Printable(ctx, m)
    ensures ParseMonomial(ctx, TermText(ctx, m)) == Ok(m)
  {
    if !IsNegative(m) {
      ParseToString(ctx, m);
    } else {
      var c := m.coefficient;
      AbsOfNegative(ctx, m);
      var b := Monomials.ToString(Monomial(-c, m.degree));
      assert IntToString(c) == "-" + IntToString(-c);
      if m.degree == 0 {
        assert "-" + b == IntToString(c);
        ParseConstantTerm(ctx, m);
      } else if c != -1 {
        assert "-" + b == Monomials.ToString(m);
        ParseVariableTerm(ctx, m);
      } else {
        ParseMinusVariable(ctx, m);
      }
    }
  }

  /** The separators ToString prints, rewritten. */
  lemma CleanSeparator(sign: char)
    requires sign == '-' || sign == '+'
    ensures Clean([' ', sign, ' ']) == if sign == '-' then "+-" else "+"
  {
    assert [' ', sign, ' '] == [' '] + ([sign] + [' ']);
    CleanConcat([' '], [sign] + [' ']);
    CleanConcat([sign], [' ']);
    CleanChar(' ');
    CleanChar(sign);
  }

  /** A text that Clean leaves alone, after " - " or " + ". */
  lemma CleanAfter(sign: char, t: string)
    requires sign == '-' || sign == '+'
    requires Avoids(t, Special)
    ensures Clean([' ', sign, ' '] + t) == (if sign == '-' then "+-" else "+") + t
  {
    CleanKeeps(t);
    CleanConcat([' ', sign, ' '], t);
    CleanSeparator(sign);
  }

  /** The rewriting of one printed term: its text, after a '+' unless it opens the output. */
  lemma CleanPiece(ctx: Context, m: Monomial, first: bool)
    requires ctx.Valid() && Printable(ctx, m)
    ensures Clean(Piece(ctx, m, first)) ==
      if first && !IsNegative(m) then TermText(ctx, m) else "+" + TermText(ctx, m)
  {
    TermTextShape(ctx, m);
    if IsNegative(m) {
      CleanAfter('-', Monomials.ToString(Abs(ctx, m)));
      assert " - " == [' ', '-', ' '];
    } else if first {
      CleanKeeps(TermText(ctx, m));
    } else {
      CleanAfter('+', TermText(ctx, m));
      assert " + " == [' ', '+', ' '];
    }
  }

  /** The corrected output, rewritten: the term texts with a '+' before each but a leading one. */
  lemma {:induction false} CleanRendered(ctx: Context, ms: seq<Monomial>, first: bool)
    requires ctx.Valid() && forall i :: 0 <= i < |ms| ==> Printable(ctx, ms[i])
    ensures Clean(RenderCorrected(ctx, ms, first)) ==
      if first && |ms| > 0 && !IsNegative(ms[0]) then TermText(ctx, ms[0]) + Joined(TermTexts(ctx, ms[1..]))
      else Joined(TermTexts(ctx, ms))
  {
    if |ms| > 0 {
      CleanRendered(ctx, ms[1..], false);
      CleanConcat(Piece(ctx, ms[0], first), RenderCorrected(ctx, ms[1..], false));
      CleanPiece(ctx, ms[0], first);
      assert TermTexts(ctx, ms)[1..] == TermTexts(ctx, ms[1..]);
    } else {
      assert Clean("") == "";
    }
  }

  /** Text without separators goes into the field being read. */
  lemma {:induction false} SplitPlain(t: string, rest: string, seps: set<char>, field: string)
    requires Avoids(t, seps) && Avoids(field, seps)
    ensures SplitFrom(t + rest, seps, field) == SplitFrom(rest, seps, field + t)
    decreases |t|
  {
    if |t| > 0 {
      assert (t + rest)[0] == t[0] && (t + rest)[1..] == t[1..] + rest;
      assert field + t == (field + [t[0]]) + t[1..];
      SplitPlain(t[1..], rest, seps, field + [t[0]]);
    } else {
      assert t + rest == rest && field + t == field;
    }
  }

  /** Splitting the joined texts at '+' gives them back. */
  lemma {:induction false} SplitJoined(ts: seq<string>, seps: set<char>, field: string)
    requires '+' in seps && Avoids(field, seps)
    requires forall i :: 0 <= i < |ts| ==> |ts[i]| > 0 && Avoids(ts[i], seps)
    ensures SplitFrom(Joined(ts), seps, field) == Flush(field) + ts
  {
    if |ts| > 0 {
      var rest := Joined(ts[1..]);
      assert Joined(ts) == "+" + (ts[0] + rest);
      SplitOther('+', ts[0] + rest, seps, field);
      SplitPlain(ts[0], rest, seps, "");
      SplitJoined(ts[1..], seps, "" + ts[0]);
      assert "" + ts[0] == ts[0];
    }
  }

  /** The nonzero terms of a dictionary with reduced entries at degrees >= 0 are printable. */
  lemma NonzeroTermsPrintable(ctx: Context, t: Terms)
    requires ctx.Valid() && Stored(ctx, t) && !AllZero(t) && forall d :: d in t ==> d >= 0
    ensures NonzeroTerms(t) == Nonzero(AllTerms(t))
    ensures forall i :: 0 <= i < |NonzeroTerms(t)| ==>
      Printable(ctx, NonzeroTerms(t)[i]) && NonzeroTerms(t)[i].degree in t && t[NonzeroTerms(t)[i].degree] == NonzeroTerms(t)[i].coefficient
  {
    FirstNonzero(t);
    NonzeroIn(AllTerms(t));
    AllTermsEntries(t);
    forall i | 0 <= i < |NonzeroTerms(t)| ensures Printable(ctx, NonzeroTerms(t)[i]) &&
      NonzeroTerms(t)[i].degree in t && t[NonzeroTerms(t)[i].degree] == NonzeroTerms(t)[i].coefficient
    {
      var m := NonzeroTerms(t)[i];
      var j :| 0 <= j < |AllTerms(t)| && AllTerms(t)[j] == m;
    }
  }

  /** Parsing the texts of printable terms gives the terms. */
  lemma ParseTermTexts(ctx: Context, ms: seq<Monomial>)
    requires ctx.Valid() && forall i :: 0 <= i < |ms| ==> Printable(ctx, ms[i])
    ensures ParseAll(ctx, TermTexts(ctx, ms)) == Ok(ms)
  {
    var rs := Parsed(ctx, TermTexts(ctx, ms));
    forall i | 0 <= i < |ms| ensures rs[i] == Ok(ms[i]) {
      ParseTermText(ctx, ms[i]);
    }
    var r := Collect(rs);
    assert r.Ok?;
    assert r.value == ms;
  }

  /** "0" is read as Monomial.Zero. */
  lemma ParseZero(ctx: Context)
    requires ctx.Valid()
    ensures ParseMonomial(ctx, "0") == Ok(Zero)
  {
    var s := IntToString(0);
    ConstantText(0);
    IntToStringSigned(0);
    ParseIntToString(0);
    NumberCharsKeeps(s);
    ParseSmall();
    ParseKnownParts(ctx, s, s, "0", Zero);
    SmallIntegers();
  }

  /** "0" is rewritten and split into itself. */
  lemma SplitZero(seps: set<char>)
    requires seps <= Special
    ensures Split(Clean("0"), seps) == ["0"]
  {
    CleanKeeps("0");
    SplitOther('0', "", seps, "");
    assert "0" == ['0'] + "" && "" + ['0'] == "0";
  }

  /** The single piece "0" builds the polynomial of Monomial.Zero. */
  lemma BuildZero(ctx: Context)
    requires ctx.Valid()
    ensures Build(ctx, ["0"]) == Ok(PolyOps.New(ctx, [Zero]))
  {
    ParseZero(ctx);
    var rs := Parsed(ctx, ["0"]);
    assert rs == [Ok(Zero)];
    CollectOne(Zero);
  }

  lemma CollectOne(m: Monomial)
    ensures Collect([Ok(m)]) == Ok([m])
  {
    var rs: seq<Result<Monomial>> := [Ok(m)];
    assert rs[..0] == [];
    assert Collect(rs[..0]) == Ok([]);
    assert [] + [m] == [m];
  }

  /** The zero polynomial is printed "0", which is read as Monomial.Zero, as Copy builds it. */
  lemma ReadBackZero(ctx: Context, t: Terms, seps: set<char>)
    requires ctx.Valid() && AllZero(t) && seps <= Special
    ensures Build(ctx, Split(Clean(PrintCorrected(ctx, t)), seps)) == Ok(PolyOps.Copy(ctx, t))
  {
    FirstNonzero(t);
    assert NonzeroTerms(t) == [Zero];
    SplitZero(seps);
    BuildZero(ctx);
  }

  /** Splitting the rewritten corrected output of printable terms gives their texts. */
  lemma SplitRendered(ctx: Context, ms: seq<Monomial>, seps: set<char>)
    requires ctx.Valid() && |ms| > 0 && forall i :: 0 <= i < |ms| ==> Printable(ctx, ms[i])
    requires seps == {'+'} || (seps == Signs && forall i :: 0 <= i < |ms| ==> !IsNegative(ms[i]))
    ensures Split(Clean(RenderCorrected(ctx, ms, true)), seps) == TermTexts(ctx, ms)
  {
    CleanRendered(ctx, ms, true);
    var ts := TermTexts(ctx, ms);
    forall i | 0 <= i < |ts| ensures |ts[i]| > 0 && Avoids(ts[i], seps) {
      TermTextShape(ctx, ms[i]);
    }
    if !IsNegative(ms[0]) {
      SplitPlain(ts[0], Joined(ts[1..]), seps, "");
      SplitJoined(ts[1..], seps, "" + ts[0]);
      assert "" + ts[0] == ts[0];
      assert TermTexts(ctx, ms[1..]) == ts[1..];
      assert [ts[0]] + ts[1..] == ts;
    } else {
      SplitJoined(ts, seps, "");
    }
  }

  /**
   * Reading the corrected output at '+', or at '+' and '-' when no coefficient is negative,
   * gives the polynomial back as Copy builds it.
   */
  lemma ReadBack(ctx: Context, t: Terms, seps: set<char>)
    requires ctx.Valid() && Stored(ctx, t) && forall d :: d in t ==> d >= 0
    requires seps == {'+'} || (seps == Signs && forall d :: d in t ==> t[d] >= 0)
    ensures Build(ctx, Split(Clean(PrintCorrected(ctx, t)), seps)) == Ok(PolyOps.Copy(ctx, t))
  {
    if AllZero(t) {
      ReadBackZero(ctx, t, seps);
    } else {
      var ms := NonzeroTerms(t);
      NonzeroTermsPrintable(ctx, t);
      SplitRendered(ctx, ms, seps);
      ParseTermTexts(ctx, ms);
    }
  }

  /**
   * What the corrected ToString prints, the corrected FromString reads back: the polynomial
   * as Copy builds it, from reduced entries at degrees >= 0.
   */
  lemma PrintCorrectedRoundTrip(ctx: Context, t: Terms)
    requires ctx.Valid() && Stored(ctx, t) && forall d :: d in t ==> d >= 0
    ensures FromStringCorrected(ctx, PrintCorrected(ctx, t)) == Ok(PolyOps.Copy(ctx, t))
  {
    ReadBack(ctx, t, {'+'});
  }

  /**
   * When no coefficient is negative (as under a modulus with signs normalised), ToString and
   * FromString as written are a round trip as well.
   */
  lemma PrintRoundTrip(ctx: Context, t: Terms)
    requires ctx.Valid() && Stored(ctx, t) && forall d :: d in t ==> d >= 0 && t[d] >= 0
    ensures FromStringAsWritten(ctx, Print(ctx, t)) == Ok(PolyOps.Copy(ctx, t))
  {
    PrintAgreement(ctx, t);
    if !AllZero(t) {
      NonzeroTermsPrintable(ctx, t);
      assert !IsNegative(NonzeroTerms(t)[0]);
    }
    ReadBack(ctx, t, Signs);
  }

  // ------------------------------------------------------------------ two texts

  /** The remainder -2x + 3, as a dictionary. */
  const Remainder: Terms := map[0 := 3, 1 := -2]

  /** The terms of -2x + 3, from the highest degree down. */
  lemma RemainderTerms()
    ensures NonzeroTerms(Remainder) == [Monomial(-2, 1), Monomial(3, 0)]
  {
    assert Remainder.Keys == {0, 1};
    var k := MaxKey(Remainder.Keys);
    assert k == 1;
    var rest := Without(Remainder, 1);
    assert rest == map[0 := 3];
    assert MaxKey(rest.Keys) == 0;
    assert Without(rest, 0).Keys == {};
    assert AllTerms(Without(rest, 0)) == [];
    assert AllTerms(rest) == [Monomial(3, 0)];
    assert AllTerms(Remainder) == [Monomial(-2, 1), Monomial(3, 0)];
  }

  /** Without a modulus a coefficient is kept as it is. */
  lemma ExactReduce(x: int)
    ensures Utilities.Reduce(Initial, x) == x
  {
    Utilities.ReduceReduced(Initial, x);
  }

  /**
   * ToString prints -2x + 3 as " - 2x3": the 3 follows the negative leading term with no
   * separator. The corrected loop prints " - 2x + 3".
   */
  lemma RemainderText()
    ensures Print(Initial, Remainder) == " - 2x3"
    ensures PrintCorrected(Initial, Remainder) == " - 2x + 3"
  {
    RemainderTerms();
    assert !AllZero(Remainder) by {
      assert Remainder[0] != 0;
    }
    RemainderPieces();
    TwoTerms(Initial, Monomial(-2, 1), Monomial(3, 0));
  }

  /** Two terms, the first of them negative, as ToString and its corrected loop print them. */
  lemma TwoTerms(ctx: Context, a: Monomial, b: Monomial)
    requires ctx.Valid() && IsNegative(a)
    ensures Render(ctx, [a, b], true) == Piece(ctx, a, true) + Piece(ctx, b, true)
    ensures RenderCorrected(ctx, [a, b], true) == Piece(ctx, a, true) + Piece(ctx, b, false)
  {
    var ms := [a, b];
    assert ms[1..] == [b] && ms[1..][1..] == [];
    assert Render(ctx, [b], true) == Piece(ctx, b, true) + "";
    assert RenderCorrected(ctx, [b], false) == Piece(ctx, b, false) + "";
  }

  /** The pieces the two terms of the remainder print as. */
  lemma RemainderPieces()
    ensures Piece(Initial, Monomial(-2, 1), true) == " - 2x"
    ensures Piece(Initial, Monomial(3, 0), true) == "3"
    ensures Piece(Initial, Monomial(3, 0), false) == " + 3"
  {
    ExactReduce(2);
    assert Abs(Initial, Monomial(-2, 1)) == Monomial(2, 1);
    assert Monomials.ToString(Monomial(2, 1)) == "2x";
    assert Monomials.ToString(Monomial(3, 0)) == "3";
  }

  /**
   * FromString reads a - b as it reads a + b, for texts a and b without a minus sign: the
   * divisor "x^2 - 1" of the sample session is read as x^2 + 1.
   */
  lemma DifferenceReadAsSum(ctx: Context, a: string, b: string)
    requires ctx.Valid() && Avoids(a, {'-'}) && Avoids(b, {'-'})
    ensures FromStringAsWritten(ctx, a + "-" + b) == FromStringAsWritten(ctx, a + "+" + b)
  {
    var s := a + "-" + b;
    MinusSignLost(ctx, s);
    ReplaceMinus(a, b);
  }

  lemma ReplaceMinus(a: string, b: string)
    requires Avoids(a, {'-'}) && Avoids(b, {'-'})
    ensures Replace(a + "-" + b, "-", "+") == a + "+" + b
  {
    ReplaceBetween(a, b, '-', "+");
  }

  /** Replacing c in a + [c] + b, where a and b do not hold c, replaces that one c. */
  lemma ReplaceBetween(a: string, b: string, c: char, r: string)
    requires Avoids(a, {c}) && Avoids(b, {c})
    ensures Replace(a + [c] + b, [c], r) == a + r + b
  {
    var tail := [c] + b;
    calc {
      Replace(a + [c] + b, [c], r);
      { assert a + [c] + b == a + tail; }
      Replace(a + tail, [c], r);
      { ReplaceConcat(a, tail, c, r); }
      Replace(a, [c], r) + Replace(tail, [c], r);
      { ReplaceAvoided(a, c, r); ReplaceTail(b, c, r); }
      a + (r + b);
    }
  }

  /** The c at the head of [c] + b is replaced, and b, without c, is left alone. */
  lemma ReplaceTail(b: string, c: char, r: string)
    requires Avoids(b, {c})
    ensures Replace([c] + b, [c], r) == r + b
  {
    ReplaceConcat([c], b, c, r);
    ReplaceChar(c, c, r);
    ReplaceAvoided(b, c, r);
  }

  /** A text without c is left alone. */
  lemma ReplaceAvoided(s: string, c: char, r: string)
    requires Avoids(s, {c})
    ensures Replace(s, [c], r) == s
  {
    assert forall k :: 0 <= k < |s| ==> s[k] != [c][0];
  }
}
