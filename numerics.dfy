/** The two pieces of floating-point behaviour the algorithm depends on,
    stated over exact reals: the natural logarithm, supplied by the caller
    and characterised by the facts the proofs use, and the IEEE special
    values (NaN and the two infinities) that the selector uses as
    sentinels and comparison start values. */
module Numerics {

  /** `ln` behaves like the natural logarithm in the ways the model relies
      on: it vanishes at one, is positive at two, lies between the two
      bounds `1 - 1/x <= ln x <= x - 1` that hold for every positive `x`,
      and turns products of positive numbers into sums. */
  ghost predicate ValidLn(ln: real -> real) {
    && ln(1.0) == 0.0
    && ln(2.0) > 0.0
    && (forall x: real :: LnBounds(ln, x))
    && (forall x: real, y: real :: LnProduct(ln, x, y))
  }

  /** The two bounds at one point; a proof that needs them at `x` names
      `LnBounds(ln, x)`. */
  ghost predicate LnBounds(ln: real -> real, x: real) {
    0.0 < x ==> 1.0 - 1.0 / x <= ln(x) <= x - 1.0
  }

  /** The product law at one pair of points; a proof that needs it names
      `LnProduct(ln, x, y)`. */
  ghost predicate LnProduct(ln: real -> real, x: real, y: real) {
    0.0 < x && 0.0 < y ==> ln(x * y) == ln(x) + ln(y)
  }

  lemma LnOfProduct(ln: real -> real, x: real, y: real)
    requires ValidLn(ln) && 0.0 < x && 0.0 < y
    ensures ln(x * y) == ln(x) + ln(y)
  {
    assert LnProduct(ln, x, y);
  }

  /** The logarithm of a reciprocal is the negated logarithm. */
  lemma LnReciprocal(ln: real -> real, x: real)
    requires ValidLn(ln) && 0.0 < x
    ensures ln(1.0 / x) == -ln(x)
  {
    var r := 1.0 / x;
    assert 0.0 < r && x * r == 1.0;
    LnOfProduct(ln, x, r);
  }

  /** Base-two logarithm, as `std::log2` is in exact arithmetic. */
  function Log2(ln: real -> real, x: real): real
    requires ValidLn(ln)
  {
    ln(x) / ln(2.0)
  }

  /** A double as the selector sees it: a finite value, an infinity or
      the quiet NaN. Signed zero is not distinguished. */
  datatype Ext = NegInf | Fin(v: real) | PosInf | NaN

  /** IEEE `a >= b`: false whenever either operand is NaN. */
  predicate Geq(a: Ext, b: Ext) {
    match (a, b)
    case (NaN, _) => false
    case (_, NaN) => false
    case (PosInf, _) => true
    case (_, NegInf) => true
    case (NegInf, _) => false
    case (Fin(x), Fin(y)) => x >= y
    case (Fin(_), PosInf) => false
  }

  /** IEEE division of two finite doubles, with the division by zero that
      yields an infinity or NaN written out. */
  function Quotient(n: real, d: real): (q: Ext)
    ensures d != 0.0 ==> q == Fin(n / d)
    ensures d == 0.0 ==> (q == NaN <==> n == 0.0)
  {
    if d != 0.0 then Fin(n / d)
    else if n > 0.0 then PosInf
    else if n < 0.0 then NegInf
    else NaN
  }

  /** `numeric_limits<double>::min()`: the smallest positive normal
      double, 2^-1022. It is the start value of the seed scan. */
  const MinPositiveDouble: real := 2.2250738585072014e-308

  /** Among values that are not NaN, IEEE `>=` is a total preorder. */
  lemma GeqTotal(a: Ext, b: Ext)
    requires a != NaN && b != NaN
    ensures Geq(a, b) || Geq(b, a)
  {
  }

  lemma GeqTransitive(a: Ext, b: Ext, c: Ext)
    requires Geq(a, b) && Geq(b, c)
    ensures Geq(a, c)
  {
  }
}
