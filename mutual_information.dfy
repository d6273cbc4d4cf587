/** The empirical mutual information of two attributes, stated over their
    columns of observations, and the facts about it that the estimator in
    the dataset relies on: the histogram key that pairs two symbols is
    injective, the histogram therefore counts co-occurrences, and the
    estimate is never negative (Gibbs's inequality). */
module MutualInfo {
  import opened Counting
  import opened Numerics

  /** Number of instances at which `x` holds `a` and `y` holds `b`. */
  function PairCount(x: seq<int>, y: seq<int>, a: int, b: int): (n: nat)
    requires |x| == |y|
    ensures n <= Count(x, a) && n <= Count(y, b)
  {
    if x == [] then 0
    else
      var m := |x| - 1;
      assert x == x[..m] + [x[m]] && y == y[..m] + [y[m]];
      CountAppend(x[..m], x[m], a);
      CountAppend(y[..m], y[m], b);
      PairCount(x[..m], y[..m], a, b) + (if x[m] == a && y[m] == b then 1 else 0)
  }

  /** The histogram keys of the instances: `x[i] * range + y[i]`. */
  function Keys(x: seq<int>, y: seq<int>, range: int): (k: seq<int>)
    requires |x| == |y|
    ensures |k| == |x|
    ensures forall i | 0 <= i < |x| :: k[i] == x[i] * range + y[i]
  {
    seq(|x|, i requires 0 <= i < |x| => x[i] * range + y[i])
  }

  /** Every value of `y` lies in `[0, range)`. */
  ghost predicate InRange(y: seq<int>, range: int) {
    forall i | 0 <= i < |y| :: 0 <= y[i] < range
  }

  /** The key `a * range + b` determines the pair when `b` is a digit
      below `range`. */
  lemma KeyInjective(a: int, b: int, a': int, b': int, range: int)
    requires 0 <= b < range && 0 <= b' < range
    requires a * range + b == a' * range + b'
    ensures a == a' && b == b'
  {
    if a < a' {
      SpreadKeys(a, a', range);
    } else if a' < a {
      SpreadKeys(a', a, range);
    }
  }

  /** Keys with different leading symbols lie at least `range` apart. */
  lemma SpreadKeys(a: int, a': int, range: int)
    requires a < a' && 0 < range
    ensures a' * range >= a * range + range
  {
    var d := a' - a - 1;
    assert d >= 0;
    assert a' * range == (a + 1 + d) * range;
    assert (a + 1 + d) * range == a * range + range + d * range;
    assert d * range >= 0;
  }

  /** The histogram counts co-occurrences: when the second attribute's
      values are digits below `range`, the number of instances with key
      `a * range + b` is the number of instances holding the pair. */
  lemma {:induction false} KeyCountIsPairCount(x: seq<int>, y: seq<int>, range: int, a: int, b: int)
    requires |x| == |y| && InRange(y, range) && 0 <= b < range
    ensures Count(Keys(x, y, range), a * range + b) == PairCount(x, y, a, b)
  {
    if x != [] {
      var m := |x| - 1;
      var ks := Keys(x, y, range);
      assert ks[..m] == Keys(x[..m], y[..m], range);
      assert InRange(y[..m], range);
      KeyCountIsPairCount(x[..m], y[..m], range, a, b);
      if ks[m] == a * range + b {
        KeyInjective(x[m], y[m], a, b, range);
      }
    }
  }

  /** Joint relative frequency of the pair `(a, b)`. */
  function JointProbability(x: seq<int>, y: seq<int>, a: int, b: int): (p: real)
    requires |x| == |y| > 0
    ensures 0.0 <= p <= 1.0
  {
    var c := PairCount(x, y, a, b) as real;
    QuotientMonotone(c, |x| as real, |x| as real);
    DivideBySelf(|x| as real);
    c / |x| as real
  }

  /** Joint relative frequencies of `a` with each of the symbols `d`. */
  function JointRow(x: seq<int>, y: seq<int>, a: int, d: seq<int>): (r: seq<real>)
    requires |x| == |y| > 0
    ensures |r| == |d| && forall i | 0 <= i < |d| :: r[i] >= 0.0
  {
    seq(|d|, i requires 0 <= i < |d| => JointProbability(x, y, a, d[i]))
  }

  /** The joint frequency of `(a, b)` if the two attributes were
      independent: the product of the two marginals. */
  function Independent(x: seq<int>, y: seq<int>, a: int, b: int): real
    requires |x| == |y| > 0
  {
    Probability(x, a) * Probability(y, b)
  }

  /** Products of the marginal of `a` with the marginals of each of the
      symbols `d`: the joint frequencies the row would have if the two
      attributes were independent. */
  function MarginalRow(x: seq<int>, y: seq<int>, a: int, d: seq<int>): (r: seq<real>)
    requires |x| == |y| > 0
    ensures |r| == |d|
  {
    seq(|d|, i requires 0 <= i < |d| => Independent(x, y, a, d[i]))
  }

  /** For symbols that occur, the independent row is positive throughout. */
  lemma MarginalRowPositive(x: seq<int>, y: seq<int>, a: int, d: seq<int>)
    requires |x| == |y| > 0 && a in x
    requires forall b | b in d :: b in y
    ensures Positive(MarginalRow(x, y, a, d))
  {
    forall i | 0 <= i < |d| ensures MarginalRow(x, y, a, d)[i] > 0.0 {
      assert d[i] in d;
      PositiveProduct(Probability(x, a), Probability(y, d[i]));
    }
  }

  /** The independent row is the table of the second attribute scaled by
      the marginal of `a`. */
  lemma MarginalRowIsScaledTable(x: seq<int>, y: seq<int>, a: int, d: seq<int>)
    requires |x| == |y| > 0
    requires forall b | b in d :: b in y
    ensures MarginalRow(x, y, a, d) == Scaled(Probability(x, a), ProbabilityTable(y, d))
  {
    TableEntries(y, d);
    var r := MarginalRow(x, y, a, d);
    var q := Scaled(Probability(x, a), ProbabilityTable(y, d));
    forall t | 0 <= t < |d| ensures r[t] == q[t] {
    }
  }

  /** Every entry is positive. */
  ghost predicate Positive(ms: seq<real>) {
    forall i | 0 <= i < |ms| :: ms[i] > 0.0
  }

  /** Every entry multiplied by `u`. */
  function Scaled(u: real, vs: seq<real>): (r: seq<real>)
    ensures |r| == |vs|
  {
    seq(|vs|, i requires 0 <= i < |vs| => u * vs[i])
  }

  /** `p * log2(p / m)` for a joint probability `p` against the product
      `m` of its marginals, skipped when `p` is zero. */
  function Summand(p: real, m: real, ln: real -> real): real
    requires ValidLn(ln) && m > 0.0
  {
    if p != 0.0 then p * Log2(ln, p / m) else 0.0
  }

  /** Summands over two tables of the same length, added in order. */
  function Bits(js: seq<real>, ms: seq<real>, ln: real -> real): real
    requires ValidLn(ln) && |js| == |ms| && Positive(ms)
  {
    if js == [] then 0.0
    else
      var k := |js| - 1;
      Bits(js[..k], ms[..k], ln) + Summand(js[k], ms[k], ln)
  }

  /** The summands of one value `a` of the first attribute against each of
      the values `d` of the second, added in order: the inner loop. */
  function RowSum(x: seq<int>, y: seq<int>, a: int, d: seq<int>, ln: real -> real): real
    requires ValidLn(ln) && |x| == |y| > 0 && a in x
    requires forall b | b in d :: b in y
  {
    MarginalRowPositive(x, y, a, d);
    Bits(JointRow(x, y, a, d), MarginalRow(x, y, a, d), ln)
  }

  /** The rows of each of the symbols `e` against the symbols `d`, added in
      order: the double loop over value pairs. */
  function TableSum(x: seq<int>, y: seq<int>, e: seq<int>, d: seq<int>, ln: real -> real): real
    requires ValidLn(ln) && |x| == |y| > 0
    requires forall a | a in e :: a in x
    requires forall b | b in d :: b in y
  {
    if e == [] then 0.0
    else
      var a := e[|e| - 1];
      assert a in e;
      TableSum(x, y, e[..|e| - 1], d, ln) + RowSum(x, y, a, d, ln)
  }

  /** Mutual information in bits of two columns of the same length: zero
      when either column holds a single distinct symbol, otherwise the sum
      over all pairs of first-seen symbols. */
  function MutualInformationOf(x: seq<int>, y: seq<int>, ln: real -> real): real
    requires ValidLn(ln) && |x| == |y| > 0
  {
    var e := FirstSeen(x);
    var d := FirstSeen(y);
    if |e| == 1 || |d| == 1 then 0.0 else TableSum(x, y, e, d, ln)
  }

  /** `jp` is the normalised histogram of the two columns: one entry per
      key that occurs, holding the relative frequency of that key. */
  ghost predicate JointTable(jp: map<int, real>, x: seq<int>, y: seq<int>, range: int) {
    && |x| == |y| > 0
    && (forall k :: k in jp <==> k in Keys(x, y, range))
    && (forall k | k in jp :: jp[k] == Count(Keys(x, y, range), k) as real / |x| as real)
  }

  /** Looking a pair up in the normalised histogram, with a missing key
      read as zero, yields the joint probability of the pair. */
  lemma JointLookup(jp: map<int, real>, x: seq<int>, y: seq<int>, range: int, a: int, b: int)
    requires JointTable(jp, x, y, range) && InRange(y, range) && 0 <= b < range
    ensures (if a * range + b in jp then jp[a * range + b] else 0.0) == JointProbability(x, y, a, b)
  {
    KeyCountIsPairCount(x, y, range, a, b);
    if a * range + b !in jp {
      assert Count(Keys(x, y, range), a * range + b) == 0;
    }
  }

  /** One more summand at the end of two tables. */
  lemma BitsAppend(js: seq<real>, ms: seq<real>, p: real, m: real, ln: real -> real)
    requires ValidLn(ln) && |js| == |ms| && Positive(ms) && m > 0.0
    ensures Positive(ms + [m])
    ensures Bits(js + [p], ms + [m], ln) == Bits(js, ms, ln) + Summand(p, m, ln)
  {
    assert (js + [p])[..|js|] == js;
    assert (ms + [m])[..|ms|] == ms;
  }

  /** The joint row over one more symbol. */
  lemma JointRowAppend(x: seq<int>, y: seq<int>, a: int, d: seq<int>, j: int)
    requires |x| == |y| > 0 && 0 <= j < |d|
    ensures JointRow(x, y, a, d[..j + 1]) == JointRow(x, y, a, d[..j]) + [JointProbability(x, y, a, d[j])]
  {
    var r := JointRow(x, y, a, d[..j + 1]);
    var q := JointRow(x, y, a, d[..j]) + [JointProbability(x, y, a, d[j])];
    forall t | 0 <= t <= j ensures r[t] == q[t] {
    }
  }

  /** The independent row over one more symbol. */
  lemma MarginalRowAppend(x: seq<int>, y: seq<int>, a: int, d: seq<int>, j: int)
    requires |x| == |y| > 0 && 0 <= j < |d|
    ensures MarginalRow(x, y, a, d[..j + 1]) == MarginalRow(x, y, a, d[..j]) + [Independent(x, y, a, d[j])]
  {
    var r := MarginalRow(x, y, a, d[..j + 1]);
    var q := MarginalRow(x, y, a, d[..j]) + [Independent(x, y, a, d[j])];
    forall t | 0 <= t <= j ensures r[t] == q[t] {
    }
  }

  lemma ScaledAppend(u: real, vs: seq<real>, v: real)
    ensures Scaled(u, vs + [v]) == Scaled(u, vs) + [u * v]
  {
    assert |Scaled(u, vs + [v])| == |Scaled(u, vs) + [u * v]|;
    forall t | 0 <= t <= |vs| ensures Scaled(u, vs + [v])[t] == (Scaled(u, vs) + [u * v])[t] {
    }
  }

  /** The double sum over one more symbol of the first attribute. */
  lemma TableSumAppend(x: seq<int>, y: seq<int>, e: seq<int>, d: seq<int>, i: int, ln: real -> real)
    requires ValidLn(ln) && |x| == |y| > 0 && 0 <= i < |e|
    requires forall a | a in e :: a in x
    requires forall b | b in d :: b in y
    ensures forall a | a in e[..i + 1] :: a in x
    ensures e[i] in x
    ensures TableSum(x, y, e[..i + 1], d, ln) == TableSum(x, y, e[..i], d, ln) + RowSum(x, y, e[i], d, ln)
  {
    assert e[..i + 1][..i] == e[..i];
    assert forall a | a in e[..i + 1] :: a in e;
  }

  /** Pair counts of `a` against each of the symbols `d`, added up. */
  function PairCountsOver(x: seq<int>, y: seq<int>, a: int, d: seq<int>): nat
    requires |x| == |y|
  {
    if d == [] then 0 else PairCountsOver(x, y, a, d[..|d| - 1]) + PairCount(x, y, a, d[|d| - 1])
  }

  lemma {:induction false} PairCountsOverAppend(x: seq<int>, y: seq<int>, u: int, w: int, a: int, d: seq<int>)
    requires |x| == |y|
    ensures PairCountsOver(x + [u], y + [w], a, d) ==
      PairCountsOver(x, y, a, d) + (if u == a then Count(d, w) else 0)
  {
    if d != [] {
      var m := |x|;
      assert (x + [u])[..m] == x && (y + [w])[..m] == y;
      PairCountsOverAppend(x, y, u, w, a, d[..|d| - 1]);
    }
  }

  /** Splitting the occurrences of `a` by the symbol the other column
      holds accounts for every occurrence once. */
  lemma {:induction false} PairCountsOverCover(x: seq<int>, y: seq<int>, a: int, d: seq<int>)
    requires |x| == |y| && Distinct(d)
    requires forall b :: b in y ==> b in d
    ensures PairCountsOver(x, y, a, d) == Count(x, a)
  {
    if x == [] {
      PairCountsOverEmpty(a, d);
    } else {
      var m := |x| - 1;
      assert x == x[..m] + [x[m]] && y == y[..m] + [y[m]];
      assert forall b :: b in y[..m] ==> b in y;
      PairCountsOverCover(x[..m], y[..m], a, d);
      PairCountsOverAppend(x[..m], y[..m], x[m], y[m], a, d);
      CountOfDistinct(d, y[m]);
      CountAppend(x[..m], x[m], a);
    }
  }

  lemma {:induction false} PairCountsOverEmpty(a: int, d: seq<int>)
    ensures PairCountsOver([], [], a, d) == 0
  {
    if d != [] {
      PairCountsOverEmpty(a, d[..|d| - 1]);
    }
  }

  /** The joint frequencies of `a` with a list of symbols add up to the
      pair counts over that list, relative to the number of instances. */
  lemma {:induction false} JointRowSum(x: seq<int>, y: seq<int>, a: int, d: seq<int>)
    requires |x| == |y| > 0
    ensures Sum(JointRow(x, y, a, d)) == PairCountsOver(x, y, a, d) as real / |x| as real
  {
    if d != [] {
      var k := |d| - 1;
      assert JointRow(x, y, a, d)[..k] == JointRow(x, y, a, d[..k]);
      JointRowSum(x, y, a, d[..k]);
      AddQuotients(PairCountsOver(x, y, a, d[..k]) as real, PairCount(x, y, a, d[k]) as real, |x| as real);
    }
  }

  /** Over all the symbols of the second column, each once, the joint
      frequencies of `a` add up to the marginal probability of `a`. */
  lemma JointRowCover(x: seq<int>, y: seq<int>, a: int, d: seq<int>)
    requires |x| == |y| > 0
    requires Distinct(d) && forall b :: b in y ==> b in d
    ensures Sum(JointRow(x, y, a, d)) == Count(x, a) as real / |x| as real
  {
    JointRowSum(x, y, a, d);
    PairCountsOverCover(x, y, a, d);
  }

  /** So do their independent counterparts. */
  lemma MarginalRowCover(x: seq<int>, y: seq<int>, a: int, d: seq<int>)
    requires |x| == |y| > 0 && a in x
    requires Distinct(d) && forall b :: b in d <==> b in y
    ensures Sum(MarginalRow(x, y, a, d)) == Probability(x, a)
  {
    MarginalRowIsScaledTable(x, y, a, d);
    TableCover(y, d);
    SumScaled(Probability(x, a), ProbabilityTable(y, d));
    ScaleByOne(Probability(x, a), Sum(ProbabilityTable(y, d)));
  }

  /** The probabilities of all the distinct symbols, each once, add up to one. */
  lemma TableCover(y: seq<int>, d: seq<int>)
    requires |y| > 0 && Distinct(d) && forall b :: b in d <==> b in y
    ensures Sum(ProbabilityTable(y, d)) == 1.0
  {
    TableSumIsProbabilityMass(y, d);
    ProbabilityMassIsScaledCount(y, d);
    CountsOverCover(y, d);
    DivideBySelf(|y| as real);
  }

  /** Each row of the estimate is non-negative once it runs over every
      symbol of the second column, each once. */
  lemma RowNonNegative(x: seq<int>, y: seq<int>, a: int, d: seq<int>, ln: real -> real)
    requires ValidLn(ln) && |x| == |y| > 0 && a in x
    requires Distinct(d) && forall b :: b in d <==> b in y
    ensures RowSum(x, y, a, d, ln) >= 0.0
  {
    JointRowCover(x, y, a, d);
    MarginalRowCover(x, y, a, d);
    MarginalRowPositive(x, y, a, d);
    BitsNonNegative(JointRow(x, y, a, d), MarginalRow(x, y, a, d), ln);
  }

  lemma {:induction false} TableNonNegative(x: seq<int>, y: seq<int>, e: seq<int>, d: seq<int>, ln: real -> real)
    requires ValidLn(ln) && |x| == |y| > 0
    requires forall a | a in e :: a in x
    requires Distinct(d) && forall b :: b in d <==> b in y
    ensures TableSum(x, y, e, d, ln) >= 0.0
  {
    if e != [] {
      var a := e[|e| - 1];
      assert a in e;
      TableNonNegative(x, y, e[..|e| - 1], d, ln);
      RowNonNegative(x, y, a, d, ln);
    }
  }

  /** The mutual information of two columns is never negative. */
  lemma MutualInformationNonNegative(x: seq<int>, y: seq<int>, ln: real -> real)
    requires ValidLn(ln) && |x| == |y| > 0
    ensures MutualInformationOf(x, y, ln) >= 0.0
  {
    var e := FirstSeen(x);
    var d := FirstSeen(y);
    if |e| != 1 && |d| != 1 {
      TableNonNegative(x, y, e, d, ln);
    }
  }

  // Gibbs's inequality over plain tables of numbers, with no reference to
  // the columns the numbers come from.

  /** The summand in nats, `p * ln(p / m)`: the summand in bits times `ln 2`. */
  function NatSummand(p: real, m: real, ln: real -> real): real
    requires m > 0.0
  {
    if p != 0.0 then p * ln(p / m) else 0.0
  }

  /** Summands in nats over two tables of the same length. */
  function Nats(js: seq<real>, ms: seq<real>, ln: real -> real): real
    requires |js| == |ms| && Positive(ms)
  {
    if js == [] then 0.0
    else
      var k := |js| - 1;
      Nats(js[..k], ms[..k], ln) + NatSummand(js[k], ms[k], ln)
  }

  /** A table of summands whose joint frequencies add up to no less than
      their independent counterparts has a non-negative sum in bits. */
  lemma BitsNonNegative(js: seq<real>, ms: seq<real>, ln: real -> real)
    requires ValidLn(ln) && |js| == |ms| && Positive(ms)
    requires (forall i | 0 <= i < |js| :: js[i] >= 0.0) && Sum(js) >= Sum(ms)
    ensures Bits(js, ms, ln) >= 0.0
  {
    NatsLowerBound(js, ms, ln);
    BitsInNats(js, ms, ln);
    QuotientMonotone(0.0, Nats(js, ms, ln), ln(2.0));
  }

  lemma {:induction false} BitsInNats(js: seq<real>, ms: seq<real>, ln: real -> real)
    requires ValidLn(ln) && |js| == |ms| && Positive(ms)
    ensures Bits(js, ms, ln) == Nats(js, ms, ln) / ln(2.0)
  {
    if js != [] {
      var k := |js| - 1;
      BitsInNats(js[..k], ms[..k], ln);
      SummandInNats(js[k], ms[k], ln);
      AddQuotients(Nats(js[..k], ms[..k], ln), NatSummand(js[k], ms[k], ln), ln(2.0));
    }
  }

  /** Gibbs's inequality on a table: the sum in nats is at least the
      joint mass minus the independent mass. */
  lemma {:induction false} NatsLowerBound(js: seq<real>, ms: seq<real>, ln: real -> real)
    requires ValidLn(ln) && |js| == |ms| && Positive(ms)
    requires forall i | 0 <= i < |js| :: js[i] >= 0.0
    ensures Nats(js, ms, ln) >= Sum(js) - Sum(ms)
  {
    if js != [] {
      var k := |js| - 1;
      NatsLowerBound(js[..k], ms[..k], ln);
      NatSummandLowerBound(js[k], ms[k], ln);
    }
  }

  lemma SummandInNats(p: real, m: real, ln: real -> real)
    requires ValidLn(ln) && m > 0.0
    ensures Summand(p, m, ln) == NatSummand(p, m, ln) / ln(2.0)
  {
    if p != 0.0 {
      ScaleQuotient(p, ln(p / m), ln(2.0));
    }
  }

  /** Gibbs's bound on one summand: `p ln(p / m) >= p - m`. */
  lemma NatSummandLowerBound(p: real, m: real, ln: real -> real)
    requires ValidLn(ln) && 0.0 <= p && 0.0 < m
    ensures NatSummand(p, m, ln) >= p - m
  {
    if p != 0.0 {
      PositiveQuotient(p, m);
      assert LnBounds(ln, p / m);
      ReciprocalOfQuotient(p, m, p / m);
      ScaleBound(p, ln(p / m), 1.0 - m / p);
      Distribute(p, m);
    }
  }

  lemma {:induction false} SumScaled(u: real, vs: seq<real>)
    ensures Sum(Scaled(u, vs)) == u * Sum(vs)
  {
    if vs != [] {
      var k := |vs| - 1;
      forall i | 0 <= i < k ensures Scaled(u, vs)[..k][i] == Scaled(u, vs[..k])[i] {
      }
      assert Scaled(u, vs)[..k] == Scaled(u, vs[..k]);
      SumScaled(u, vs[..k]);
      DistributeSum(u, Sum(vs[..k]), vs[k]);
    }
  }

  lemma ScaleByOne(u: real, v: real)
    requires v == 1.0
    ensures u * v == u
  {
  }

  lemma DistributeSum(u: real, v: real, w: real)
    ensures u * v + u * w == u * (v + w)
  {
  }

  lemma ScaleQuotient(p: real, u: real, v: real)
    requires v != 0.0
    ensures p * (u / v) == (p * u) / v
  {
  }

  lemma ReciprocalOfQuotient(p: real, m: real, q: real)
    requires 0.0 < p && 0.0 < m && q == p / m
    ensures 1.0 / q == m / p
  {
  }

  lemma ScaleBound(p: real, u: real, w: real)
    requires 0.0 < p && u >= w
    ensures p * u >= p * w
  {
  }

  lemma Distribute(p: real, m: real)
    requires 0.0 < p
    ensures p * (1.0 - m / p) == p - m
  {
  }

  lemma PositiveProduct(u: real, v: real)
    requires 0.0 < u && 0.0 < v
    ensures 0.0 < u * v
  {
  }

  lemma PositiveQuotient(u: real, v: real)
    requires 0.0 < u && 0.0 < v
    ensures 0.0 < u / v
  {
  }

  lemma QuotientMonotone(u: real, v: real, n: real)
    requires 0.0 <= u <= v && 0.0 < n
    ensures 0.0 <= u / n <= v / n
  {
  }
}
