/** Three laws of the empirical estimators: the mutual information of
    `MutualInfo` is symmetric in its two attributes, an attribute's mutual
    information with itself is its entropy, and a column whose `n`
    distinct symbols occur equally often has entropy `log2 n`. The first
    two are proved by regrouping the double sum over first-seen symbol
    pairs into one term per pair. */
module InformationLaws {
  import opened Counting
  import opened Numerics
  import opened MutualInfo
  import opened AttributeInfo

  // ---------------------------------------------------------------------
  // The double sum, term by term

  /** The contribution of the symbol pair `(a, b)`. */
  function Term(x: seq<int>, y: seq<int>, a: int, b: int, ln: real -> real): real
    requires ValidLn(ln) && |x| == |y| > 0 && a in x && b in y
  {
    PositiveProduct(Probability(x, a), Probability(y, b));
    Summand(JointProbability(x, y, a, b), Independent(x, y, a, b), ln)
  }

  /** The terms of `a` against each of the symbols `d`, added in order. */
  function RowTerms(x: seq<int>, y: seq<int>, a: int, d: seq<int>, ln: real -> real): real
    requires ValidLn(ln) && |x| == |y| > 0 && a in x
    requires forall b | b in d :: b in y
  {
    if d == [] then 0.0
    else
      var b := d[|d| - 1];
      assert b in d;
      RowTerms(x, y, a, d[..|d| - 1], ln) + Term(x, y, a, b, ln)
  }

  /** The terms of each of the symbols `e` against `b`, added in order. */
  function ColTerms(x: seq<int>, y: seq<int>, e: seq<int>, b: int, ln: real -> real): real
    requires ValidLn(ln) && |x| == |y| > 0 && b in y
    requires forall a | a in e :: a in x
  {
    if e == [] then 0.0
    else
      var a := e[|e| - 1];
      assert a in e;
      ColTerms(x, y, e[..|e| - 1], b, ln) + Term(x, y, a, b, ln)
  }

  /** The double sum added row by row. */
  function RowsTotal(x: seq<int>, y: seq<int>, e: seq<int>, d: seq<int>, ln: real -> real): real
    requires ValidLn(ln) && |x| == |y| > 0
    requires forall a | a in e :: a in x
    requires forall b | b in d :: b in y
  {
    if e == [] then 0.0
    else
      var a := e[|e| - 1];
      assert a in e;
      RowsTotal(x, y, e[..|e| - 1], d, ln) + RowTerms(x, y, a, d, ln)
  }

  /** The double sum added column by column. */
  function ColsTotal(x: seq<int>, y: seq<int>, e: seq<int>, d: seq<int>, ln: real -> real): real
    requires ValidLn(ln) && |x| == |y| > 0
    requires forall a | a in e :: a in x
    requires forall b | b in d :: b in y
  {
    if d == [] then 0.0
    else
      var b := d[|d| - 1];
      assert b in d;
      ColsTotal(x, y, e, d[..|d| - 1], ln) + ColTerms(x, y, e, b, ln)
  }

  /** The estimator's inner loop adds exactly the pair terms of its row. */
  lemma {:induction false} RowSumIsRowTerms(x: seq<int>, y: seq<int>, a: int, d: seq<int>, ln: real -> real)
    requires ValidLn(ln) && |x| == |y| > 0 && a in x
    requires forall b | b in d :: b in y
    ensures RowSum(x, y, a, d, ln) == RowTerms(x, y, a, d, ln)
  {
    if d != [] {
      var k := |d| - 1;
      assert forall v | v in d[..k] :: v in d;
      RowSumIsRowTerms(x, y, a, d[..k], ln);
      RowSumStep(x, y, a, d, ln);
    }
  }

  /** One more symbol at the end of the inner loop adds its pair term. */
  lemma RowSumStep(x: seq<int>, y: seq<int>, a: int, d: seq<int>, ln: real -> real)
    requires ValidLn(ln) && |x| == |y| > 0 && a in x && d != []
    requires forall b | b in d :: b in y
    ensures forall b | b in d[..|d| - 1] :: b in y
    ensures d[|d| - 1] in y
    ensures RowSum(x, y, a, d, ln) == RowSum(x, y, a, d[..|d| - 1], ln) + Term(x, y, a, d[|d| - 1], ln)
  {
    assert d[|d| - 1] in d;
    assert forall v | v in d[..|d| - 1] :: v in d;
    assert d[..|d| - 1 + 1] == d;
    TermIs(x, y, a, d[|d| - 1], ln);
    JointRowLast(x, y, a, d);
    MarginalRowLast(x, y, a, d);
    MarginalRowPositive(x, y, a, d[..|d| - 1]);
    MarginalRowPositive(x, y, a, d);
    BitsAppend(JointRow(x, y, a, d[..|d| - 1]), MarginalRow(x, y, a, d[..|d| - 1]),
               JointProbability(x, y, a, d[|d| - 1]), Independent(x, y, a, d[|d| - 1]), ln);
    RowSumIs(x, y, a, d, ln);
    RowSumIs(x, y, a, d[..|d| - 1], ln);
  }

  /** The joint and independent rows end with the last symbol's entries. */
  lemma JointRowLast(x: seq<int>, y: seq<int>, a: int, d: seq<int>)
    requires |x| == |y| > 0 && d != []
    ensures JointRow(x, y, a, d) == JointRow(x, y, a, d[..|d| - 1]) + [JointProbability(x, y, a, d[|d| - 1])]
  {
    JointRowAppend(x, y, a, d, |d| - 1);
    assert d[..|d| - 1 + 1] == d;
  }

  lemma MarginalRowLast(x: seq<int>, y: seq<int>, a: int, d: seq<int>)
    requires |x| == |y| > 0 && d != []
    ensures MarginalRow(x, y, a, d) == MarginalRow(x, y, a, d[..|d| - 1]) + [Independent(x, y, a, d[|d| - 1])]
  {
    MarginalRowAppend(x, y, a, d, |d| - 1);
    assert d[..|d| - 1 + 1] == d;
  }

  lemma RowSumIs(x: seq<int>, y: seq<int>, a: int, d: seq<int>, ln: real -> real)
    requires ValidLn(ln) && |x| == |y| > 0 && a in x
    requires forall b | b in d :: b in y
    ensures Positive(MarginalRow(x, y, a, d))
    ensures RowSum(x, y, a, d, ln) == Bits(JointRow(x, y, a, d), MarginalRow(x, y, a, d), ln)
  {
    MarginalRowPositive(x, y, a, d);
  }

  /** The estimator's double loop adds the double sum row by row. */
  lemma {:induction false} TableSumIsRowsTotal(x: seq<int>, y: seq<int>, e: seq<int>, d: seq<int>, ln: real -> real)
    requires ValidLn(ln) && |x| == |y| > 0
    requires forall a | a in e :: a in x
    requires forall b | b in d :: b in y
    ensures TableSum(x, y, e, d, ln) == RowsTotal(x, y, e, d, ln)
  {
    if e != [] {
      var k := |e| - 1;
      assert e[k] in e;
      assert forall v | v in e[..k] :: v in e;
      TableSumIsRowsTotal(x, y, e[..k], d, ln);
      RowSumIsRowTerms(x, y, e[k], d, ln);
    }
  }

  /** Extending the rows by one symbol `a` adds `a`'s row to the column
      sums. */
  lemma {:induction false} ColsTotalAppend(x: seq<int>, y: seq<int>, e: seq<int>, a: int, d: seq<int>, ln: real -> real)
    requires ValidLn(ln) && |x| == |y| > 0 && a in x
    requires forall v | v in e :: v in x
    requires forall b | b in d :: b in y
    ensures ColsTotal(x, y, e + [a], d, ln) == ColsTotal(x, y, e, d, ln) + RowTerms(x, y, a, d, ln)
  {
    if d != [] {
      var k := |d| - 1;
      assert d[k] in d;
      assert forall v | v in d[..k] :: v in d;
      ColsTotalAppend(x, y, e, a, d[..k], ln);
      assert (e + [a])[..|e|] == e;
    }
  }

  /** Row by row or column by column, the double sum is the same. */
  lemma {:induction false} RowsTotalIsColsTotal(x: seq<int>, y: seq<int>, e: seq<int>, d: seq<int>, ln: real -> real)
    requires ValidLn(ln) && |x| == |y| > 0
    requires forall a | a in e :: a in x
    requires forall b | b in d :: b in y
    ensures RowsTotal(x, y, e, d, ln) == ColsTotal(x, y, e, d, ln)
  {
    if e == [] {
      ColsOfNoRows(x, y, d, ln);
    } else {
      var k := |e| - 1;
      assert e[k] in e;
      assert forall v | v in e[..k] :: v in e;
      RowsTotalIsColsTotal(x, y, e[..k], d, ln);
      ColsTotalAppend(x, y, e[..k], e[k], d, ln);
      assert e[..k] + [e[k]] == e;
    }
  }

  lemma {:induction false} ColsOfNoRows(x: seq<int>, y: seq<int>, d: seq<int>, ln: real -> real)
    requires ValidLn(ln) && |x| == |y| > 0
    requires forall b | b in d :: b in y
    ensures ColsTotal(x, y, [], d, ln) == 0.0
  {
    if d != [] {
      assert forall v | v in d[..|d| - 1] :: v in d;
      ColsOfNoRows(x, y, d[..|d| - 1], ln);
    }
  }

  // ---------------------------------------------------------------------
  // Symmetry

  /** Pairs co-occur as often whichever attribute is read first. */
  lemma {:induction false} PairCountSwap(x: seq<int>, y: seq<int>, a: int, b: int)
    requires |x| == |y|
    ensures PairCount(x, y, a, b) == PairCount(y, x, b, a)
  {
    if x != [] {
      var m := |x| - 1;
      PairCountSwap(x[..m], y[..m], a, b);
    }
  }

  /** A pair's term is the same with the attributes exchanged. */
  lemma TermSwap(x: seq<int>, y: seq<int>, a: int, b: int, ln: real -> real)
    requires ValidLn(ln) && |x| == |y| > 0 && a in x && b in y
    ensures Term(x, y, a, b, ln) == Term(y, x, b, a, ln)
  {
    PairCountSwap(x, y, a, b);
    assert JointProbability(x, y, a, b) == JointProbability(y, x, b, a);
    assert Independent(x, y, a, b) == Independent(y, x, b, a);
  }

  /** A column of one table is the row of the exchanged table. */
  lemma {:induction false} ColTermsSwap(x: seq<int>, y: seq<int>, e: seq<int>, b: int, ln: real -> real)
    requires ValidLn(ln) && |x| == |y| > 0 && b in y
    requires forall a | a in e :: a in x
    ensures ColTerms(x, y, e, b, ln) == RowTerms(y, x, b, e, ln)
  {
    if e != [] {
      var k := |e| - 1;
      assert e[k] in e;
      assert forall v | v in e[..k] :: v in e;
      ColTermsSwap(x, y, e[..k], b, ln);
      TermSwap(x, y, e[k], b, ln);
    }
  }

  /** The column sums of one table are the row sums of the exchanged one. */
  lemma {:induction false} ColsTotalSwap(x: seq<int>, y: seq<int>, e: seq<int>, d: seq<int>, ln: real -> real)
    requires ValidLn(ln) && |x| == |y| > 0
    requires forall a | a in e :: a in x
    requires forall b | b in d :: b in y
    ensures ColsTotal(x, y, e, d, ln) == RowsTotal(y, x, d, e, ln)
  {
    if d != [] {
      var k := |d| - 1;
      assert d[k] in d;
      assert forall v | v in d[..k] :: v in d;
      ColsTotalSwap(x, y, e, d[..k], ln);
      ColTermsSwap(x, y, e, d[k], ln);
    }
  }

  /** Mutual information is symmetric: `I(X; Y) = I(Y; X)`. */
  lemma MutualInformationSymmetric(x: seq<int>, y: seq<int>, ln: real -> real)
    requires ValidLn(ln) && |x| == |y| > 0
    ensures MutualInformationOf(x, y, ln) == MutualInformationOf(y, x, ln)
  {
    var e := FirstSeen(x);
    var d := FirstSeen(y);
    if |e| != 1 && |d| != 1 {
      TableSumIsRowsTotal(x, y, e, d, ln);
      RowsTotalIsColsTotal(x, y, e, d, ln);
      ColsTotalSwap(x, y, e, d, ln);
      TableSumIsRowsTotal(y, x, d, e, ln);
    }
  }

  // ---------------------------------------------------------------------
  // Self-information

  /** Against itself a column pairs every symbol only with itself. */
  lemma {:induction false} SelfPairCount(x: seq<int>, a: int, b: int)
    ensures PairCount(x, x, a, b) == if a == b then Count(x, a) else 0
  {
    if x != [] {
      SelfPairCount(x[..|x| - 1], a, b);
    }
  }

  /** Two different symbols contribute nothing against themselves. */
  lemma OffDiagonalTerm(x: seq<int>, a: int, b: int, ln: real -> real)
    requires ValidLn(ln) && |x| > 0 && a in x && b in x && a != b
    ensures Term(x, x, a, b, ln) == 0.0
  {
    SelfPairCount(x, a, b);
  }

  /** A symbol against itself contributes `-p log2 p`, its share of the
      entropy: the joint frequency is `p` and the product of marginals
      `p * p`, so the logarithm is that of `1 / p`. */
  lemma DiagonalTerm(x: seq<int>, a: int, p: real, ln: real -> real)
    requires ValidLn(ln) && |x| > 0 && a in x && p == Probability(x, a)
    ensures Term(x, x, a, a, ln) == EntropyShare(p, ln)
  {
    SelfPairCount(x, a, a);
    assert JointProbability(x, x, a, a) == p;
    SquareOf(Probability(x, a), p);
    RatioToSquare(p);
    SelfSummand(p, p * p, ln);
    assert Independent(x, x, a, a) == p * p;
    SummandCongruent(JointProbability(x, x, a, a), Independent(x, x, a, a), p, p * p, ln);
    TermIs(x, x, a, a, ln);
  }

  lemma TermIs(x: seq<int>, y: seq<int>, a: int, b: int, ln: real -> real)
    requires ValidLn(ln) && |x| == |y| > 0 && a in x && b in y
    ensures Independent(x, y, a, b) > 0.0
    ensures Term(x, y, a, b, ln) == Summand(JointProbability(x, y, a, b), Independent(x, y, a, b), ln)
  {
  }

  lemma SummandCongruent(p: real, m: real, p': real, m': real, ln: real -> real)
    requires ValidLn(ln) && m > 0.0 && p == p' && m == m'
    ensures Summand(p, m, ln) == Summand(p', m', ln)
  {
  }

  lemma SquareOf(u: real, p: real)
    requires u == p
    ensures u * u == p * p
  {
  }

  /** A symbol's share `-p log2 p` of the entropy, for probability `p`. */
  function EntropyShare(p: real, ln: real -> real): real
    requires ValidLn(ln)
  {
    -1.0 * (p * ln(p)) / ln(2.0)
  }

  /** `p log2(p / p^2) = -p ln p / ln 2`. */
  lemma SelfSummand(p: real, m: real, ln: real -> real)
    requires ValidLn(ln) && 0.0 < p && m == p * p && m > 0.0
    ensures Summand(p, m, ln) == EntropyShare(p, ln)
  {
    var q := p / m;
    RatioToSquare(p);
    assert q == 1.0 / p;
    LnReciprocal(ln, p);
    assert ln(q) == -ln(p);
    assert Summand(p, m, ln) == p * (ln(q) / ln(2.0));
    NegatedScaledQuotient(p, ln(p), ln(2.0));
  }

  lemma RatioToSquare(p: real)
    requires 0.0 < p
    ensures p * p > 0.0 && p / (p * p) == 1.0 / p
  {
  }

  lemma NegatedScaledQuotient(p: real, u: real, w: real)
    requires w > 0.0
    ensures p * (-u / w) == -1.0 * (p * u) / w
  {
  }

  /** Over a list of distinct symbols the row of `a` against its own
      column is `a`'s diagonal term when `a` is listed, and zero when it
      is not. */
  lemma {:induction false} SelfRowTerms(x: seq<int>, a: int, d: seq<int>, ln: real -> real)
    requires ValidLn(ln) && |x| > 0 && a in x
    requires Distinct(d) && forall b | b in d :: b in x
    ensures RowTerms(x, x, a, d, ln) == if a in d then Term(x, x, a, a, ln) else 0.0
  {
    if d != [] {
      var k := |d| - 1;
      var b := d[k];
      assert b in d;
      assert forall v | v in d[..k] :: v in d;
      assert d == d[..k] + [b];
      assert b !in d[..k];
      SelfRowTerms(x, a, d[..k], ln);
      assert RowTerms(x, x, a, d, ln) == RowTerms(x, x, a, d[..k], ln) + Term(x, x, a, b, ln);
      if b != a {
        OffDiagonalTerm(x, a, b, ln);
        assert (a in d) == (a in d[..k]);
      } else {
        assert a in d && a !in d[..k];
      }
    }
  }

  /** Row by row, the self-table of the symbols `e` adds up to the entropy
      of their table, when every row runs over the distinct list `d` that
      holds them. */
  lemma {:induction false} SelfRowsTotal(x: seq<int>, e: seq<int>, d: seq<int>, ln: real -> real)
    requires ValidLn(ln) && |x| > 0
    requires Distinct(d) && forall b | b in d :: b in x
    requires forall a | a in e :: a in d
    ensures RowsTotal(x, x, e, d, ln) == TableEntropy(ProbabilityTable(x, e), ln)
  {
    if e != [] {
      var k := |e| - 1;
      var a := e[k];
      assert a in e;
      assert forall v | v in e[..k] :: v in e;
      assert a in d;
      SelfRowsTotal(x, e[..k], d, ln);
      SelfRowTerms(x, a, d, ln);
      var p := Probability(x, a);
      DiagonalTerm(x, a, p, ln);
      TableEntropyStep(x, e, p, ln);
    }
  }

  /** The entropy of the table over one more symbol, of probability `p`,
      gains that symbol's share `-p log2 p`. */
  lemma TableEntropyStep(x: seq<int>, e: seq<int>, p: real, ln: real -> real)
    requires ValidLn(ln) && |x| > 0 && e != [] && forall a | a in e :: a in x
    requires p == Probability(x, e[|e| - 1])
    ensures forall a | a in e[..|e| - 1] :: a in x
    ensures TableEntropy(ProbabilityTable(x, e), ln) ==
      TableEntropy(ProbabilityTable(x, e[..|e| - 1]), ln) + EntropyShare(p, ln)
  {
    SumPLnPStep(x, e, p, ln);
    TableEntropySplit(ProbabilityTable(x, e), ProbabilityTable(x, e[..|e| - 1]), p, ln);
  }

  /** A table whose entropy sum exceeds another's by `p ln p` has that
      symbol's share more entropy. */
  lemma TableEntropySplit(t: seq<real>, t0: seq<real>, p: real, ln: real -> real)
    requires ValidLn(ln) && SumPLnP(t, ln) == SumPLnP(t0, ln) + p * ln(p)
    ensures TableEntropy(t, ln) == TableEntropy(t0, ln) + EntropyShare(p, ln)
  {
    SplitNegatedQuotient(SumPLnP(t, ln), SumPLnP(t0, ln), p * ln(p), ln(2.0));
  }

  lemma SplitNegatedQuotient(s: real, u: real, v: real, w: real)
    requires w > 0.0 && s == u + v
    ensures -1.0 * s / w == -1.0 * u / w + -1.0 * v / w
  {
  }

  /** The entropy sum over one more symbol, of probability `p`, adds
      `p ln p`. */
  lemma SumPLnPStep(x: seq<int>, e: seq<int>, p: real, ln: real -> real)
    requires |x| > 0 && e != [] && forall a | a in e :: a in x
    requires p == Probability(x, e[|e| - 1])
    ensures forall a | a in e[..|e| - 1] :: a in x
    ensures SumPLnP(ProbabilityTable(x, e), ln) == SumPLnP(ProbabilityTable(x, e[..|e| - 1]), ln) + p * ln(p)
  {
    var k := |e| - 1;
    assert forall v | v in e[..k] :: v in e;
    var t := ProbabilityTable(x, e);
    assert t[..k] == ProbabilityTable(x, e[..k]);
    SumPLnPLast(t, k, p, ln);
  }

  /** The entropy sum over a table whose last entry, at `k`, is `p`. */
  lemma SumPLnPLast(t: seq<real>, k: nat, p: real, ln: real -> real)
    requires |t| == k + 1 && t[k] == p
    ensures SumPLnP(t, ln) == SumPLnP(t[..k], ln) + p * ln(p)
  {
  }

  /** An attribute's mutual information with itself is its entropy:
      `I(X; X) = H(X)`. */
  lemma SelfInformationIsEntropy(x: seq<int>, ln: real -> real)
    requires ValidLn(ln) && |x| > 0
    ensures MutualInformationOf(x, x, ln) == EntropyOf(x, ln)
  {
    var e := FirstSeen(x);
    if |e| == 1 {
      EntropyOfSingleValue(x, ln);
    } else {
      TableSumIsRowsTotal(x, x, e, e, ln);
      SelfRowsTotal(x, e, e, ln);
    }
  }

  // ---------------------------------------------------------------------
  // The uniform case

  /** A column in which each of its `n` distinct symbols occurs equally
      often has entropy `log2 n`. */
  lemma UniformEntropy(s: seq<int>, k: nat, ln: real -> real)
    requires ValidLn(ln) && s != []
    requires forall v | v in s :: Count(s, v) == k
    ensures EntropyOf(s, ln) == Log2(ln, |FirstSeen(s)| as real)
  {
    var d := FirstSeen(s);
    UniformProbability(s, k);
    var q := 1.0 / |d| as real;
    UniformSumPLnP(s, d, q, ln);
    LnReciprocal(ln, |d| as real);
    UniformTableEntropy(|d|, q, ProbabilityTable(s, d), ln);
  }

  /** When each of the `n` distinct symbols occurs equally often, each has
      relative frequency `1 / n`. */
  lemma UniformProbability(s: seq<int>, k: nat)
    requires s != [] && forall v | v in s :: Count(s, v) == k
    ensures 0 < |FirstSeen(s)|
    ensures forall v | v in s :: Probability(s, v) == 1.0 / |FirstSeen(s)| as real
  {
    var d := FirstSeen(s);
    assert s[0] in d;
    UniformCountsOver(s, d, k);
    CountsSumToLength(s);
    EqualShare(k, |d|, |s|);
  }

  /** Symbols that each occur `k` times are counted `|d| * k` times in all. */
  lemma {:induction false} UniformCountsOver(s: seq<int>, d: seq<int>, k: nat)
    requires forall v | v in d :: Count(s, v) == k
    ensures CountsOver(s, d) == |d| * k
  {
    if d != [] {
      assert d[|d| - 1] in d;
      assert forall v | v in d[..|d| - 1] :: v in d;
      UniformCountsOver(s, d[..|d| - 1], k);
      CountStep(|d| - 1, k, CountsOver(s, d[..|d| - 1]), CountsOver(s, d));
    }
  }

  lemma CountStep(c: int, k: int, a: int, b: int)
    requires a == c * k && b == a + k
    ensures b == (c + 1) * k
  {
  }

  /** `k` occurrences out of `n * k` are a fraction `1 / n`. */
  lemma EqualShare(k: nat, n: nat, m: nat)
    requires 0 < m == n * k
    ensures k as real / m as real == 1.0 / n as real
  {
    assert m as real == n as real * k as real;
  }

  /** The entropy sum of a table whose entries are all `q`: `|e|` copies
      of `q ln q`. */
  lemma {:induction false} UniformSumPLnP(x: seq<int>, e: seq<int>, q: real, ln: real -> real)
    requires |x| > 0 && forall a | a in e :: a in x && Probability(x, a) == q
    ensures SumPLnP(ProbabilityTable(x, e), ln) == Repeated(|e|, q * ln(q))
  {
    if e != [] {
      assert e[|e| - 1] in e;
      assert forall a | a in e[..|e| - 1] :: a in e;
      UniformSumPLnP(x, e[..|e| - 1], q, ln);
      SumPLnPStep(x, e, q, ln);
    }
  }

  /** `n` copies of `m` added up. */
  function Repeated(n: nat, m: real): real {
    if n == 0 then 0.0 else Repeated(n - 1, m) + m
  }

  lemma {:induction false} RepeatedIsMultiple(n: nat, m: real)
    ensures Repeated(n, m) == n as real * m
  {
    if n > 0 {
      RepeatedIsMultiple(n - 1, m);
      MultipleStep((n - 1) as real, n as real, m, Repeated(n - 1, m), Repeated(n, m));
    }
  }

  lemma MultipleStep(c: real, n: real, m: real, a: real, b: real)
    requires n == c + 1.0 && a == c * m && b == a + m
    ensures b == n * m
  {
  }

  /** A table whose entropy sum is `n` copies of `q ln q`, for `q = 1 / n`,
      has entropy `log2 n`. */
  lemma UniformTableEntropy(n: nat, q: real, t: seq<real>, ln: real -> real)
    requires ValidLn(ln) && 0 < n && q == 1.0 / n as real && ln(q) == -ln(n as real)
    requires SumPLnP(t, ln) == Repeated(n, q * ln(q))
    ensures TableEntropy(t, ln) == Log2(ln, n as real)
  {
    UniformArithmetic(n, q, ln(q), ln(n as real), ln(2.0), SumPLnP(t, ln));
  }

  /** `-(n copies of q ln q) / ln 2 = ln n / ln 2` when `q = 1 / n`. */
  lemma UniformArithmetic(n: nat, q: real, lq: real, ln_n: real, l2: real, total: real)
    requires 0 < n && q == 1.0 / n as real && lq == -ln_n && 0.0 < l2 && total == Repeated(n, q * lq)
    ensures -1.0 * total / l2 == ln_n / l2
  {
    RepeatedIsMultiple(n, q * lq);
    assert n as real * q == 1.0;
    assert total == (n as real * q) * lq;
  }
}
