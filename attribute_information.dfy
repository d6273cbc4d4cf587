/** Per-attribute statistics: one pass over an attribute's column counts
    the occurrences of every symbol, records the distinct symbols in the
    order in which they are first seen, turns the counts into relative
    frequencies and caches the Shannon entropy of that distribution in
    bits. The object is immutable once built. */
module AttributeInfo {
  import opened Counting
  import opened Numerics

  /** Sum of `p * ln(p)` over a table, as the expression
      `(p * std::log(p)).sum()` computes it over a valarray. */
  function SumPLnP(p: seq<real>, ln: real -> real): real {
    if p == [] then 0.0 else SumPLnP(p[..|p| - 1], ln) + p[|p| - 1] * ln(p[|p| - 1])
  }

  /** Entropy in bits of a table of probabilities: `-(sum of p ln p) / ln 2`. */
  function TableEntropy(p: seq<real>, ln: real -> real): real
    requires ValidLn(ln)
  {
    -1.0 * SumPLnP(p, ln) / ln(2.0)
  }

  /** Shannon entropy in bits of the empirical distribution of `s`, over
      its first-seen symbols. An empty `s` has an empty table and entropy
      `-0 / ln 2`, that is zero. */
  function EntropyOf(s: seq<int>, ln: real -> real): real
    requires ValidLn(ln)
  {
    TableEntropy(ProbabilityTable(s, FirstSeen(s)), ln)
  }

  /** Stored probabilities of the symbols `vs`, added up. */
  function MassOf(pdf: map<int, real>, vs: seq<int>): real
    requires forall v | v in vs :: v in pdf
  {
    if vs == [] then 0.0
    else
      var last := vs[|vs| - 1];
      assert last in vs;
      assert forall v | v in vs[..|vs| - 1] :: v in vs;
      MassOf(pdf, vs[..|vs| - 1]) + pdf[last]
  }

  class AttributeInformation {
    /** The distinct symbols, in first-seen order (`_values`). */
    const values: seq<int>
    /** Symbol to relative frequency (`_pdf`). */
    const pdf: map<int, real>
    /** Cached entropy in bits (`_entropy`). */
    const entropy: real
    /** The observations the object was built from. */
    ghost const column: seq<int>
    /** The natural logarithm the entropy was computed with. */
    ghost const ln: real -> real

    ghost predicate Valid() {
      && ValidLn(ln)
      && values == FirstSeen(column)
      && (forall v :: v in pdf <==> v in column)
      && (forall v | v in pdf :: pdf[v] == Probability(column, v))
      && entropy == EntropyOf(column, ln)
    }

    /** Builds the statistics of the observations `column` (the iterator
        range `[first, last)` of the source, here a value that the
        constructor cannot alter). */
    constructor (column: seq<int>, ln: real -> real)
      requires ValidLn(ln)
      ensures Valid()
      ensures this.column == column && this.ln == ln
    {
      var counts, seen := CountOccurrences(column);
      var normalised, p := Normalise(column, counts, seen);
      var h := TableEntropy(p, ln);
      values := seen;
      pdf := normalised;
      entropy := h;
      this.column := column;
      this.ln := ln;
    }

    /** `num_values()`: the number of distinct symbols observed. */
    function NumValues(): (n: nat)
      requires Valid()
      ensures n == |values|
    {
      var keys := set v | v in values;
      assert forall v :: v in pdf.Keys <==> v in keys;
      assert pdf.Keys == keys;
      DistinctCardinality(values);
      |pdf|
    }

    /** `values()`: every observed symbol exactly once, in order of first
        occurrence. */
    function Values(): (vs: seq<int>)
      requires Valid()
      ensures Distinct(vs)
      ensures forall v :: v in vs <==> v in column
      ensures forall i, j, ki, kj | 0 <= i < j < |vs| && FirstAt(column, vs[i], ki) && FirstAt(column, vs[j], kj) :: ki < kj
    {
      forall i, j, ki, kj | 0 <= i < j < |values| && FirstAt(column, values[i], ki) && FirstAt(column, values[j], kj)
        ensures ki < kj
      {
        FirstSeenOrdered(column, i, j, ki, kj);
      }
      values
    }

    /** `entropy()`: the cached entropy; zero for a column holding a
        single distinct symbol. */
    function Entropy(): (h: real)
      requires Valid()
      ensures h == EntropyOf(column, ln)
      ensures h >= 0.0
      ensures |values| == 1 ==> h == 0.0
    {
      EntropyNonNegative(column, ln);
      if |values| == 1 then
        EntropyOfSingleValue(column, ln);
        entropy
      else
        entropy
    }

    /** `marginal_probability(v)`: the relative frequency of an observed
        symbol, and 0.0 (not an error) for a symbol never observed. */
    function MarginalProbability(v: int): (p: real)
      requires Valid()
      ensures v in column ==> p == Probability(column, v) && p > 0.0
      ensures v !in column ==> p == 0.0
    {
      if v in pdf then pdf[v] else 0.0
    }

    /** The stored probabilities add up to one on a non-empty column. */
    lemma StoredProbabilitiesSumToOne()
      requires Valid() && |column| > 0
      ensures MassOf(pdf, values) == 1.0
    {
      StoredMassIsProbabilityMass(values);
      ProbabilitiesSumToOne(column);
    }

    lemma {:induction false} StoredMassIsProbabilityMass(vs: seq<int>)
      requires Valid() && |column| > 0
      requires forall v | v in vs :: v in column
      ensures MassOf(pdf, vs) == ProbabilityMass(column, vs)
    {
      if vs != [] {
        StoredMassIsProbabilityMass(vs[..|vs| - 1]);
      }
    }
  }

  /** `counts` holds, for every symbol of `s` and no other, its number of
      occurrences in `s` as a double. */
  ghost predicate Counted(counts: map<int, real>, s: seq<int>) {
    && (forall v :: v in counts <==> v in s)
    && (forall v | v in counts :: counts[v] == Count(s, v) as real)
  }

  /** `pdf` holds a value for every symbol of `column`: its relative
      frequency for the symbols in `done`, its count for the others. */
  ghost predicate NormalisedUpTo(pdf: map<int, real>, column: seq<int>, done: seq<int>) {
    && (forall v :: v in pdf <==> v in column)
    && (forall v | v in pdf ::
          pdf[v] == if v in done then Probability(column, v) else Count(column, v) as real)
  }

  /** The counting pass: one visit per observation, a map from symbol to
      count (kept as a double, as `_pdf` keeps it) and the list of symbols
      in the order in which they are first met. */
  method CountOccurrences(column: seq<int>) returns (counts: map<int, real>, seen: seq<int>)
    ensures seen == FirstSeen(column)
    ensures Counted(counts, column)
  {
    counts := map[];
    seen := [];
    var i := 0;
    while i < |column|
      invariant 0 <= i <= |column|
      invariant seen == FirstSeen(column[..i])
      invariant Counted(counts, column[..i])
    {
      var val := column[i];
      assert column[..i + 1] == column[..i] + [val];
      CountStep(counts, column[..i], val);
      if val in counts {
        counts := counts[val := counts[val] + 1.0];
      } else {
        counts := counts[val := 1.0];
        seen := seen + [val];
      }
      i := i + 1;
    }
    assert column[..|column|] == column;
  }

  /** Recording one more observation keeps the counts exact. */
  lemma CountStep(counts: map<int, real>, s: seq<int>, x: int)
    requires Counted(counts, s)
    ensures x in counts <==> x in s
    ensures Counted(if x in counts then counts[x := counts[x] + 1.0] else counts[x := 1.0], s + [x])
  {
    forall v ensures Count(s + [x], v) == Count(s, v) + (if x == v then 1 else 0) {
      CountAppend(s, x, v);
    }
  }

  /** The normalisation pass: every count becomes count / N and the
      probabilities are gathered, in visiting order, into the table from
      which the entropy is computed. The map is visited in first-seen
      order, which lists each of its keys exactly once. */
  method Normalise(column: seq<int>, counts: map<int, real>, seen: seq<int>)
    returns (pdf: map<int, real>, p: seq<real>)
    requires seen == FirstSeen(column)
    requires Counted(counts, column)
    ensures forall v :: v in pdf <==> v in column
    ensures forall v | v in pdf :: pdf[v] == Probability(column, v)
    ensures p == ProbabilityTable(column, seen)
  {
    var count := |column| as real;
    pdf := counts;
    p := [];
    var j := 0;
    while j < |seen|
      invariant 0 <= j <= |seen|
      invariant NormalisedUpTo(pdf, column, seen[..j])
      invariant p == ProbabilityTable(column, seen[..j])
    {
      var v := seen[j];
      assert seen[..j + 1] == seen[..j] + [v];
      assert v in column && v !in seen[..j];
      TableStep(column, seen, j);
      var q := pdf[v] / count;
      NormaliseStep(pdf, column, seen[..j], v, q);
      pdf := pdf[v := q];
      p := p + [q];
      j := j + 1;
    }
    assert seen[..|seen|] == seen;
  }

  /** Normalising one more symbol, not normalised before, replaces its
      count by its probability and keeps every other entry. */
  lemma NormaliseStep(pdf: map<int, real>, column: seq<int>, done: seq<int>, v: int, q: real)
    requires NormalisedUpTo(pdf, column, done)
    requires v in pdf && v !in done
    requires q == Probability(column, v)
    ensures NormalisedUpTo(pdf[v := q], column, done + [v])
  {
    var next := pdf[v := q];
    assert forall w :: w in next <==> w in column;
    forall w | w in next
      ensures next[w] == if w in done + [v] then Probability(column, w) else Count(column, w) as real
    {
      if w != v {
        assert w in done + [v] <==> w in done;
        assert next[w] == pdf[w];
      }
    }
  }

  /** The table over one more symbol is the table over the others followed
      by that symbol's probability. */
  lemma TableStep(column: seq<int>, seen: seq<int>, j: int)
    requires seen == FirstSeen(column) && 0 <= j < |seen|
    ensures |column| > 0
    ensures ProbabilityTable(column, seen[..j + 1]) ==
      ProbabilityTable(column, seen[..j]) + [Probability(column, seen[j])]
  {
    assert seen[j] in column;
    assert seen[..j + 1][..j] == seen[..j];
  }

  lemma {:induction false} DistinctCardinality(s: seq<int>)
    requires Distinct(s)
    ensures |set v | v in s| == |s|
  {
    if s != [] {
      var p := s[..|s| - 1];
      var x := s[|s| - 1];
      assert s == p + [x];
      DistinctCardinality(p);
      assert x !in p;
      assert (set v | v in s) == (set v | v in p) + {x};
    }
  }

  /** A column with one distinct symbol has entropy zero. */
  lemma EntropyOfSingleValue(s: seq<int>, ln: real -> real)
    requires ValidLn(ln) && |FirstSeen(s)| == 1
    ensures EntropyOf(s, ln) == 0.0
  {
    var d := FirstSeen(s);
    SingleValueHasProbabilityOne(s);
    assert d[..0] == [];
    var p := ProbabilityTable(s, d);
    assert p == [1.0];
    assert p[..0] == [];
    assert SumPLnP(p, ln) == 0.0;
  }

  /** Entropy is never negative: every probability lies in `(0, 1]`, where
      `ln p <= p - 1 <= 0`. */
  lemma EntropyNonNegative(s: seq<int>, ln: real -> real)
    requires ValidLn(ln)
    ensures EntropyOf(s, ln) >= 0.0
  {
    var p := ProbabilityTable(s, FirstSeen(s));
    if s != [] {
      TableEntries(s, FirstSeen(s));
    }
    SumPLnPNonPositive(p, ln);
    NegatedQuotient(SumPLnP(p, ln), ln(2.0));
  }

  lemma {:induction false} SumPLnPNonPositive(p: seq<real>, ln: real -> real)
    requires ValidLn(ln)
    requires forall j | 0 <= j < |p| :: 0.0 < p[j] <= 1.0
    ensures SumPLnP(p, ln) <= 0.0
  {
    if p != [] {
      var k := |p| - 1;
      SumPLnPNonPositive(p[..k], ln);
      assert LnBounds(ln, p[k]);
      NonPositiveProduct(p[k], ln(p[k]));
    }
  }

  lemma NonPositiveProduct(u: real, v: real)
    requires 0.0 < u && v <= 0.0
    ensures u * v <= 0.0
  {
  }

  lemma NegatedQuotient(u: real, w: real)
    requires u <= 0.0 && 0.0 < w
    ensures -1.0 * u / w >= 0.0
  {
  }
}
