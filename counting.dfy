/** Occurrence counting over finite sequences of symbols: the empirical
    frequencies from which every probability of the model is derived.
    Sequences are consumed from the back, as a loop that appends one
    observation at a time consumes them. */
module Counting {

  /** No element occurs twice. */
  ghost predicate Distinct(s: seq<int>) {
    forall i, j | 0 <= i < j < |s| :: s[i] != s[j]
  }

  /** Number of occurrences of `v` in `s`. */
  function Count(s: seq<int>, v: int): (n: nat)
    ensures n <= |s|
    ensures n > 0 <==> v in s
  {
    if s == [] then 0
    else
      assert s == s[..|s| - 1] + [s[|s| - 1]];
      Count(s[..|s| - 1], v) + (if s[|s| - 1] == v then 1 else 0)
  }

  /** The distinct elements of `s`, each once, in the order in which they
      first occur. */
  function FirstSeen(s: seq<int>): (d: seq<int>)
    ensures Distinct(d)
    ensures forall v :: v in d <==> v in s
    ensures |d| <= |s|
  {
    if s == [] then []
    else
      assert s == s[..|s| - 1] + [s[|s| - 1]];
      var p := FirstSeen(s[..|s| - 1]);
      if s[|s| - 1] in s[..|s| - 1] then p else p + [s[|s| - 1]]
  }

  /** `k` is the position at which `v` occurs in `s` for the first time. */
  ghost predicate FirstAt<T>(s: seq<T>, v: T, k: int) {
    0 <= k < |s| && s[k] == v && v !in s[..k]
  }

  /** Smallest index of `v` in `s`. */
  function FirstIndex<T(==)>(s: seq<T>, v: T): (k: nat)
    requires v in s
    ensures FirstAt(s, v, k)
  {
    if s[0] == v then 0
    else
      var k := 1 + FirstIndex(s[1..], v);
      assert s[..k] == [s[0]] + s[1..][..k - 1];
      k
  }

  /** Occurrence counts of the elements of `d` in `s`, added up. */
  function CountsOver(s: seq<int>, d: seq<int>): nat {
    if d == [] then 0 else CountsOver(s, d[..|d| - 1]) + Count(s, d[|d| - 1])
  }

  /** Relative frequency of `v` among the observations `s`. */
  function Probability(s: seq<int>, v: int): (p: real)
    requires |s| > 0
    ensures 0.0 <= p <= 1.0
    ensures p > 0.0 <==> v in s
  {
    FractionBounds(Count(s, v) as real, |s| as real);
    Count(s, v) as real / |s| as real
  }

  /** A part `k` of a positive whole `n` is a fraction in `[0, 1]`, zero
      exactly when the part is. */
  lemma FractionBounds(k: real, n: real)
    requires 0.0 < n && 0.0 <= k <= n
    ensures 0.0 <= k / n <= 1.0
    ensures k / n > 0.0 <==> k > 0.0
  {
    assert (k / n) * n == k;
  }

  /** Relative frequencies of the elements of `d` in `s`, added up. */
  function ProbabilityMass(s: seq<int>, d: seq<int>): real
    requires |s| > 0
  {
    if d == [] then 0.0 else ProbabilityMass(s, d[..|d| - 1]) + Probability(s, d[|d| - 1])
  }

  lemma AddQuotients(a: real, b: real, n: real)
    requires n != 0.0
    ensures a / n + b / n == (a + b) / n
  {
  }

  lemma DivideBySelf(n: real)
    requires n != 0.0
    ensures n / n == 1.0
  {
  }

  lemma CountAppend(s: seq<int>, x: int, v: int)
    ensures Count(s + [x], v) == Count(s, v) + (if x == v then 1 else 0)
  {
    assert (s + [x])[..|s|] == s;
  }

  lemma {:induction false} CountOfDistinct(d: seq<int>, v: int)
    requires Distinct(d)
    ensures Count(d, v) == if v in d then 1 else 0
  {
    if d != [] {
      var p := d[..|d| - 1];
      assert d == p + [d[|d| - 1]];
      assert Distinct(p);
      CountOfDistinct(p, v);
      if d[|d| - 1] == v {
        assert v !in p;
      }
    }
  }

  lemma {:induction false} CountsOverAppend(s: seq<int>, x: int, d: seq<int>)
    ensures CountsOver(s + [x], d) == CountsOver(s, d) + Count(d, x)
  {
    if d != [] {
      CountsOverAppend(s, x, d[..|d| - 1]);
      CountAppend(s, x, d[|d| - 1]);
    }
  }

  /** Counting every observation once per distinct symbol accounts for
      all of them, whatever order the distinct symbols are listed in. */
  lemma {:induction false} CountsOverCover(s: seq<int>, d: seq<int>)
    requires Distinct(d)
    requires forall v :: v in s ==> v in d
    ensures CountsOver(s, d) == |s|
  {
    if s == [] {
      CountsOverEmpty(d);
    } else {
      var p := s[..|s| - 1];
      var x := s[|s| - 1];
      assert s == p + [x];
      CountsOverCover(p, d);
      CountsOverAppend(p, x, d);
      CountOfDistinct(d, x);
    }
  }

  lemma {:induction false} CountsOverEmpty(d: seq<int>)
    ensures CountsOver([], d) == 0
  {
    if d != [] {
      CountsOverEmpty(d[..|d| - 1]);
    }
  }

  /** The counts of the first-seen values of `s` add up to `|s|`. */
  lemma CountsSumToLength(s: seq<int>)
    ensures CountsOver(s, FirstSeen(s)) == |s|
  {
    CountsOverCover(s, FirstSeen(s));
  }

  lemma {:induction false} ProbabilityMassIsScaledCount(s: seq<int>, d: seq<int>)
    requires |s| > 0
    ensures ProbabilityMass(s, d) == CountsOver(s, d) as real / |s| as real
  {
    if d != [] {
      var n := |s| as real;
      var y := d[|d| - 1];
      ProbabilityMassIsScaledCount(s, d[..|d| - 1]);
      var a := CountsOver(s, d[..|d| - 1]) as real;
      var b := Count(s, y) as real;
      AddQuotients(a, b, n);
    }
  }

  /** The relative frequencies of the distinct values of a non-empty
      sequence add up to one. */
  lemma ProbabilitiesSumToOne(s: seq<int>)
    requires |s| > 0
    ensures ProbabilityMass(s, FirstSeen(s)) == 1.0
  {
    var d := FirstSeen(s);
    var n := |s| as real;
    ProbabilityMassIsScaledCount(s, d);
    CountsSumToLength(s);
    assert CountsOver(s, d) as real == n;
    DivideBySelf(n);
  }

  /** A sequence whose only distinct value is `v` consists of `v` alone,
      so `v` has relative frequency one. */
  lemma SingleValueHasProbabilityOne(s: seq<int>)
    requires |FirstSeen(s)| == 1
    ensures |s| > 0 && Probability(s, FirstSeen(s)[0]) == 1.0
  {
    var d := FirstSeen(s);
    CountsSumToLength(s);
    assert d[..0] == [];
    assert CountsOver(s, d) == Count(s, d[0]) == |s|;
    DivideBySelf(|s| as real);
  }

  /** The first-seen values appear in the order of their first
      occurrences in `s`. */
  lemma {:induction false} FirstSeenOrdered(s: seq<int>, i: int, j: int, ki: int, kj: int)
    requires 0 <= i < j < |FirstSeen(s)|
    requires FirstAt(s, FirstSeen(s)[i], ki) && FirstAt(s, FirstSeen(s)[j], kj)
    ensures ki < kj
  {
    var p := s[..|s| - 1];
    var x := s[|s| - 1];
    assert s == p + [x];
    var d := FirstSeen(s);
    var dp := FirstSeen(p);
    if x in p {
      assert d == dp;
      FirstAtPrefix(s, d[i], ki);
      FirstAtPrefix(s, d[j], kj);
      FirstSeenOrdered(p, i, j, ki, kj);
    } else if j < |dp| {
      assert d[i] == dp[i] && d[j] == dp[j];
      FirstAtPrefix(s, d[i], ki);
      FirstAtPrefix(s, d[j], kj);
      FirstSeenOrdered(p, i, j, ki, kj);
    } else {
      assert d[j] == x;
      assert d[i] in dp;
      assert d[i] in p;
      PrefixMembers(s, |p|);
      FirstAtPrefix(s, d[i], ki);
    }
  }

  lemma PrefixMembers(s: seq<int>, n: int)
    requires 0 <= n <= |s|
    ensures forall j | 0 <= j < n :: s[j] in s[..n]
  {
    forall j | 0 <= j < n ensures s[j] in s[..n] {
      assert s[..n][j] == s[j];
    }
  }

  /** The first occurrence of a value of the prefix lies in the prefix. */
  lemma FirstAtPrefix(s: seq<int>, v: int, k: int)
    requires |s| > 0 && v in s[..|s| - 1] && FirstAt(s, v, k)
    ensures k < |s| - 1 && FirstAt(s[..|s| - 1], v, k)
  {
    var p := s[..|s| - 1];
    var m :| 0 <= m < |p| && p[m] == v;
    PrefixMembers(s, k);
    assert s[m] == v;
    assert p[..k] == s[..k];
  }

  /** Relative frequencies of the symbols `d` among the observations `s`,
      listed in the order of `d`. */
  function ProbabilityTable(s: seq<int>, d: seq<int>): (p: seq<real>)
    requires |s| > 0 || d == []
    requires forall v | v in d :: v in s
    ensures |p| == |d|
  {
    if d == [] then []
    else ProbabilityTable(s, d[..|d| - 1]) + [Probability(s, d[|d| - 1])]
  }

  /** Entry `j` of the table is the probability of symbol `d[j]`, a value
      in `(0, 1]`. */
  lemma {:induction false} TableEntries(s: seq<int>, d: seq<int>)
    requires |s| > 0 && forall v | v in d :: v in s
    ensures forall j | 0 <= j < |d| ::
      ProbabilityTable(s, d)[j] == Probability(s, d[j]) && 0.0 < ProbabilityTable(s, d)[j] <= 1.0
  {
    if d != [] {
      var k := |d| - 1;
      assert forall v | v in d[..k] :: v in d;
      TableEntries(s, d[..k]);
      assert d[k] in d;
    }
  }

  /** Plain sum of a table. */
  function Sum(p: seq<real>): real {
    if p == [] then 0.0 else Sum(p[..|p| - 1]) + p[|p| - 1]
  }

  /** A table adds up to the probability mass of its symbols. */
  lemma {:induction false} TableSumIsProbabilityMass(s: seq<int>, d: seq<int>)
    requires |s| > 0 && forall v | v in d :: v in s
    ensures Sum(ProbabilityTable(s, d)) == ProbabilityMass(s, d)
  {
    if d != [] {
      var t := ProbabilityTable(s, d);
      assert t[..|t| - 1] == ProbabilityTable(s, d[..|d| - 1]);
      TableSumIsProbabilityMass(s, d[..|d| - 1]);
    }
  }
}
