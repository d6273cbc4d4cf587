/** The mRMR (minimum redundancy, maximum relevance) greedy selector. The
    class attribute is reported first; the most relevant attribute seeds
    the selection; every later round picks, among the attributes still
    unselected, the one whose relevance to the class best outweighs its
    average redundancy with the attributes picked so far; attributes of
    zero entropy are reported last. The ranking is first defined as a
    value (`Expected`), its properties are proved about that value, and the
    imperative selector is proved to build exactly that value. */
module Selection {
  import opened Numerics
  import opened AttributeInfo
  import opened Data
  import opened Counting

  /** One row of the ranking (`mrmr_result`). */
  datatype MrmrResult = MrmrResult(rank: int, index: int, name: string,
                                   entropy: real, mutualInformation: real, score: Ext)

  /** `mrmr_method_type`: relevance minus redundancy (MID) or relevance over
      redundancy (MIQ). `Invalid` stands for every other value the
      underlying character can hold. */
  datatype Method = Mid | Miq | Invalid

  /** Row budget: every attribute when no feature count is asked for,
      otherwise the requested count plus the class row. */
  function Limit(numAttributes: nat, numFeatures: nat): nat {
    if numFeatures == 0 then numAttributes else numFeatures + 1
  }

  /** What the selector reads from a dataset: attribute names, entropies,
      the pairwise mutual information `mi[a][b]` of attributes `a` and `b`,
      the class attribute `c`, the row budget and the scoring method. */
  datatype Inputs = Inputs(names: seq<string>, h: seq<real>, mi: seq<seq<real>>,
                           c: nat, limit: nat, scoring: Method)

  /** Tables of one size, a class among the attributes, and mutual
      information that is never negative (as the estimator's is). */
  predicate WellFormed(inp: Inputs) {
    && |inp.names| == |inp.h| == |inp.mi|
    && inp.c < |inp.h|
    && (forall a | 0 <= a < |inp.mi| :: |inp.mi[a]| == |inp.h|)
    && (forall a, b | 0 <= a < |inp.mi| && 0 <= b < |inp.mi[a]| :: inp.mi[a][b] >= 0.0)
  }

  /** Strictly increasing, hence free of repetitions. */
  predicate Ascending(s: seq<nat>) {
    forall i, j | 0 <= i < j < |s| :: s[i] < s[j]
  }

  // ---------------------------------------------------------------------
  // Partition

  /** Every element of `s` is an attribute index. */
  predicate Attributes(inp: Inputs, s: seq<nat>) {
    forall t | 0 <= t < |s| :: s[t] < |inp.h|
  }

  /** Every element of `s` is a candidate. */
  predicate Informative(inp: Inputs, s: seq<nat>)
    requires WellFormed(inp)
  {
    forall x | x in s :: x < |inp.h| && x != inp.c && inp.h[x] > 0.0
  }

  /** The attributes below `k`, other than the class, whose entropy is
      positive: the candidates for selection, in ascending order. */
  function Candidates(inp: Inputs, k: nat): (s: seq<nat>)
    requires WellFormed(inp) && k <= |inp.h|
  {
    if k == 0 then []
    else Candidates(inp, k - 1) + (if k - 1 != inp.c && inp.h[k - 1] > 0.0 then [k - 1] else [])
  }

  /** The attributes below `k`, other than the class, whose entropy is not
      positive, in ascending order. */
  function Useless(inp: Inputs, k: nat): (s: seq<nat>)
    requires WellFormed(inp) && k <= |inp.h|
    ensures forall t | 0 <= t < |s| :: s[t] < k
  {
    if k == 0 then []
    else Useless(inp, k - 1) + (if k - 1 != inp.c && !(inp.h[k - 1] > 0.0) then [k - 1] else [])
  }

  /** Relevance of attribute `i` to the class: minus infinity for the class
      itself, the mutual information with the class for a candidate, and
      zero for an attribute of zero entropy. */
  function Relevance(inp: Inputs, i: nat): Ext
    requires WellFormed(inp) && i < |inp.h|
  {
    if i == inp.c then NegInf
    else if inp.h[i] > 0.0 then Fin(inp.mi[inp.c][i])
    else Fin(0.0)
  }

  function Relevances(inp: Inputs): (r: seq<Ext>)
    requires WellFormed(inp)
    ensures |r| == |inp.h|
  {
    seq(|inp.h|, i requires 0 <= i < |inp.h| => Relevance(inp, i))
  }

  /** A value above every element may be appended to an ascending list. */
  lemma AscendingAppend(s: seq<nat>, x: nat)
    requires Ascending(s) && forall y | y in s :: y < x
    ensures Ascending(s + [x])
  {
    assert forall i | 0 <= i < |s| :: (s + [x])[i] == s[i] && s[i] in s;
  }

  /** The candidates are ascending and are exactly the non-class
      attributes of positive entropy. */
  lemma {:induction false} CandidatesOf(inp: Inputs, k: nat)
    requires WellFormed(inp) && k <= |inp.h|
    ensures Ascending(Candidates(inp, k))
    ensures forall i :: i in Candidates(inp, k) <==> 0 <= i < k && i != inp.c && inp.h[i] > 0.0
  {
    if k > 0 {
      CandidatesOf(inp, k - 1);
      if k - 1 != inp.c && inp.h[k - 1] > 0.0 {
        AscendingAppend(Candidates(inp, k - 1), k - 1);
      }
    }
  }

  /** Every candidate is an informative attribute. */
  lemma {:induction false} CandidatesInformative(inp: Inputs, k: nat)
    requires WellFormed(inp) && k <= |inp.h|
    ensures Informative(inp, Candidates(inp, k))
  {
    if k > 0 {
      CandidatesInformative(inp, k - 1);
    }
  }

  /** The useless attributes are ascending and are exactly the non-class
      attributes whose entropy is not positive. */
  lemma {:induction false} UselessOf(inp: Inputs, k: nat)
    requires WellFormed(inp) && k <= |inp.h|
    ensures Ascending(Useless(inp, k))
    ensures forall i :: i in Useless(inp, k) <==> 0 <= i < k && i != inp.c && !(inp.h[i] > 0.0)
  {
    if k > 0 {
      UselessOf(inp, k - 1);
      if k - 1 != inp.c && !(inp.h[k - 1] > 0.0) {
        AscendingAppend(Useless(inp, k - 1), k - 1);
      }
    }
  }

  /** Together the two lists hold every attribute but the class. */
  lemma {:induction false} PartitionSize(inp: Inputs, k: nat)
    requires WellFormed(inp) && k <= |inp.h|
    ensures |Candidates(inp, k)| + |Useless(inp, k)| == if inp.c < k then k - 1 else k
  {
    if k > 0 {
      PartitionSize(inp, k - 1);
    }
  }

  /** Each non-class attribute is in exactly one of the two lists, both
      lists are ascending, and together they hold all but the class. */
  lemma PartitionOf(inp: Inputs, k: nat)
    requires WellFormed(inp) && k <= |inp.h|
    ensures Ascending(Candidates(inp, k)) && Ascending(Useless(inp, k))
    ensures forall i :: i in Candidates(inp, k) <==> 0 <= i < k && i != inp.c && inp.h[i] > 0.0
    ensures forall i :: i in Useless(inp, k) <==> 0 <= i < k && i != inp.c && !(inp.h[i] > 0.0)
    ensures |Candidates(inp, k)| + |Useless(inp, k)| == if inp.c < k then k - 1 else k
  {
    CandidatesOf(inp, k);
    UselessOf(inp, k);
    PartitionSize(inp, k);
  }

  /** Sequence reversal, as `forward_list::reverse` performs it. */
  function Reverse(s: seq<nat>): seq<nat> {
    if s == [] then [] else [s[|s| - 1]] + Reverse(s[..|s| - 1])
  }

  lemma {:induction false} ReverseCons(x: nat, s: seq<nat>)
    ensures Reverse([x] + s) == Reverse(s) + [x]
  {
    if s != [] {
      var t := s[..|s| - 1];
      assert ([x] + s)[..|s|] == [x] + t;
      ReverseCons(x, t);
    }
  }

  /** Reversing twice gives the original order back. */
  lemma {:induction false} ReverseInvolution(s: seq<nat>)
    ensures Reverse(Reverse(s)) == s
  {
    if s != [] {
      var t := s[..|s| - 1];
      ReverseCons(s[|s| - 1], Reverse(t));
      ReverseInvolution(t);
    }
  }

  /** `forward_list::remove(v)`: every occurrence of `v` taken out, the
      rest in order. */
  function Without(s: seq<nat>, v: int): (r: seq<nat>)
    ensures forall x :: x in r <==> x in s && x != v
  {
    if s == [] then []
    else Without(s[..|s| - 1], v) + (if s[|s| - 1] == v then [] else [s[|s| - 1]])
  }

  /** Removing a value from an ascending list keeps it ascending and drops
      exactly one element when the value was present. */
  lemma {:induction false} WithoutAscending(s: seq<nat>, v: int)
    requires Ascending(s)
    ensures Ascending(Without(s, v))
    ensures |Without(s, v)| == if v in s then |s| - 1 else |s|
  {
    if s != [] {
      var t := s[..|s| - 1];
      var x := s[|s| - 1];
      assert Ascending(t);
      WithoutAscending(t, v);
      assert forall y | y in t :: y < x;
      if x == v {
        assert v !in t;
      } else {
        AscendingAppend(Without(t, v), x);
      }
    }
  }

  /** `erase_after` applied to the position before `e`: the element at
      position `e` taken out of the list. */
  function EraseAt(s: seq<nat>, e: nat): (r: seq<nat>)
    requires e < |s|
    ensures |r| == |s| - 1
    ensures forall x | x in r :: x in s
  {
    assert forall i | 0 <= i < |s| :: s[i] in s;
    s[..e] + s[e + 1..]
  }

  /** Erasing from an ascending list keeps it ascending, removes the
      erased value and keeps every other one. */
  lemma EraseAscending(s: seq<nat>, e: nat)
    requires e < |s| && Ascending(s)
    ensures Ascending(EraseAt(s, e))
    ensures s[e] !in EraseAt(s, e)
    ensures forall x | x in s && x != s[e] :: x in EraseAt(s, e)
  {
    var r := EraseAt(s, e);
    assert forall i | 0 <= i < |r| :: r[i] == if i < e then s[i] else s[i + 1];
    forall x | x in s && x != s[e] ensures x in r {
      var i :| 0 <= i < |s| && s[i] == x;
      if i < e { assert r[i] == x; } else { assert r[i - 1] == x; }
    }
  }

  // ---------------------------------------------------------------------
  // Scans with `>=`

  /** A scan's current best: its score and its position (`-1` for none). */
  datatype Pick = Pick(score: Ext, pos: int)

  /** A left-to-right scan that takes every element comparing `>=` to the
      best so far, starting from `start`. */
  function Scan(s: seq<Ext>, start: Pick): (r: Pick)
    ensures r == start || (0 <= r.pos < |s| && r.score == s[r.pos])
  {
    if s == [] then start
    else
      var p := Scan(s[..|s| - 1], start);
      if Geq(s[|s| - 1], p.score) then Pick(s[|s| - 1], |s| - 1) else p
  }

  /** Over values that are not NaN, the scan ends on the maximum, at its
      last position; when no element reaches the start value the start
      pick is left untouched. */
  lemma {:induction false} ScanPicksLastMaximum(s: seq<Ext>, start: Pick)
    requires start.score != NaN && forall t | 0 <= t < |s| :: s[t] != NaN
    ensures Geq(Scan(s, start).score, start.score)
    ensures forall t | 0 <= t < |s| :: Geq(Scan(s, start).score, s[t])
    ensures (forall t | 0 <= t < |s| :: !Geq(s[t], start.score)) ==> Scan(s, start) == start
    ensures (exists t | 0 <= t < |s| :: Geq(s[t], start.score)) ==>
      var r := Scan(s, start);
      && 0 <= r.pos < |s| && r.score == s[r.pos]
      && forall t | r.pos < t < |s| :: !Geq(s[t], r.score)
  {
    if s != [] {
      var k := |s| - 1;
      var t := s[..k];
      ScanPicksLastMaximum(t, start);
      var p := Scan(t, start);
      var r := Scan(s, start);
      assert forall i | 0 <= i < k :: t[i] == s[i];
      if Geq(s[k], p.score) {
        GeqTransitive(s[k], p.score, start.score);
        forall i | 0 <= i < k ensures Geq(s[k], s[i]) {
          GeqTransitive(s[k], p.score, s[i]);
        }
      } else {
        GeqTotal(s[k], p.score);
        if forall i | 0 <= i < k :: !Geq(t[i], start.score) {
          assert forall i | 0 <= i < |s| :: !Geq(s[i], start.score);
        }
      }
    }
  }

  // ---------------------------------------------------------------------
  // Scoring

  /** Selection indices that all name attributes. */
  predicate InRange(inp: Inputs, sel: seq<int>) {
    forall t | 0 <= t < |sel| :: 0 <= sel[t] < |inp.h|
  }

  /** Sum of the mutual information of the selected attributes `sel` with
      attribute `i`. */
  function Redundancy(inp: Inputs, sel: seq<int>, i: nat): real
    requires WellFormed(inp) && i < |inp.h|
    requires InRange(inp, sel)
  {
    if sel == [] then 0.0
    else Redundancy(inp, sel[..|sel| - 1], i) + inp.mi[sel[|sel| - 1]][i]
  }

  lemma {:induction false} RedundancyNonNegative(inp: Inputs, sel: seq<int>, i: nat)
    requires WellFormed(inp) && i < |inp.h|
    requires InRange(inp, sel)
    ensures Redundancy(inp, sel, i) >= 0.0
  {
    if sel != [] {
      RedundancyNonNegative(inp, sel[..|sel| - 1], i);
      assert inp.mi[sel[|sel| - 1]][i] >= 0.0;
    }
  }

  /** The score of an attribute of relevance `relevance` whose redundancy
      sum is `redundancy`, in the round that fills `rank`: the redundancy is
      averaged over the `rank - 1` attributes selected so far. */
  function Score(m: Method, relevance: real, redundancy: real, rank: nat): Ext
    requires m != Invalid && rank >= 2
  {
    var average := redundancy / (rank - 1) as real;
    if m == Mid then Fin(relevance - average) else Quotient(relevance, average + 0.0001)
  }

  /** A non-negative redundancy keeps the MIQ divisor positive, so no
      score is an infinity or NaN. */
  lemma ScoreIsFinite(m: Method, relevance: real, redundancy: real, rank: nat)
    requires m != Invalid && rank >= 2 && redundancy >= 0.0
    ensures Score(m, relevance, redundancy, rank).Fin?
  {
    var average := redundancy / (rank - 1) as real;
    assert average >= 0.0;
  }

  /** The indices of the selected rows (every row after the class row). */
  function Selected(rows: seq<MrmrResult>): (sel: seq<int>)
    requires |rows| >= 1
    ensures |sel| == |rows| - 1
    ensures forall t | 0 <= t < |sel| :: sel[t] == rows[t + 1].index
  {
    seq(|rows| - 1, k requires 0 <= k < |rows| - 1 => rows[k + 1].index)
  }

  /** Every row names an attribute. */
  predicate RowsInRange(inp: Inputs, rows: seq<MrmrResult>) {
    forall k | 0 <= k < |rows| :: 0 <= rows[k].index < |inp.h|
  }

  /** The scores of the unselected attributes `rest`, in list order, in the
      round that fills `rank` after the selected attributes `sel`. */
  function RoundScores(inp: Inputs, sel: seq<int>, rest: seq<nat>, rank: nat): (s: seq<Ext>)
    requires WellFormed(inp) && inp.scoring != Invalid && rank >= 2 && Informative(inp, rest)
    requires InRange(inp, sel)
    ensures |s| == |rest|
  {
    seq(|rest|, j requires 0 <= j < |rest| =>
      assert rest[j] in rest;
      Score(inp.scoring, inp.mi[inp.c][rest[j]], Redundancy(inp, sel, rest[j]), rank))
  }

  /** Every score of a round is finite. */
  lemma RoundScoresFinite(inp: Inputs, sel: seq<int>, rest: seq<nat>, rank: nat)
    requires WellFormed(inp) && inp.scoring != Invalid && rank >= 2 && Informative(inp, rest)
    requires InRange(inp, sel)
    ensures forall j | 0 <= j < |rest| :: RoundScores(inp, sel, rest, rank)[j].Fin?
  {
    forall j | 0 <= j < |rest| ensures RoundScores(inp, sel, rest, rank)[j].Fin? {
      assert rest[j] in rest;
      RedundancyNonNegative(inp, sel, rest[j]);
      ScoreIsFinite(inp.scoring, inp.mi[inp.c][rest[j]], Redundancy(inp, sel, rest[j]), rank);
    }
  }

  // ---------------------------------------------------------------------
  // The ranking as a value

  /** The start value of the seed scan: `numeric_limits<double>::min()`,
      at index 0. */
  const SeedStart := Pick(Fin(MinPositiveDouble), 0)
  /** The start value of a selection round: minus infinity, no position. */
  const RoundStart := Pick(NegInf, -1)

  /** The attribute of the rank-1 row. */
  function Seed(inp: Inputs): (s: nat)
    requires WellFormed(inp)
    ensures s < |inp.h|
  {
    var p := Scan(Relevances(inp), SeedStart);
    assert 0 <= p.pos < |inp.h|;
    p.pos
  }

  /** A selected attribute's row: its entropy in both information columns. */
  function Row(inp: Inputs, rank: nat, i: nat, score: Ext): MrmrResult
    requires WellFormed(inp) && i < |inp.h|
  {
    MrmrResult(rank, i, inp.names[i], inp.h[i], inp.h[i], score)
  }

  /** Rows built so far, and whether the selection ran to its end (it
      stops early on an unknown method). */
  datatype Outcome = Outcome(rows: seq<MrmrResult>, complete: bool)

  /** The selection rounds from the state `rest` (unselected, in list
      order) and `rows` (emitted, one per rank so far). Each round scores
      `rest`, emits the pick and erases it from the list; when no score
      compares `>=` to minus infinity the round repeats the last emitted
      attribute and erases the head of the list. */
  function Rounds(inp: Inputs, rest: seq<nat>, rows: seq<MrmrResult>): Outcome
    requires WellFormed(inp) && |rows| >= 2 && RowsInRange(inp, rows) && Informative(inp, rest)
    decreases |rest|
  {
    if rest == [] || |rows| >= inp.limit then Outcome(rows, true)
    else if inp.scoring == Invalid then Outcome(rows, false)
    else
      var ch := Choose(inp, rest, rows);
      Rounds(inp, EraseAt(rest, ch.erase), rows + [Row(inp, |rows|, ch.index, ch.score)])
  }

  /** What one round decides: the attribute it emits, the list position it
      erases and the score it reports. */
  datatype Choice = Choice(index: nat, erase: nat, score: Ext)

  /** One round: the scan over the scores of `rest` from minus infinity;
      the pick is emitted and erased, and when there is none the last
      emitted attribute is repeated and the head of the list erased. */
  function Choose(inp: Inputs, rest: seq<nat>, rows: seq<MrmrResult>): (ch: Choice)
    requires WellFormed(inp) && |rows| >= 2 && RowsInRange(inp, rows) && Informative(inp, rest)
    requires rest != [] && inp.scoring != Invalid
    ensures ch.index < |inp.h| && ch.erase < |rest|
  {
    var p := Scan(RoundScores(inp, Selected(rows), rest, |rows|), RoundStart);
    if p.pos < 0 then Choice(rows[|rows| - 1].index, 0, p.score)
    else
      assert rest[p.pos] in rest;
      Choice(rest[p.pos], p.pos, p.score)
  }

  /** The zero-entropy attributes, in order, each with score plus infinity,
      while the row budget lasts. */
  function Tail(inp: Inputs, useless: seq<nat>, rows: seq<MrmrResult>): seq<MrmrResult>
    requires WellFormed(inp) && Attributes(inp, useless)
    decreases |useless|
  {
    if useless == [] || |rows| >= inp.limit then rows
    else
      var a := useless[0];
      Tail(inp, useless[1..], rows + [MrmrResult(|rows|, a, inp.names[a], 0.0, 0.0, PosInf)])
  }

  /** The two rows every ranking starts with: the class, with its entropy
      in both information columns and a NaN score, and the seed with its
      relevance as score. */
  function Header(inp: Inputs): (rows: seq<MrmrResult>)
    requires WellFormed(inp)
    ensures |rows| == 2 && RowsInRange(inp, rows)
  {
    var s := Seed(inp);
    [MrmrResult(0, inp.c, inp.names[inp.c], inp.h[inp.c], inp.h[inp.c], NaN),
     Row(inp, 1, s, Relevances(inp)[s])]
  }

  /** The candidates other than the seed: the list the rounds start from. */
  function Unselected(inp: Inputs): (rest: seq<nat>)
    requires WellFormed(inp)
    ensures Informative(inp, rest)
  {
    CandidatesInformative(inp, |inp.h|);
    Without(Candidates(inp, |inp.h|), Seed(inp))
  }

  /** The ranking the selector returns. */
  function Expected(inp: Inputs): seq<MrmrResult>
    requires WellFormed(inp)
  {
    Assemble(inp, Unselected(inp), Useless(inp, |inp.h|), Header(inp))
  }

  /** The rounds from the list `rest` after the rows `hd`, followed, unless
      an unknown method stopped them, by the tail of `useless`. */
  function Assemble(inp: Inputs, rest: seq<nat>, useless: seq<nat>, hd: seq<MrmrResult>): seq<MrmrResult>
    requires WellFormed(inp) && |hd| >= 2 && RowsInRange(inp, hd) && Informative(inp, rest)
    requires Attributes(inp, useless)
  {
    var o := Rounds(inp, rest, hd);
    if o.complete then Tail(inp, useless, o.rows) else o.rows
  }

  // ---------------------------------------------------------------------
  // Properties of the ranking

  /** Every row's rank is its position. */
  predicate Ranked(rows: seq<MrmrResult>) {
    forall k | 0 <= k < |rows| :: rows[k].rank == k
  }

  /** The rounds only append rows, and every row names an attribute. */
  lemma {:induction false} RoundsPrefix(inp: Inputs, rest: seq<nat>, rows: seq<MrmrResult>)
    requires WellFormed(inp) && |rows| >= 2 && RowsInRange(inp, rows) && Informative(inp, rest)
    ensures var o := Rounds(inp, rest, rows);
      |rows| <= |o.rows| && o.rows[..|rows|] == rows && RowsInRange(inp, o.rows)
    decreases |rest|
  {
    if rest != [] && |rows| < inp.limit && inp.scoring != Invalid {
      var ch := Choose(inp, rest, rows);
      var rows' := rows + [Row(inp, |rows|, ch.index, ch.score)];
      var rest' := EraseAt(rest, ch.erase);
      RoundsPrefix(inp, rest', rows');
      var o := Rounds(inp, rest', rows');
      assert o.rows[..|rows|] == o.rows[..|rows'|][..|rows|];
      assert rows'[..|rows|] == rows;
    }
  }

  /** Each row a round appends carries the next rank. */
  lemma {:induction false} RoundsRanked(inp: Inputs, rest: seq<nat>, rows: seq<MrmrResult>)
    requires WellFormed(inp) && |rows| >= 2 && RowsInRange(inp, rows) && Informative(inp, rest)
    requires Ranked(rows)
    ensures Ranked(Rounds(inp, rest, rows).rows)
    decreases |rest|
  {
    if rest != [] && |rows| < inp.limit && inp.scoring != Invalid {
      var ch := Choose(inp, rest, rows);
      var rows' := rows + [Row(inp, |rows|, ch.index, ch.score)];
      RoundsRanked(inp, EraseAt(rest, ch.erase), rows');
    }
  }

  /** No round runs past the budget; an unknown method stops the rounds
      before the first one, and a known one runs a round per unselected
      attribute while the budget lasts. */
  lemma {:induction false} RoundsLength(inp: Inputs, rest: seq<nat>, rows: seq<MrmrResult>)
    requires WellFormed(inp) && |rows| >= 2 && RowsInRange(inp, rows) && Informative(inp, rest)
    ensures var o := Rounds(inp, rest, rows);
      && |o.rows| <= (if |rows| >= inp.limit then |rows| else inp.limit)
      && (!o.complete ==> inp.scoring == Invalid)
      && (inp.scoring == Invalid ==> o.rows == rows)
      && (inp.scoring != Invalid ==>
            o.complete &&
            |o.rows| == if |rows| >= inp.limit then |rows|
                        else if |rows| + |rest| <= inp.limit then |rows| + |rest| else inp.limit)
    decreases |rest|
  {
    if rest != [] && |rows| < inp.limit && inp.scoring != Invalid {
      var ch := Choose(inp, rest, rows);
      var rows' := rows + [Row(inp, |rows|, ch.index, ch.score)];
      RoundsLength(inp, EraseAt(rest, ch.erase), rows');
    }
  }

  /** The tail's rows for the attributes `us`, ranked from `from` on: no
      entropy, no mutual information, score plus infinity. */
  function ZeroRows(inp: Inputs, us: seq<nat>, from: nat): (r: seq<MrmrResult>)
    requires WellFormed(inp) && Attributes(inp, us)
    ensures |r| == |us|
  {
    seq(|us|, t requires 0 <= t < |us| =>
      assert us[t] in us;
      MrmrResult(from + t, us[t], inp.names[us[t]], 0.0, 0.0, PosInf))
  }

  /** The tail only appends rows. */
  lemma {:induction false} TailPrefix(inp: Inputs, useless: seq<nat>, rows: seq<MrmrResult>)
    requires WellFormed(inp) && Attributes(inp, useless)
    ensures var r := Tail(inp, useless, rows);
      |rows| <= |r| && r[..|rows|] == rows
    decreases |useless|
  {
    if useless != [] && |rows| < inp.limit {
      var a := useless[0];
      var rows' := rows + [MrmrResult(|rows|, a, inp.names[a], 0.0, 0.0, PosInf)];
      TailPrefix(inp, useless[1..], rows');
      var r := Tail(inp, useless[1..], rows');
      assert r[..|rows|] == r[..|rows'|][..|rows|];
      assert rows'[..|rows|] == rows;
    }
  }

  /** The tail appends the useless attributes in order, each at the next
      rank with entropy and mutual information 0 and score plus infinity,
      while the budget lasts. */
  lemma {:induction false} TailRows(inp: Inputs, useless: seq<nat>, rows: seq<MrmrResult>)
    requires WellFormed(inp) && Attributes(inp, useless)
    ensures var r := Tail(inp, useless, rows);
      && |r| == (if |rows| >= inp.limit then |rows|
                 else if |rows| + |useless| <= inp.limit then |rows| + |useless| else inp.limit)
      && forall k | |rows| <= k < |r| ::
           && k - |rows| < |useless|
           && r[k] == MrmrResult(k, useless[k - |rows|], inp.names[useless[k - |rows|]], 0.0, 0.0, PosInf)
    decreases |useless|
  {
    if useless != [] && |rows| < inp.limit {
      var a := useless[0];
      var rows' := rows + [MrmrResult(|rows|, a, inp.names[a], 0.0, 0.0, PosInf)];
      TailRows(inp, useless[1..], rows');
      TailPrefix(inp, useless[1..], rows');
      var r := Tail(inp, useless[1..], rows');
      forall k | |rows| <= k < |r|
        ensures k - |rows| < |useless|
        ensures r[k] == MrmrResult(k, useless[k - |rows|], inp.names[useless[k - |rows|]], 0.0, 0.0, PosInf)
      {
        if k == |rows| {
          assert r[k] == r[..|rows'|][k];
        } else {
          assert useless[1..][k - |rows'|] == useless[k - |rows|];
        }
      }
    }
  }

  /** A round of a known method scores every unselected attribute, and
      emits and erases the one of maximal score that comes last in the
      list. Scores are never NaN, because mutual information is never
      negative. */
  lemma ChooseIsLastMaximum(inp: Inputs, rest: seq<nat>, rows: seq<MrmrResult>)
    requires WellFormed(inp) && |rows| >= 2 && RowsInRange(inp, rows) && Informative(inp, rest)
    requires rest != [] && inp.scoring != Invalid
    ensures var scores := RoundScores(inp, Selected(rows), rest, |rows|);
      var ch := Choose(inp, rest, rows);
      && ch.index == rest[ch.erase] && ch.score == scores[ch.erase] && ch.score.Fin?
      && (forall t | 0 <= t < |rest| :: Geq(ch.score, scores[t]))
      && (forall t | ch.erase < t < |rest| :: !Geq(scores[t], ch.score))
  {
    var scores := RoundScores(inp, Selected(rows), rest, |rows|);
    RoundScoresFinite(inp, Selected(rows), rest, |rows|);
    ScanPicksLastMaximum(scores, RoundStart);
    assert Geq(scores[0], RoundStart.score);
  }

  /** The rounds emit distinct attributes, all taken from the list. */
  lemma {:induction false} RoundsEmitDistinct(inp: Inputs, rest: seq<nat>, rows: seq<MrmrResult>)
    requires WellFormed(inp) && |rows| >= 2 && RowsInRange(inp, rows) && Informative(inp, rest)
    requires Ascending(rest) && inp.scoring != Invalid
    ensures var o := Rounds(inp, rest, rows);
      && (forall k | |rows| <= k < |o.rows| :: o.rows[k].index in rest)
      && (forall k, k' | |rows| <= k < k' < |o.rows| :: o.rows[k].index != o.rows[k'].index)
    decreases |rest|
  {
    if rest != [] && |rows| < inp.limit {
      var ch := Choose(inp, rest, rows);
      ChooseIsLastMaximum(inp, rest, rows);
      var rows' := rows + [Row(inp, |rows|, ch.index, ch.score)];
      var rest' := EraseAt(rest, ch.erase);
      EraseAscending(rest, ch.erase);
      RoundsEmitDistinct(inp, rest', rows');
      RoundsPrefix(inp, rest', rows');
      var o := Rounds(inp, rest', rows');
      assert Rounds(inp, rest, rows) == o;
      assert o.rows[|rows|] == o.rows[..|rows'|][|rows|] == rows'[|rows|];
      forall k | |rows| <= k < |o.rows| ensures o.rows[k].index in rest {
        if k == |rows| {
          assert o.rows[k].index == rest[ch.erase];
        } else {
          assert o.rows[k].index in rest';
        }
      }
      forall k, k' | |rows| <= k < k' < |o.rows| ensures o.rows[k].index != o.rows[k'].index {
        if k == |rows| {
          assert o.rows[k].index == rest[ch.erase];
          assert o.rows[k'].index in rest';
        }
      }
    }
  }

  /** The assembled rows extend `hd`, one rank per position. */
  lemma AssemblePrefix(inp: Inputs, rest: seq<nat>, useless: seq<nat>, hd: seq<MrmrResult>)
    requires WellFormed(inp) && |hd| >= 2 && RowsInRange(inp, hd) && Informative(inp, rest)
    requires Attributes(inp, useless)
    requires Ranked(hd)
    ensures var r := Assemble(inp, rest, useless, hd);
      |hd| <= |r| && r[..|hd|] == hd && Ranked(r)
  {
    RoundsPrefix(inp, rest, hd);
    RoundsRanked(inp, rest, hd);
    var o := Rounds(inp, rest, hd);
    var r := Assemble(inp, rest, useless, hd);
    if o.complete {
      TailPrefix(inp, useless, o.rows);
      TailRows(inp, useless, o.rows);
      assert r == Tail(inp, useless, o.rows);
      forall k | 0 <= k < |r| ensures r[k].rank == k {
        if k < |o.rows| {
          assert r[k] == r[..|o.rows|][k];
        }
      }
      assert r[..|hd|] == r[..|o.rows|][..|hd|];
    }
  }

  /** The assembled rows stay within the budget; an unknown method adds
      no round, and a known one ranks every listed attribute while the
      budget lasts. */
  lemma AssembleLength(inp: Inputs, rest: seq<nat>, useless: seq<nat>, hd: seq<MrmrResult>)
    requires WellFormed(inp) && |hd| >= 2 && RowsInRange(inp, hd) && Informative(inp, rest)
    requires Attributes(inp, useless)
    ensures var r := Assemble(inp, rest, useless, hd);
      && |r| <= (if |hd| >= inp.limit then |hd| else inp.limit)
      && (inp.scoring == Invalid ==>
            r == if rest == [] || |hd| >= inp.limit then Tail(inp, useless, hd) else hd)
      && (inp.scoring != Invalid ==>
            |r| == if |hd| >= inp.limit then |hd|
                   else if |hd| + |rest| + |useless| <= inp.limit then |hd| + |rest| + |useless|
                   else inp.limit)
  {
    RoundsLength(inp, rest, hd);
    var o := Rounds(inp, rest, hd);
    TailRows(inp, useless, o.rows);
  }

  /** An assembled ranking is the rounds' rows followed by the tail rows
      of a prefix of `useless`: each with zero entropy and information and
      a score of plus infinity, ranked on from the last round. */
  lemma AssembleSplit(inp: Inputs, rest: seq<nat>, useless: seq<nat>, hd: seq<MrmrResult>)
    requires WellFormed(inp) && |hd| >= 2 && RowsInRange(inp, hd) && Informative(inp, rest)
    requires Attributes(inp, useless)
    ensures var r := Assemble(inp, rest, useless, hd); var o := Rounds(inp, rest, hd);
      && |o.rows| <= |r| && |r| - |o.rows| <= |useless|
      && r == o.rows + ZeroRows(inp, useless[..|r| - |o.rows|], |o.rows|)
  {
    var o := Rounds(inp, rest, hd);
    var r := Assemble(inp, rest, useless, hd);
    var m := |o.rows|;
    if o.complete {
      TailPrefix(inp, useless, o.rows);
      TailRows(inp, useless, o.rows);
      var z := ZeroRows(inp, useless[..|r| - m], m);
      forall k | 0 <= k < |r| ensures r[k] == (o.rows + z)[k] {
        if k < m {
          assert r[k] == r[..m][k];
        }
      }
    }
  }

  /** The round rows of an assembled ranking are picks from `rest`, each
      reporting its attribute's entropy in both information columns. */
  lemma AssembleRounds(inp: Inputs, rest: seq<nat>, useless: seq<nat>, hd: seq<MrmrResult>)
    requires WellFormed(inp) && |hd| >= 2 && RowsInRange(inp, hd) && Informative(inp, rest)
    requires Attributes(inp, useless) && Ascending(rest)
    ensures var r := Assemble(inp, rest, useless, hd); var m := |Rounds(inp, rest, hd).rows|;
      && |hd| <= m <= |r|
      && (forall k | |hd| <= k < m ::
            r[k].index in rest && 0 <= r[k].index < |inp.h| &&
            r[k].entropy == r[k].mutualInformation == inp.h[r[k].index])
  {
    RoundsPrefix(inp, rest, hd);
    RoundsLength(inp, rest, hd);
    RoundEntries(inp, rest, hd);
    AssembleSplit(inp, rest, useless, hd);
    if inp.scoring != Invalid {
      RoundsEmitDistinct(inp, rest, hd);
    }
  }

  /** No attribute is ranked twice after the rows `hd`, when `rest` and
      `useless` are disjoint lists without repetition. */
  lemma AssembleDistinct(inp: Inputs, rest: seq<nat>, useless: seq<nat>, hd: seq<MrmrResult>)
    requires WellFormed(inp) && |hd| >= 2 && RowsInRange(inp, hd) && Informative(inp, rest)
    requires Attributes(inp, useless)
    requires Ascending(rest) && Ascending(useless) && forall x | x in rest :: x !in useless
    ensures var r := Assemble(inp, rest, useless, hd);
      forall k, k' | |hd| <= k < k' < |r| :: r[k].index != r[k'].index
  {
    var o := Rounds(inp, rest, hd);
    var r := Assemble(inp, rest, useless, hd);
    var m := |o.rows|;
    RoundsPrefix(inp, rest, hd);
    RoundsLength(inp, rest, hd);
    AssembleSplit(inp, rest, useless, hd);
    var z := ZeroRows(inp, useless[..|r| - m], m);
    if inp.scoring != Invalid {
      RoundsEmitDistinct(inp, rest, hd);
    }
    forall k, k' | |hd| <= k < k' < |r| ensures r[k].index != r[k'].index {
      if k' < m {
        assert r[k] == o.rows[k] && r[k'] == o.rows[k'];
      } else if k < m {
        assert r[k] == o.rows[k] && r[k].index in rest;
        assert r[k'] == z[k' - m] && r[k'].index == useless[k' - m];
      } else {
        assert r[k] == z[k - m] && r[k'] == z[k' - m];
      }
    }
  }

  /** The rows after the class row and the seed: the rounds' picks, then
      the tail. */
  function RoundRows(inp: Inputs): seq<MrmrResult>
    requires WellFormed(inp)
  {
    Rounds(inp, Unselected(inp), Header(inp)).rows
  }

  /** The ranking starts with the class row and the seed row, and every
      row's rank is its position. */
  lemma ExpectedHeader(inp: Inputs)
    requires WellFormed(inp)
    ensures var r := Expected(inp);
      && |r| >= 2 && Ranked(r)
      && r[0] == MrmrResult(0, inp.c, inp.names[inp.c], inp.h[inp.c], inp.h[inp.c], NaN)
      && r[1] == MrmrResult(1, Seed(inp), inp.names[Seed(inp)], inp.h[Seed(inp)], inp.h[Seed(inp)],
                            Relevances(inp)[Seed(inp)])
  {
    var hd := Header(inp);
    AssemblePrefix(inp, Unselected(inp), Useless(inp, |inp.h|), hd);
    var r := Expected(inp);
    assert r[0] == r[..2][0] && r[1] == r[..2][1];
  }

  /** No row is emitted past the budget `max(limit, 2)`; with a known
      method the selection stops only at the budget or when every
      attribute has been ranked. */
  lemma ExpectedLength(inp: Inputs)
    requires WellFormed(inp)
    ensures var r := Expected(inp);
      && |r| <= (if inp.limit <= 2 then 2 else inp.limit)
      && (inp.scoring != Invalid ==>
            |r| == if inp.limit <= 2 then 2
                   else if 2 + |Unselected(inp)| + |Useless(inp, |inp.h|)| <= inp.limit
                   then 2 + |Unselected(inp)| + |Useless(inp, |inp.h|)|
                   else inp.limit)
  {
    AssembleLength(inp, Unselected(inp), Useless(inp, |inp.h|), Header(inp));
  }

  /** With an unknown method only the class row and the seed row are
      returned, however many attributes remain. */
  lemma UnknownMethodStopsAfterSeed(inp: Inputs)
    requires WellFormed(inp) && inp.scoring == Invalid
    requires Unselected(inp) != [] && inp.limit > 2
    ensures Expected(inp) == Header(inp)
  {
    AssembleLength(inp, Unselected(inp), Useless(inp, |inp.h|), Header(inp));
  }

  /** Without a feature limit the ranking has one row per attribute of the
      dataset (a count only: see `NoLimitRanksEachAttributeOnce` for when
      those rows name every attribute once). */
  lemma NoLimitRanksEveryAttribute(inp: Inputs)
    requires WellFormed(inp) && inp.limit == |inp.h| && |inp.h| >= 2 && inp.scoring != Invalid
    ensures |Expected(inp)| == |inp.h|
  {
    PartitionOf(inp, |inp.h|);
    WithoutAscending(Candidates(inp, |inp.h|), Seed(inp));
    ExpectedLength(inp);
  }

  /** The lists the rounds and the tail draw from are ascending and
      disjoint. */
  lemma PartitionFacts(inp: Inputs)
    requires WellFormed(inp)
    ensures Ascending(Unselected(inp)) && Ascending(Useless(inp, |inp.h|))
    ensures forall x | x in Unselected(inp) :: x !in Useless(inp, |inp.h|)
  {
    PartitionOf(inp, |inp.h|);
    WithoutAscending(Candidates(inp, |inp.h|), Seed(inp));
  }

  /** The rows after the seed and before the tail rank candidates other
      than the seed. */
  lemma ExpectedRounds(inp: Inputs)
    requires WellFormed(inp)
    ensures var r := Expected(inp); var m := |RoundRows(inp)|;
      && 2 <= m <= |r|
      && (forall k | 2 <= k < m ::
            r[k].index in Candidates(inp, |inp.h|) && r[k].index != Seed(inp) &&
            0 <= r[k].index < |inp.h| &&
            r[k].entropy == r[k].mutualInformation == inp.h[r[k].index])
  {
    PartitionFacts(inp);
    AssembleRounds(inp, Unselected(inp), Useless(inp, |inp.h|), Header(inp));
  }

  /** After the rounds come the zero-entropy attributes, in order. */
  lemma ExpectedTail(inp: Inputs)
    requires WellFormed(inp)
    ensures var r := Expected(inp); var m := |RoundRows(inp)|;
      var useless := Useless(inp, |inp.h|);
      && m <= |r| && |r| - m <= |useless|
      && r == RoundRows(inp) + ZeroRows(inp, useless[..|r| - m], m)
  {
    AssembleSplit(inp, Unselected(inp), Useless(inp, |inp.h|), Header(inp));
  }

  /** No attribute is ranked twice after the seed. */
  lemma ExpectedDistinct(inp: Inputs)
    requires WellFormed(inp)
    ensures var r := Expected(inp);
      forall k, k' | 2 <= k < k' < |r| :: r[k].index != r[k'].index
  {
    PartitionFacts(inp);
    AssembleDistinct(inp, Unselected(inp), Useless(inp, |inp.h|), Header(inp));
  }

  /** The seed is a candidate whenever some relevance reaches the smallest
      positive double: the class's relevance is minus infinity and a
      zero-entropy attribute's is zero. */
  lemma SeedIsCandidate(inp: Inputs)
    requires WellFormed(inp)
    requires exists i | 0 <= i < |inp.h| :: Geq(Relevances(inp)[i], Fin(MinPositiveDouble))
    ensures Seed(inp) in Candidates(inp, |inp.h|)
  {
    SeedChoice(inp);
    CandidatesOf(inp, |inp.h|);
  }

  /** The rounds' rows name candidates other than the seed, and the tail's
      rows zero-entropy attributes. */
  lemma ExpectedSources(inp: Inputs)
    requires WellFormed(inp)
    ensures var r := Expected(inp); var m := |RoundRows(inp)|;
      && 2 <= m <= |r|
      && (forall k | 2 <= k < m :: r[k].index in Candidates(inp, |inp.h|) && r[k].index != Seed(inp))
      && (forall k | m <= k < |r| :: r[k].index in Useless(inp, |inp.h|))
  {
    ExpectedRounds(inp);
    ExpectedTail(inp);
    var r := Expected(inp);
    var m := |RoundRows(inp)|;
    var useless := Useless(inp, |inp.h|);
    var z := ZeroRows(inp, useless[..|r| - m], m);
    forall k | m <= k < |r| ensures r[k].index in useless {
      assert r[k] == z[k - m];
      assert useless[..|r| - m][k - m] in useless;
    }
  }

  /** When the seed is a candidate, no row after it names the class or the
      seed again, and every row names an attribute. */
  lemma ExpectedAfterSeed(inp: Inputs)
    requires WellFormed(inp) && Seed(inp) in Candidates(inp, |inp.h|)
    ensures var r := Expected(inp);
      && (forall k | 0 <= k < |r| :: 0 <= r[k].index < |inp.h|)
      && (forall k | 2 <= k < |r| :: r[k].index != inp.c && r[k].index != Seed(inp))
  {
    var n := |inp.h|;
    ExpectedHeader(inp);
    ExpectedSources(inp);
    var r := Expected(inp);
    var m := |RoundRows(inp)|;
    forall k | 0 <= k < |r|
      ensures 0 <= r[k].index < n
      ensures k >= 2 ==> r[k].index != inp.c && r[k].index != Seed(inp)
    {
      if k >= m {
        UselessOf(inp, n);
        CandidatesOf(inp, n);
      } else if k >= 2 {
        CandidatesOf(inp, n);
      }
    }
  }

  /** The attribute column of a ranking. */
  function Indices(r: seq<MrmrResult>): (ix: seq<int>)
    ensures |ix| == |r| && forall k | 0 <= k < |r| :: ix[k] == r[k].index
  {
    seq(|r|, k requires 0 <= k < |r| => r[k].index)
  }

  /** When the seed is a candidate, no attribute is ranked twice. */
  lemma ExpectedIndicesDistinct(inp: Inputs)
    requires WellFormed(inp) && Seed(inp) in Candidates(inp, |inp.h|)
    ensures Distinct(Indices(Expected(inp)))
  {
    CandidatesOf(inp, |inp.h|);
    ExpectedHeader(inp);
    ExpectedAfterSeed(inp);
    ExpectedDistinct(inp);
    RowsDistinct(Expected(inp), inp.c, Seed(inp));
  }

  /** A ranking whose first two rows name different attributes that no
      later row names, and whose later rows name pairwise different
      attributes, names no attribute twice. */
  lemma RowsDistinct(r: seq<MrmrResult>, c: int, s: int)
    requires |r| >= 2 && r[0].index == c && r[1].index == s && c != s
    requires forall k | 2 <= k < |r| :: r[k].index != c && r[k].index != s
    requires forall k, k' | 2 <= k < k' < |r| :: r[k].index != r[k'].index
    ensures Distinct(Indices(r))
  {
  }

  /** Without a feature limit, and once some attribute's relevance to the
      class reaches the smallest positive double (so that the seed is a
      candidate), the ranking names every attribute exactly once. */
  lemma NoLimitRanksEachAttributeOnce(inp: Inputs)
    requires WellFormed(inp) && inp.limit == |inp.h| && inp.scoring != Invalid
    requires exists i | 0 <= i < |inp.h| :: Geq(Relevances(inp)[i], Fin(MinPositiveDouble))
    ensures var ix := Indices(Expected(inp));
      && |ix| == |inp.h| && Distinct(ix)
      && forall i | 0 <= i < |inp.h| :: i in ix
  {
    SeedIsCandidate(inp);
    NoLimitRanksEveryAttribute(inp);
    ExpectedIndicesDistinct(inp);
    ExpectedAfterSeed(inp);
    DistinctCover(Indices(Expected(inp)), |inp.h|);
  }

  /** `n` distinct values drawn from `[0, n)` take every value there. */
  lemma DistinctCover(s: seq<int>, n: nat)
    requires |s| == n && Distinct(s)
    requires forall k | 0 <= k < |s| :: 0 <= s[k] < n
    ensures forall i | 0 <= i < n :: i in s
  {
    var taken := set v | v in s;
    var all := Range(n);
    DistinctCardinality(s);
    assert taken <= all;
    assert all == taken + (all - taken);
    assert taken * (all - taken) == {};
    assert |all - taken| == 0;
    assert all - taken == {};
    forall i | 0 <= i < n ensures i in s {
      assert i in all;
      assert i in taken;
    }
  }

  /** The indices below `n`. */
  function Range(n: nat): (r: set<int>)
    ensures |r| == n && forall i :: i in r <==> 0 <= i < n
  {
    if n == 0 then {} else Range(n - 1) + {n - 1}
  }

  /** Four attributes `a`, `b`, `c`, `d`; the class is `b`; `a` and `c`
      have zero entropy; no two attributes share any information. */
  function FallbackInputs(): (inp: Inputs)
    ensures WellFormed(inp) && |inp.h| == 4
  {
    var zeros := [0.0, 0.0, 0.0, 0.0];
    Inputs(["a", "b", "c", "d"], [0.0, 1.0, 0.0, 1.0], [zeros, zeros, zeros, zeros], 1, 4, Mid)
  }

  lemma FallbackPartition()
    ensures Seed(FallbackInputs()) == 0
    ensures Candidates(FallbackInputs(), 4) == [3] && Useless(FallbackInputs(), 4) == [0, 2]
  {
    var inp := FallbackInputs();
    var rel := Relevances(inp);
    assert rel == [Fin(0.0), NegInf, Fin(0.0), Fin(0.0)];
    ScanPicksLastMaximum(rel, SeedStart);
    assert Candidates(inp, 1) == Candidates(inp, 2) == [];
    assert Candidates(inp, 3) == [];
    assert Useless(inp, 1) == Useless(inp, 2) == [0];
  }

  /** On `FallbackInputs` the one round picks `d` with score zero. */
  lemma FallbackRounds()
    ensures var inp := FallbackInputs();
      Rounds(inp, Unselected(inp), Header(inp)) == Outcome(Header(inp) + [Row(inp, 2, 3, Fin(0.0))], true)
  {
    var inp := FallbackInputs();
    FallbackPartition();
    assert Without([3], 0) == [3];
    var hd := Header(inp);
    assert Redundancy(inp, Selected(hd), 3) == 0.0;
    var scores := RoundScores(inp, Selected(hd), [3], 2);
    assert scores == [Fin(0.0)];
    assert Scan(scores, RoundStart) == Pick(Fin(0.0), 0);
    assert Choose(inp, [3], hd) == Choice(3, 0, Fin(0.0));
    assert EraseAt([3], 0) == [];
  }

  /** On `FallbackInputs` the ranking is the header, the round's pick and
      one tail row before the budget of four rows runs out. */
  lemma FallbackExpected()
    ensures var inp := FallbackInputs();
      Expected(inp) == Header(inp) + [Row(inp, 2, 3, Fin(0.0)), MrmrResult(3, 0, "a", 0.0, 0.0, PosInf)]
  {
    var inp := FallbackInputs();
    FallbackPartition();
    FallbackRounds();
    var rows := Header(inp) + [Row(inp, 2, 3, Fin(0.0))];
    var full := rows + [MrmrResult(3, 0, "a", 0.0, 0.0, PosInf)];
    assert Tail(inp, [0, 2], rows) == Tail(inp, [2], full) == full;
  }

  /** When no relevance reaches the smallest positive double, the seed scan
      keeps its start index 0, whatever attribute that is. On
      `FallbackInputs`, where the only candidate `d` carries no information
      about the class, the ranking without a feature limit is `b`, `a`, `d`,
      `a`: attribute `a` is ranked both as the seed and in the tail, and `c`
      is never ranked. */
  lemma SeedFallbackRanksAttributeTwice()
    ensures var r := Expected(FallbackInputs());
      |r| == 4 && r[0].index == 1 && r[1].index == 0 && r[2].index == 3 && r[3].index == 0
  {
    FallbackPartition();
    FallbackExpected();
  }

  /** A round row reports its attribute's entropy in both information
      columns. */
  lemma {:induction false} RoundEntries(inp: Inputs, rest: seq<nat>, rows: seq<MrmrResult>)
    requires WellFormed(inp) && |rows| >= 2 && RowsInRange(inp, rows) && Informative(inp, rest)
    ensures var o := Rounds(inp, rest, rows);
      forall k | |rows| <= k < |o.rows| ::
        0 <= o.rows[k].index < |inp.h| &&
        o.rows[k].entropy == o.rows[k].mutualInformation == inp.h[o.rows[k].index]
    decreases |rest|
  {
    if rest != [] && |rows| < inp.limit && inp.scoring != Invalid {
      var ch := Choose(inp, rest, rows);
      var rows' := rows + [Row(inp, |rows|, ch.index, ch.score)];
      var rest' := EraseAt(rest, ch.erase);
      RoundEntries(inp, rest', rows');
      RoundsPrefix(inp, rest', rows');
      var o := Rounds(inp, rest', rows');
      assert Rounds(inp, rest, rows) == o;
      assert o.rows[|rows|] == o.rows[..|rows'|][|rows|] == rows'[|rows|];
      forall k | |rows| <= k < |o.rows|
        ensures 0 <= o.rows[k].index < |inp.h| && o.rows[k].entropy == o.rows[k].mutualInformation == inp.h[o.rows[k].index]
      {
        if k == |rows| {
          assert o.rows[k] == Row(inp, |rows|, ch.index, ch.score);
        } else {
          assert |rows'| <= k;
        }
      }
    }
  }

  /** The seed is the last attribute of maximal relevance when some
      relevance reaches the smallest positive double, and attribute 0
      otherwise. */
  lemma SeedChoice(inp: Inputs)
    requires WellFormed(inp)
    ensures var rel := Relevances(inp); var s := Seed(inp);
      && ((forall i | 0 <= i < |rel| :: !Geq(rel[i], Fin(MinPositiveDouble))) ==> s == 0)
      && ((exists i | 0 <= i < |rel| :: Geq(rel[i], Fin(MinPositiveDouble))) ==>
            && Geq(rel[s], Fin(MinPositiveDouble))
            && (forall i | 0 <= i < |rel| :: Geq(rel[s], rel[i]))
            && (forall i | s < i < |rel| :: !Geq(rel[i], rel[s])))
  {
    var rel := Relevances(inp);
    ScanPicksLastMaximum(rel, SeedStart);
  }

  // ---------------------------------------------------------------------
  // What the selector reads from a dataset

  /** Every column's symbols are at least zero, as the estimator's
      unsigned histogram keys require. */
  ghost predicate AllNonNegative(ds: Dataset)
    reads ds
  {
    forall a | 0 <= a < |ds.data| :: NonNegative(ds.data[a])
  }

  /** The cached entropies of the first `n` attributes. */
  ghost function EntropiesOf(ds: Dataset, n: nat): (h: seq<real>)
    reads ds
    requires ds.Valid() && n <= |ds.data|
    ensures |h| == n
  {
    if n == 0 then [] else EntropiesOf(ds, n - 1) + [ds.AttributeEntropy(n - 1)]
  }

  lemma {:induction false} EntropiesAt(ds: Dataset, n: nat, i: nat)
    requires ds.Valid() && i < n <= |ds.data|
    ensures EntropiesOf(ds, n)[i] == ds.AttributeEntropy(i)
  {
    if i < n - 1 {
      EntropiesAt(ds, n - 1, i);
    }
  }

  /** The mutual information of attribute `a` with each of the first `n`
      attributes; zero throughout for a dataset without instances, where
      the estimator is never consulted. */
  ghost function MiRow(ds: Dataset, a: nat, n: nat): (r: seq<real>)
    reads ds
    requires ds.Valid() && a < |ds.data| && n <= |ds.data|
    ensures |r| == n
    ensures forall b | 0 <= b < n :: r[b] >= 0.0
  {
    if n == 0 then []
    else MiRow(ds, a, n - 1) + [if ds.numInstances > 0 then ds.MiOf(a, n - 1) else 0.0]
  }

  lemma {:induction false} MiRowAt(ds: Dataset, a: nat, n: nat, b: nat)
    requires ds.Valid() && a < |ds.data| && b < n <= |ds.data| && ds.numInstances > 0
    ensures MiRow(ds, a, n)[b] == ds.MiOf(a, b)
  {
    if b < n - 1 {
      MiRowAt(ds, a, n - 1, b);
    }
  }

  /** The rows `MiRow(ds, a, ...)` of the first `n` attributes `a`. */
  ghost function MiTable(ds: Dataset, n: nat): (m: seq<seq<real>>)
    reads ds
    requires ds.Valid() && n <= |ds.data|
    ensures |m| == n
    ensures forall a | 0 <= a < n :: m[a] == MiRow(ds, a, |ds.data|)
  {
    if n == 0 then [] else MiTable(ds, n - 1) + [MiRow(ds, n - 1, |ds.data|)]
  }

  /** Entry `i` of the entropies is the dataset's cached entropy of
      attribute `i`. */
  ghost predicate EntropyRead(ds: Dataset, inp: Inputs, i: nat)
    reads ds
    requires ds.Valid() && i < |inp.h| && i < |ds.attrInfo|
  {
    inp.h[i] == ds.AttributeEntropy(i)
  }

  /** Entry `mi[a][b]` is the mutual information the dataset's estimator
      gives for `a` and `b`, whenever there are instances. */
  ghost predicate MiRead(ds: Dataset, inp: Inputs, a: nat, b: nat)
    reads ds
    requires ds.Valid() && WellFormed(inp) && a < |inp.h| == |ds.data| && b < |inp.h|
  {
    ds.numInstances > 0 ==> inp.mi[a][b] == ds.MiOf(a, b)
  }

  /** `inp` holds the names, entropies and mutual information of the
      dataset `ds`, whose statistics are in step with its columns. The
      entries are related through `EntropyRead` and `MiRead`, which a
      proof names where it reads an entry. */
  ghost predicate Describes(ds: Dataset, inp: Inputs)
    reads ds
  {
    && ds.Valid() && ds.Aligned() && AllNonNegative(ds)
    && WellFormed(inp)
    && inp.names == ds.names && |inp.h| == |ds.data|
    && (forall i | 0 <= i < |inp.h| :: EntropyRead(ds, inp, i))
    && (forall a, b | 0 <= a < |inp.h| && 0 <= b < |inp.h| :: MiRead(ds, inp, a, b))
  }

  /** The inputs of a call `mrmr(ds, c, numFeatures, scoring)`. */
  ghost function InputsOf(ds: Dataset, c: nat, numFeatures: nat, scoring: Method): (inp: Inputs)
    reads ds
    requires ds.Valid() && c < |ds.names|
    ensures WellFormed(inp)
    ensures inp.names == ds.names && |inp.h| == |ds.data|
    ensures inp.c == c && inp.scoring == scoring && inp.limit == Limit(|ds.names|, numFeatures)
  {
    var n := |ds.data|;
    Inputs(ds.names, EntropiesOf(ds, n), MiTable(ds, n), c, Limit(|ds.names|, numFeatures), scoring)
  }

  /** The inputs of a call describe its dataset. */
  lemma InputsDescribe(ds: Dataset, c: nat, numFeatures: nat, scoring: Method)
    requires ds.Valid() && ds.Aligned() && AllNonNegative(ds) && c < |ds.names|
    ensures Describes(ds, InputsOf(ds, c, numFeatures, scoring))
  {
    var inp := InputsOf(ds, c, numFeatures, scoring);
    var n := |ds.data|;
    forall i | 0 <= i < n ensures EntropyRead(ds, inp, i) {
      EntropiesAt(ds, n, i);
    }
    forall a, b | 0 <= a < n && 0 <= b < n ensures MiRead(ds, inp, a, b) {
      if ds.numInstances > 0 {
        MiRowAt(ds, a, n, b);
      }
    }
  }

  /** `data.attribute_entropy(i)` reads the entry `h[i]` of the inputs. */
  method ReadEntropy(ds: Dataset, ghost inp: Inputs, i: nat) returns (h: real)
    requires Describes(ds, inp) && i < |inp.h|
    ensures h == inp.h[i]
  {
    assert EntropyRead(ds, inp, i);
    h := ds.AttributeEntropy(i);
  }

  /** `data.mutual_information(a, b)` for an attribute `b` of positive
      entropy reads the entry `mi[a][b]` of the inputs. */
  method ReadMutualInformation(ds: Dataset, ghost inp: Inputs, a: nat, b: nat) returns (mi: real)
    requires Describes(ds, inp) && a < |inp.h| && b < |inp.h| && inp.h[b] > 0.0
    ensures mi == inp.mi[a][b]
  {
    assert EntropyRead(ds, inp, b) && MiRead(ds, inp, a, b);
    // The entropy of an empty column is zero, so `b` has observations.
    assert ds.numInstances > 0;
    assert ds.InSync(a) && ds.InSync(b) && NonNegative(ds.data[b]);
    mi := ds.MutualInformation(a, b);
  }

  // ---------------------------------------------------------------------
  // The selector

  /** One more attribute joins the candidates or the zero-entropy list,
      unless it is the class. */
  lemma PartitionStep(inp: Inputs, i: nat)
    requires WellFormed(inp) && i < |inp.h|
    ensures Candidates(inp, i + 1) ==
      Candidates(inp, i) + if i != inp.c && inp.h[i] > 0.0 then [i] else []
    ensures Useless(inp, i + 1) ==
      Useless(inp, i) + if i != inp.c && !(inp.h[i] > 0.0) then [i] else []
  {
  }

  /** The relevances of the attributes below `i` are in place, except the
      class's, which is set after the loop. */
  ghost predicate RelevantUpTo(inp: Inputs, relevance: seq<Ext>, i: nat)
    requires WellFormed(inp)
  {
    && |relevance| == |inp.h|
    && forall j | 0 <= j < i && j < |inp.h| && j != inp.c :: relevance[j] == Relevance(inp, j)
  }

  lemma RelevantStep(inp: Inputs, relevance: seq<Ext>, i: nat, relevance': seq<Ext>)
    requires WellFormed(inp) && RelevantUpTo(inp, relevance, i) && i < |inp.h|
    requires relevance' == if i == inp.c then relevance else relevance[i := Relevance(inp, i)]
    ensures RelevantUpTo(inp, relevance', i + 1)
  {
  }

  lemma RelevantEnd(inp: Inputs, relevance: seq<Ext>)
    requires WellFormed(inp) && RelevantUpTo(inp, relevance, |inp.h|)
    ensures relevance[inp.c := NegInf] == Relevances(inp)
  {
    var r := relevance[inp.c := NegInf];
    forall j | 0 <= j < |inp.h| ensures r[j] == Relevances(inp)[j] {
    }
  }

  /** The body of the prerequisites loop for attribute `i`: the class is
      skipped; an attribute of positive entropy gets its mutual information
      with the class as relevance and is pushed to the front of the
      candidate list; any other gets relevance zero and joins the
      zero-entropy list. */
  method ClassifyAttribute(ds: Dataset, ghost inp: Inputs, c: nat, i: nat,
                           relevance: seq<Ext>, front: seq<nat>, useless: seq<nat>)
      returns (relevance': seq<Ext>, front': seq<nat>, useless': seq<nat>)
    requires Describes(ds, inp) && c == inp.c && i < |relevance| == |inp.h|
    ensures relevance' == if i == c then relevance else relevance[i := Relevance(inp, i)]
    ensures front' == if i != c && inp.h[i] > 0.0 then [i] + front else front
    ensures useless' == if i != c && !(inp.h[i] > 0.0) then useless + [i] else useless
  {
    relevance', front', useless' := relevance, front, useless;
    if i != c {
      var h := ReadEntropy(ds, inp, i);
      if h > 0.0 {
        var mi := ReadMutualInformation(ds, inp, c, i);
        relevance' := relevance[i := Fin(mi)];
        front' := [i] + front;
      } else {
        relevance' := relevance[i := Fin(0.0)];
        useless' := useless + [i];
      }
    }
  }

  /** The state of the prerequisites loop after the attributes below `i`:
      their relevances, the candidates pushed to the front (hence in
      reverse order), and the zero-entropy attributes appended. */
  ghost predicate PartitionedUpTo(inp: Inputs, i: nat, relevance: seq<Ext>, front: seq<nat>, useless: seq<nat>)
    requires WellFormed(inp)
  {
    && i <= |inp.h|
    && RelevantUpTo(inp, relevance, i)
    && Reverse(front) == Candidates(inp, i)
    && useless == Useless(inp, i)
  }

  /** One pass of the prerequisites loop keeps its state. */
  method PartitionPass(ds: Dataset, ghost inp: Inputs, c: nat, i: nat,
                       relevance: seq<Ext>, front: seq<nat>, useless: seq<nat>)
      returns (relevance': seq<Ext>, front': seq<nat>, useless': seq<nat>)
    requires Describes(ds, inp) && c == inp.c && i < |inp.h|
    requires PartitionedUpTo(inp, i, relevance, front, useless)
    ensures PartitionedUpTo(inp, i + 1, relevance', front', useless')
  {
    PartitionStep(inp, i);
    ReverseCons(i, front);
    relevance', front', useless' := ClassifyAttribute(ds, inp, c, i, relevance, front, useless);
    RelevantStep(inp, relevance, i, relevance');
  }

  /** The prerequisites loop: relevance to the class for every attribute,
      the candidates pushed to the front of a list that is then reversed,
      the zero-entropy attributes appended to a second list. */
  method Partition(ds: Dataset, ghost inp: Inputs, c: nat)
      returns (relevance: seq<Ext>, unselected: seq<nat>, useless: seq<nat>)
    requires Describes(ds, inp) && c == inp.c
    ensures relevance == Relevances(inp)
    ensures unselected == Candidates(inp, |inp.h|) && useless == Useless(inp, |inp.h|)
  {
    var n := ds.NumAttributes();
    relevance := seq(n, _ => Fin(0.0));
    var front: seq<nat> := [];
    useless := [];
    var i: nat := 0;
    while i < n
      invariant i <= n == |inp.h|
      invariant PartitionedUpTo(inp, i, relevance, front, useless)
    {
      relevance, front, useless := PartitionPass(ds, inp, c, i, relevance, front, useless);
      i := i + 1;
    }
    unselected := Reverse(front);
    RelevantEnd(inp, relevance);
    relevance := relevance[c := NegInf];
  }

  /** The seed scan: the last attribute whose relevance compares `>=` to
      the best so far, starting from the smallest positive double at
      index 0. */
  method SeedPick(relevance: seq<Ext>) returns (best: nat, max: Ext)
    ensures Pick(max, best) == Scan(relevance, SeedStart)
  {
    best, max := 0, Fin(MinPositiveDouble);
    for j := 0 to |relevance|
      invariant Pick(max, best) == Scan(relevance[..j], SeedStart)
    {
      assert relevance[..j + 1][..j] == relevance[..j];
      if Geq(relevance[j], max) {
        max := relevance[j];
        best := j;
      }
    }
    assert relevance[..|relevance|] == relevance;
  }

  /** The selected attributes after one more row: those before it, then
      the new row's. */
  lemma SelectedStep(rows: seq<MrmrResult>)
    requires |rows| >= 2
    ensures Selected(rows) == Selected(rows[..|rows| - 1]) + [rows[|rows| - 1].index]
  {
  }

  /** Selecting `last` adds its mutual information with `i` to the
      redundancy sum of `i`. */
  lemma RedundancyStep(inp: Inputs, rows: seq<MrmrResult>, i: nat)
    requires WellFormed(inp) && i < |inp.h| && |rows| >= 2 && RowsInRange(inp, rows)
    ensures Redundancy(inp, Selected(rows), i) ==
      Redundancy(inp, Selected(rows[..|rows| - 1]), i) + inp.mi[rows[|rows| - 1].index][i]
  {
    var sel := Selected(rows);
    SelectedStep(rows);
    assert sel[..|sel| - 1] == Selected(rows[..|rows| - 1]);
  }

  /** The state of a round's scan after some attributes: the scan's best
      score so far, and the attribute and list position it designates
      (the last emitted attribute and the head of the list while nothing
      has compared `>=`). */
  ghost predicate Tracks(p: Pick, score: Ext, best: nat, erase: nat, rest: seq<nat>, last: nat) {
    && p.score == score
    && (p.pos < 0 ==> best == last && erase == 0)
    && (p.pos >= 0 ==> p.pos < |rest| && best == rest[p.pos] && erase == p.pos)
  }

  /** The scan after its first `t` scores, unfolded one score at a time
      as a loop takes them. */
  ghost function ScanTo(s: seq<Ext>, t: nat, start: Pick): Pick
    requires t <= |s|
  {
    if t == 0 then start
    else
      var p := ScanTo(s, t - 1, start);
      if Geq(s[t - 1], p.score) then Pick(s[t - 1], t - 1) else p
  }

  lemma {:induction false} ScanToIsScan(s: seq<Ext>, t: nat, start: Pick)
    requires t <= |s|
    ensures ScanTo(s, t, start) == Scan(s[..t], start)
  {
    if t > 0 {
      ScanToIsScan(s, t - 1, start);
      assert s[..t][..t - 1] == s[..t - 1];
    }
  }

  /** The redundancy sums part way through a round: the first `t`
      attributes of `rest` count the selection `sel`, the others still
      count `before`. */
  ghost predicate Updated(inp: Inputs, r: seq<real>, rest: seq<nat>, t: nat,
                          sel: seq<int>, before: seq<int>) {
    && WellFormed(inp) && Attributes(inp, rest) && t <= |rest| && |r| == |inp.h|
    && InRange(inp, sel) && InRange(inp, before)
    && (forall u | 0 <= u < t :: r[rest[u]] == Redundancy(inp, sel, rest[u]))
    && (forall u | t <= u < |rest| :: r[rest[u]] == Redundancy(inp, before, rest[u]))
  }

  /** Updating the sum of the next attribute of an ascending list touches
      no other attribute of the list. */
  lemma UpdatedStep(inp: Inputs, r: seq<real>, rest: seq<nat>, t: nat,
                    sel: seq<int>, before: seq<int>)
    requires Updated(inp, r, rest, t, sel, before) && t < |rest| && Ascending(rest)
    ensures Updated(inp, r[rest[t] := Redundancy(inp, sel, rest[t])], rest, t + 1, sel, before)
  {
  }

  /** Before a round no attribute counts the last selection yet. */
  lemma UpdatedStart(inp: Inputs, r: seq<real>, rest: seq<nat>, rows: seq<MrmrResult>)
    requires WellFormed(inp) && Informative(inp, rest) && |r| == |inp.h|
    requires |rows| >= 2 && RowsInRange(inp, rows)
    requires forall x | x in rest :: r[x] == Redundancy(inp, Selected(rows[..|rows| - 1]), x)
    ensures Updated(inp, r, rest, 0, Selected(rows), Selected(rows[..|rows| - 1]))
  {
    forall u | 0 <= u < |rest| ensures rest[u] < |inp.h| && r[rest[u]] == Redundancy(inp, Selected(rows[..|rows| - 1]), rest[u]) {
      assert rest[u] in rest;
    }
  }

  /** After a round every attribute of the list counts the last selection. */
  lemma UpdatedEnd(inp: Inputs, r: seq<real>, rest: seq<nat>, sel: seq<int>, before: seq<int>)
    requires Updated(inp, r, rest, |rest|, sel, before)
    ensures forall x | x in rest :: r[x] == Redundancy(inp, sel, x)
  {
    forall x | x in rest ensures r[x] == Redundancy(inp, sel, x) {
      var u :| 0 <= u < |rest| && rest[u] == x;
    }
  }

  /** A scan tracked over all the scores of a round is the round's choice. */
  lemma TracksChoice(inp: Inputs, rest: seq<nat>, rows: seq<MrmrResult>,
                     score: Ext, best: nat, erase: nat)
    requires WellFormed(inp) && |rows| >= 2 && RowsInRange(inp, rows) && Informative(inp, rest)
    requires rest != [] && inp.scoring != Invalid
    requires Tracks(ScanTo(RoundScores(inp, Selected(rows), rest, |rows|), |rest|, RoundStart),
                    score, best, erase, rest, rows[|rows| - 1].index)
    ensures Choice(best, erase, score) == Choose(inp, rest, rows)
  {
    var scores := RoundScores(inp, Selected(rows), rest, |rows|);
    ScanToIsScan(scores, |rest|, RoundStart);
    assert scores[..|rest|] == scores;
  }

  /** The comparison of the inner loop: a score that compares `>=` to the
      best so far replaces it, together with the attribute and its list
      position. */
  method KeepBest(score: Ext, a: nat, t: nat, bestScore: Ext, best: nat, erase: nat,
                  ghost scores: seq<Ext>, ghost rest: seq<nat>, ghost last: nat)
      returns (bestScore': Ext, best': nat, erase': nat)
    requires t < |scores| == |rest| && scores[t] == score && rest[t] == a
    requires Tracks(ScanTo(scores, t, RoundStart), bestScore, best, erase, rest, last)
    ensures Tracks(ScanTo(scores, t + 1, RoundStart), bestScore', best', erase', rest, last)
  {
    bestScore', best', erase' := bestScore, best, erase;
    if Geq(score, bestScore) {
      bestScore', best', erase' := score, a, t;
    }
  }

  /** The body of the inner loop for attribute `a`: its redundancy sum
      grows by its mutual information with the attribute selected last,
      and its score is relevance minus average redundancy (MID) or
      relevance over average redundancy (MIQ); any other method fails. */
  method ScoreAttribute(ds: Dataset, ghost inp: Inputs, scoring: Method, relevance: seq<Ext>,
                        redundance: seq<real>, a: nat, ghost rows: seq<MrmrResult>,
                        last: nat, rank: nat)
      returns (ok: bool, redundance': seq<real>, score: Ext)
    requires Describes(ds, inp) && scoring == inp.scoring && relevance == Relevances(inp)
    requires |redundance| == |inp.h| && a < |inp.h| && a != inp.c && inp.h[a] > 0.0
    requires rank == |rows| >= 2 && RowsInRange(inp, rows) && last == rows[|rows| - 1].index
    requires redundance[a] == Redundancy(inp, Selected(rows[..|rows| - 1]), a)
    ensures ok <==> scoring != Invalid
    ensures redundance' == redundance[a := Redundancy(inp, Selected(rows), a)]
    ensures ok ==> score == Score(scoring, inp.mi[inp.c][a], Redundancy(inp, Selected(rows), a), rank)
  {
    var mi := ReadMutualInformation(ds, inp, last, a);
    RedundancyStep(inp, rows, a);
    redundance' := redundance[a := redundance[a] + mi];
    var redundanceValue := redundance'[a] / (rank - 1) as real;
    var mutualInformation := relevance[a].v;
    if scoring == Mid {
      ok, score := true, Fin(mutualInformation - redundanceValue);
    } else if scoring == Miq {
      ok, score := true, Quotient(mutualInformation, redundanceValue + 0.0001);
    } else {
      ok, score := false, NaN;
    }
  }

  /** One pass of the inner loop at list position `t`: the attribute
      there is scored and compared with the best so far. */
  method ScanAttribute(ds: Dataset, ghost inp: Inputs, scoring: Method, relevance: seq<Ext>,
                       redundance: seq<real>, unselected: seq<nat>, t: nat,
                       ghost rows: seq<MrmrResult>, last: nat, rank: nat,
                       bestScore: Ext, best: nat, erase: nat, ghost scores: seq<Ext>)
      returns (ok: bool, redundance': seq<real>, bestScore': Ext, best': nat, erase': nat)
    requires Describes(ds, inp) && scoring == inp.scoring && relevance == Relevances(inp)
    requires rank == |rows| >= 2 && RowsInRange(inp, rows) && last == rows[|rows| - 1].index
    requires Informative(inp, unselected) && Ascending(unselected) && t < |unselected|
    requires scoring != Invalid ==> scores == RoundScores(inp, Selected(rows), unselected, rank)
    requires Updated(inp, redundance, unselected, t, Selected(rows), Selected(rows[..|rows| - 1]))
    requires scoring != Invalid ==>
      Tracks(ScanTo(scores, t, RoundStart), bestScore, best, erase, unselected, last)
    ensures ok <==> scoring != Invalid
    ensures |redundance'| == |inp.h|
    ensures ok ==> Updated(inp, redundance', unselected, t + 1, Selected(rows), Selected(rows[..|rows| - 1]))
    ensures ok ==> Tracks(ScanTo(scores, t + 1, RoundStart), bestScore', best', erase', unselected, last)
  {
    var a := unselected[t];
    assert a in unselected;
    UpdatedStep(inp, redundance, unselected, t, Selected(rows), Selected(rows[..|rows| - 1]));
    var score;
    ok, redundance', score := ScoreAttribute(ds, inp, scoring, relevance, redundance, a, rows, last, rank);
    bestScore', best', erase' := bestScore, best, erase;
    if ok {
      assert scores[t] == score;
      bestScore', best', erase' := KeepBest(score, a, t, bestScore, best, erase, scores, unselected, last);
    }
  }

  /** The inner loop of a round over the list `unselected`, scored for
      the selection `rows`; it stops at the first attribute when the
      method is unknown. */
  method ScanRound(ds: Dataset, ghost inp: Inputs, scoring: Method, relevance: seq<Ext>,
                   redundance: seq<real>, unselected: seq<nat>, ghost rows: seq<MrmrResult>,
                   last: nat, rank: nat, ghost scores: seq<Ext>)
      returns (ok: bool, redundance': seq<real>, bestScore: Ext, best: nat, erase: nat)
    requires Describes(ds, inp) && scoring == inp.scoring && relevance == Relevances(inp)
    requires rank == |rows| >= 2 && RowsInRange(inp, rows) && last == rows[|rows| - 1].index
    requires Informative(inp, unselected) && Ascending(unselected)
    requires scoring != Invalid ==> scores == RoundScores(inp, Selected(rows), unselected, rank)
    requires Updated(inp, redundance, unselected, 0, Selected(rows), Selected(rows[..|rows| - 1]))
    ensures ok <==> scoring != Invalid
    ensures |redundance'| == |inp.h|
    ensures ok ==> Updated(inp, redundance', unselected, |unselected|, Selected(rows), Selected(rows[..|rows| - 1]))
    ensures ok ==> Tracks(ScanTo(scores, |unselected|, RoundStart), bestScore, best, erase, unselected, last)
  {
    redundance' := redundance;
    bestScore, best, erase := NegInf, last, 0;
    var t := 0;
    while t < |unselected|
      invariant 0 <= t <= |unselected|
      invariant scoring == Invalid ==> t == 0
      invariant Describes(ds, inp) && |redundance'| == |inp.h|
      invariant Updated(inp, redundance', unselected, t, Selected(rows), Selected(rows[..|rows| - 1]))
      invariant scoring != Invalid ==>
        Tracks(ScanTo(scores, t, RoundStart), bestScore, best, erase, unselected, last)
    {
      ok, redundance', bestScore, best, erase :=
        ScanAttribute(ds, inp, scoring, relevance, redundance', unselected, t, rows, last, rank,
                      bestScore, best, erase, scores);
      if !ok {
        return;
      }
      t := t + 1;
    }
    ok := scoring != Invalid;
  }

  /** One selection round, the inner loop over the unselected attributes:
      each is scored, and the last attribute of maximal score is
      remembered with its list position. An unknown method ends the
      round, and the selector, at the first attribute. */
  method Round(ds: Dataset, ghost inp: Inputs, scoring: Method, relevance: seq<Ext>,
               redundance: seq<real>, unselected: seq<nat>, ghost rows: seq<MrmrResult>,
               last: nat, rank: nat)
      returns (ok: bool, redundance': seq<real>, pick: Choice)
    requires Describes(ds, inp) && scoring == inp.scoring && relevance == Relevances(inp)
    requires |redundance| == |inp.h|
    requires rank == |rows| >= 2 && RowsInRange(inp, rows) && last == rows[|rows| - 1].index
    requires unselected != [] && Informative(inp, unselected) && Ascending(unselected)
    requires forall x | x in unselected ::
      redundance[x] == Redundancy(inp, Selected(rows[..|rows| - 1]), x)
    ensures ok <==> scoring != Invalid
    ensures |redundance'| == |inp.h|
    ensures ok ==> pick == Choose(inp, unselected, rows)
    ensures ok ==> forall x | x in unselected :: redundance'[x] == Redundancy(inp, Selected(rows), x)
  {
    ghost var scores := if scoring != Invalid then RoundScores(inp, Selected(rows), unselected, rank) else [];
    UpdatedStart(inp, redundance, unselected, rows);
    var bestScore, best, erase;
    ok, redundance', bestScore, best, erase :=
      ScanRound(ds, inp, scoring, relevance, redundance, unselected, rows, last, rank, scores);
    pick := Choice(best, erase, bestScore);
    if ok {
      TracksChoice(inp, unselected, rows, bestScore, best, erase);
      UpdatedEnd(inp, redundance', unselected, Selected(rows), Selected(rows[..|rows| - 1]));
    }
  }

  /** One pass of the main loop: a round over `unselected`, then the pick
      emitted with its entropy, erased from the list and remembered as the
      last selection. */
  method SelectionStep(ds: Dataset, ghost inp: Inputs, scoring: Method, relevance: seq<Ext>,
                       redundance: seq<real>, unselected: seq<nat>, rows: seq<MrmrResult>,
                       last: nat, rank: nat)
      returns (ok: bool, redundance': seq<real>, unselected': seq<nat>, rows': seq<MrmrResult>,
               last': nat, rank': nat)
    requires Describes(ds, inp) && scoring == inp.scoring && relevance == Relevances(inp)
    requires |redundance| == |inp.h|
    requires rank == |rows| >= 2 && RowsInRange(inp, rows) && last == rows[|rows| - 1].index
    requires unselected != [] && Informative(inp, unselected) && Ascending(unselected)
    requires forall x | x in unselected ::
      redundance[x] == Redundancy(inp, Selected(rows[..|rows| - 1]), x)
    ensures ok <==> scoring != Invalid
    ensures !ok ==> rows' == rows
    ensures ok ==> var ch := Choose(inp, unselected, rows);
      && unselected' == EraseAt(unselected, ch.erase)
      && rows' == rows + [Row(inp, rank, ch.index, ch.score)]
    ensures ok ==> |redundance'| == |inp.h|
    ensures ok ==> rank' == |rows'| >= 2 && RowsInRange(inp, rows') && last' == rows'[|rows'| - 1].index
    ensures ok ==> Informative(inp, unselected') && Ascending(unselected')
    ensures ok ==> forall x | x in unselected' ::
      redundance'[x] == Redundancy(inp, Selected(rows'[..|rows'| - 1]), x)
  {
    var pick;
    ok, redundance', pick := Round(ds, inp, scoring, relevance, redundance, unselected, rows, last, rank);
    unselected', rows', last', rank' := unselected, rows, last, rank;
    if ok {
      var h := ReadEntropy(ds, inp, pick.index);
      rows' := rows + [MrmrResult(rank, pick.index, ds.AttributeName(pick.index), h, h, pick.score)];
      rank' := rank + 1;
      EraseAscending(unselected, pick.erase);
      unselected' := EraseAt(unselected, pick.erase);
      last' := pick.index;
      assert rows'[..|rows'| - 1] == rows;
    }
  }

  /** The main loop: rounds while attributes remain unselected and the
      row budget lasts; an unknown method ends it early. */
  method SelectionLoop(ds: Dataset, ghost inp: Inputs, scoring: Method, limit: nat,
                       relevance: seq<Ext>, redundance0: seq<real>, unselected0: seq<nat>,
                       rows0: seq<MrmrResult>, last0: nat)
      returns (rows: seq<MrmrResult>, complete: bool)
    requires Describes(ds, inp) && scoring == inp.scoring && limit == inp.limit
    requires relevance == Relevances(inp) && |redundance0| == |inp.h|
    requires |rows0| == 2 && RowsInRange(inp, rows0) && last0 == rows0[1].index
    requires Informative(inp, unselected0) && Ascending(unselected0)
    requires forall x | x in unselected0 :: redundance0[x] == 0.0
    ensures Outcome(rows, complete) == Rounds(inp, unselected0, rows0)
  {
    var redundance, unselected, last, rank := redundance0, unselected0, last0, 2;
    rows := rows0;
    assert rows0[..1][..0] == [];
    while unselected != [] && rank < limit
      invariant rank == |rows| >= 2 && RowsInRange(inp, rows) && last == rows[|rows| - 1].index
      invariant Informative(inp, unselected) && Ascending(unselected)
      invariant |redundance| == |inp.h|
      invariant forall x | x in unselected ::
        redundance[x] == Redundancy(inp, Selected(rows[..|rows| - 1]), x)
      invariant Rounds(inp, unselected, rows) == Rounds(inp, unselected0, rows0)
      decreases |unselected|
    {
      var ok;
      ok, redundance, unselected, rows, last, rank :=
        SelectionStep(ds, inp, scoring, relevance, redundance, unselected, rows, last, rank);
      if !ok {
        return rows, false;
      }
    }
    complete := true;
  }

  /** The tail loop: the zero-entropy attributes in order, each with no
      information and score plus infinity, until the row budget is
      spent. */
  method EmitUseless(ds: Dataset, ghost inp: Inputs, limit: nat, useless: seq<nat>,
                     rows0: seq<MrmrResult>)
      returns (rows: seq<MrmrResult>)
    requires WellFormed(inp) && limit == inp.limit && ds.names == inp.names
    requires Attributes(inp, useless)
    ensures rows == Tail(inp, useless, rows0)
  {
    rows := rows0;
    var rank := |rows0|;
    var k := 0;
    while k < |useless|
      invariant k <= |useless| && rank == |rows|
      invariant Tail(inp, useless[k..], rows) == Tail(inp, useless, rows0)
    {
      if rank >= limit {
        break;
      }
      var a := useless[k];
      assert useless[k..][1..] == useless[k + 1..];
      rows := rows + [MrmrResult(rank, a, ds.AttributeName(a), 0.0, 0.0, PosInf)];
      rank := rank + 1;
      k := k + 1;
    }
  }

  /** Everything before the main loop: the partition of the attributes,
      the class row and the seed row, and the seed taken out of the list
      of unselected attributes. */
  method Start(ds: Dataset, ghost inp: Inputs, c: nat)
      returns (relevance: seq<Ext>, unselected: seq<nat>, useless: seq<nat>,
               result: seq<MrmrResult>, last: nat)
    requires Describes(ds, inp) && c == inp.c
    ensures relevance == Relevances(inp) && useless == Useless(inp, |inp.h|)
    ensures unselected == Unselected(inp) && result == Header(inp) && last == Seed(inp)
  {
    relevance, unselected, useless := Partition(ds, inp, c);

    var classEntropy := ReadEntropy(ds, inp, c);
    result := [MrmrResult(0, c, ds.AttributeName(c), classEntropy, classEntropy, NaN)];

    var best, max := SeedPick(relevance);
    last := best;
    unselected := Without(unselected, best);
    var score := relevance[best];
    var h := ReadEntropy(ds, inp, best);
    result := result + [MrmrResult(1, best, ds.AttributeName(best), h, h, score)];
  }

  /** `mrmr(data, class_attribute, num_features, method)`: the ranking of
      the attributes of `ds` against the class attribute `c`, exactly the
      value `Expected` of the dataset's statistics. */
  method Mrmr(ds: Dataset, c: nat, numFeatures: nat, scoring: Method)
      returns (result: seq<MrmrResult>)
    requires ds.Valid() && ds.Aligned() && AllNonNegative(ds) && c < |ds.names|
    ensures result == Expected(InputsOf(ds, c, numFeatures, scoring))
  {
    ghost var inp := InputsOf(ds, c, numFeatures, scoring);
    InputsDescribe(ds, c, numFeatures, scoring);
    var limit := if numFeatures == 0 then ds.NumAttributes() else numFeatures + 1;
    var redundance := seq(ds.NumAttributes(), _ => 0.0);
    var relevance, unselected, useless, last;
    relevance, unselected, useless, result, last := Start(ds, inp, c);
    PartitionFacts(inp);
    var complete;
    result, complete := SelectionLoop(ds, inp, scoring, limit, relevance, redundance,
                                      unselected, result, last);
    if complete {
      result := EmitUseless(ds, inp, limit, useless, result);
    }
  }
}
