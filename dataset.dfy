/** The dataset: a table of discretised observations held one column per
    attribute, the attribute names, and the per-attribute statistics
    cached alongside. It discretises and transposes an instance-by-attribute
    table of readings, looks attributes up by name, appends or overwrites
    attribute columns, and estimates the mutual information of two
    attributes from a joint histogram. */
module Data {
  import opened Counting
  import opened Numerics
  import opened AttributeInfo
  import opened MutualInfo

  /** How a reading becomes a symbol: `std::round`, `std::floor`,
      `std::ceil`, or, for any other selector value, the plain conversion
      to the integer symbol type, which truncates toward zero. */
  datatype Discretization = Round | Floor | Ceiling | Truncate

  /** The symbol a reading discretises to, characterised by where the
      reading lies relative to it. Rounding sends halves away from zero. */
  function Discretize(dm: Discretization, x: real): (r: int)
    ensures dm == Floor ==> r as real <= x < r as real + 1.0
    ensures dm == Ceiling ==> r as real - 1.0 < x <= r as real
    ensures dm == Round && x >= 0.0 ==> r as real - 0.5 <= x < r as real + 0.5
    ensures dm == Round && x < 0.0 ==> r as real - 0.5 < x <= r as real + 0.5
    ensures dm == Truncate && x >= 0.0 ==> r as real <= x < r as real + 1.0
    ensures dm == Truncate && x < 0.0 ==> r as real - 1.0 < x <= r as real
  {
    match dm
    case Floor => x.Floor
    case Ceiling => -((-x).Floor)
    case Round => if x >= 0.0 then (x + 0.5).Floor else -((-x + 0.5).Floor)
    case Truncate => if x >= 0.0 then x.Floor else -((-x).Floor)
  }

  /** The constructor's nested loops (instances outer, attributes inner):
      the readings, one row per instance, discretised and transposed into
      one column per attribute. */
  method Discretise(temp: seq<seq<real>>, width: nat, dm: Discretization) returns (cols: seq<seq<int>>)
    requires forall i | 0 <= i < |temp| :: |temp[i]| >= width
    ensures |cols| == width
    ensures forall a | 0 <= a < width :: |cols[a]| == |temp|
    ensures forall a, i | 0 <= a < width && 0 <= i < |temp| :: cols[a][i] == Discretize(dm, temp[i][a])
  {
    cols := seq(width, _ => seq(|temp|, _ => 0));
    var i := 0;
    while i < |temp|
      invariant 0 <= i <= |temp|
      invariant |cols| == width && forall a | 0 <= a < width :: |cols[a]| == |temp|
      invariant forall a, j | 0 <= a < width && 0 <= j < i :: cols[a][j] == Discretize(dm, temp[j][a])
    {
      var a := 0;
      while a < width
        invariant 0 <= a <= width
        invariant |cols| == width && forall b | 0 <= b < width :: |cols[b]| == |temp|
        invariant forall b, j | 0 <= b < width && 0 <= j < i :: cols[b][j] == Discretize(dm, temp[j][b])
        invariant forall b | 0 <= b < a :: cols[b][i] == Discretize(dm, temp[i][b])
      {
        cols := cols[a := cols[a][i := Discretize(dm, temp[i][a])]];
        a := a + 1;
      }
      i := i + 1;
    }
  }

  /** `std::max_element` over a non-empty list of symbols. */
  function Max(s: seq<int>): (m: int)
    requires s != []
    ensures m in s && forall v | v in s :: v <= m
  {
    if |s| == 1 then s[0]
    else
      var m := Max(s[1..]);
      assert forall v | v in s :: v == s[0] || v in s[1..];
      if s[0] > m then s[0] else m
  }

  /** Every observation of a column is a symbol at least zero. */
  ghost predicate NonNegative(s: seq<int>) {
    forall i | 0 <= i < |s| :: s[i] >= 0
  }

  /** Every cached statistics object is consistent, uses `ln` and was
      built from `n` observations. */
  ghost predicate Cached(infos: seq<AttributeInformation>, ln: real -> real, n: nat) {
    forall k | 0 <= k < |infos| :: infos[k].Valid() && infos[k].ln == ln && |infos[k].column| == n
  }

  /** Adding a consistent entry anywhere keeps the cache consistent. */
  lemma CachedInsert(infos: seq<AttributeInformation>, k: nat, info: AttributeInformation,
                     ln: real -> real, n: nat)
    requires Cached(infos, ln, n) && k <= |infos|
    requires info.Valid() && info.ln == ln && |info.column| == n
    ensures Cached(infos[..k] + [info] + infos[k..], ln, n)
  {
  }

  class Dataset {
    /** Attribute names, in column order (`_names`). */
    var names: seq<string>
    /** One column of observations per attribute (`_data`). */
    var data: seq<seq<int>>
    /** Cached statistics (`_attr_info`); normally one per attribute, but
        overwriting an attribute adds an entry rather than replacing one. */
    var attrInfo: seq<AttributeInformation>
    /** Number of instances (`_data.num_columns()`). */
    var numInstances: nat
    /** The natural logarithm the statistics are computed with. */
    const ln: real -> real

    ghost predicate Valid()
      reads this
    {
      && ValidLn(ln)
      && |data| == |names|
      && |names| <= |attrInfo|
      && (|names| == 0 ==> attrInfo == [])
      && (forall a | 0 <= a < |data| :: |data[a]| == numInstances)
      && Cached(attrInfo, ln, numInstances)
    }

    /** The statistics cached for attribute `a` were built from its
        current column. */
    ghost predicate InSync(a: int)
      reads this
    {
      0 <= a < |data| && a < |attrInfo| && attrInfo[a].column == data[a]
    }

    /** Every attribute's statistics are those of its current column. */
    ghost predicate Aligned()
      reads this
    {
      forall a | 0 <= a < |data| :: InSync(a)
    }

    /** `dataset()`: no attribute and no instance. */
    constructor Empty(ln: real -> real)
      requires ValidLn(ln)
      ensures Valid() && Aligned()
      ensures names == [] && data == [] && attrInfo == [] && numInstances == 0 && this.ln == ln
    {
      names := [];
      data := [];
      attrInfo := [];
      numInstances := 0;
      this.ln := ln;
    }

    /** `dataset(is, dm)` once the header names and the table of readings
        (one row per instance) have been read: the table is discretised
        and transposed, then the statistics of every attribute are built
        from its column, in attribute order. */
    constructor FromReadings(names: seq<string>, temp: seq<seq<real>>, dm: Discretization, ln: real -> real)
      requires ValidLn(ln)
      requires forall i | 0 <= i < |temp| :: |temp[i]| >= |names|
      ensures Valid() && Aligned()
      ensures this.names == names && numInstances == |temp| && this.ln == ln
      ensures |data| == |names| && |attrInfo| == |names|
      ensures forall a, i | 0 <= a < |names| && 0 <= i < |temp| :: data[a][i] == Discretize(dm, temp[i][a])
    {
      var cols := Discretise(temp, |names|, dm);
      var infos: seq<AttributeInformation> := [];
      var a := 0;
      while a < |names|
        invariant 0 <= a <= |names| && |infos| == a
        invariant forall k | 0 <= k < a ::
          infos[k].Valid() && infos[k].ln == ln && infos[k].column == cols[k]
      {
        var info := new AttributeInformation(cols[a], ln);
        infos := infos + [info];
        a := a + 1;
      }
      this.names := names;
      data := cols;
      attrInfo := infos;
      numInstances := |temp|;
      this.ln := ln;
    }

    /** `num_instances()`: the length shared by every column. */
    function NumInstances(): (n: nat)
      reads this
      requires Valid()
      ensures forall a | 0 <= a < |data| :: |data[a]| == n
      ensures forall k | 0 <= k < |attrInfo| :: |attrInfo[k].column| == n
    {
      numInstances
    }

    /** `num_attributes()`: the number of names, which is the number of
        columns. */
    function NumAttributes(): (n: nat)
      reads this
      requires Valid()
      ensures n == |data| && n <= |attrInfo|
    {
      |names|
    }

    /** `num_rows()`: the number of rows of the attribute-major matrix,
        one per column, which is the number of attributes. */
    function NumRows(): (n: nat)
      reads this
      requires Valid()
      ensures n == |names|
    {
      |data|
    }

    /** `attribute_name(k)`. */
    function AttributeName(k: nat): (name: string)
      reads this
      requires k < |names|
      ensures name == names[k]
      ensures 0 <= FirstIndex(names, name) <= k
    {
      names[k]
    }

    /** `attribute_entropy(k)`: the cached entropy of statistics entry `k`,
        which is the entropy of attribute `k` while the two are in step. */
    function AttributeEntropy(k: nat): (h: real)
      reads this
      requires Valid() && k < |attrInfo|
      ensures h == EntropyOf(attrInfo[k].column, ln) && h >= 0.0
      ensures InSync(k) ==> h == EntropyOf(data[k], ln)
      ensures |attrInfo[k].values| == 1 ==> h == 0.0
    {
      attrInfo[k].Entropy()
    }

    /** The mutual information of two attributes, as the estimator computes
        it when their statistics are in step with their columns. */
    ghost function MiOf(a1: nat, a2: nat): (mi: real)
      reads this
      requires Valid() && a1 < |data| && a2 < |data| && numInstances > 0
      ensures mi >= 0.0
    {
      MutualInformationNonNegative(data[a1], data[a2], ln);
      MutualInformationOf(data[a1], data[a2], ln)
    }

    /** `attribute_value(name)`: the first index holding `name`, or -1 when
        no attribute has that name. */
    method AttributeValue(name: string) returns (r: int)
      ensures -1 <= r < |names|
      ensures r == -1 <==> name !in names
      ensures r >= 0 ==> FirstAt(names, name, r)
    {
      var i := 0;
      while i < |names|
        invariant 0 <= i <= |names|
        invariant name !in names[..i]
      {
        if names[i] == name {
          return i;
        }
        assert names[..i + 1] == names[..i] + [names[i]];
        i := i + 1;
      }
      assert names[..i] == names;
      return -1;
    }

    /** `set_attribute(name, column)`. A column whose length differs from
        the number of instances of a non-empty dataset is refused with -1
        and nothing changes. Otherwise the call returns 0: a new name is
        appended with its column; an existing name has its column replaced.
        Either way fresh statistics of the column are added to the cache:
        appended at the end when the attribute is the last one, inserted at
        the attribute's index otherwise, so overwriting an attribute grows
        the cache by one entry. */
    method SetAttribute(name: string, column: seq<int>) returns (status: int)
      requires Valid()
      modifies this
      ensures Valid()
      ensures old(|names|) > 0 && |column| != old(numInstances) ==>
        && status == -1
        && names == old(names) && data == old(data)
        && attrInfo == old(attrInfo) && numInstances == old(numInstances)
      ensures !(old(|names|) > 0 && |column| != old(numInstances)) ==>
        && status == 0
        && numInstances == |column|
        && |attrInfo| == old(|attrInfo|) + 1
      ensures status == 0 && name !in old(names) ==>
        && names == old(names) + [name]
        && data == old(data) + [column]
        && attrInfo[..old(|attrInfo|)] == old(attrInfo)
        && fresh(attrInfo[old(|attrInfo|)]) && attrInfo[old(|attrInfo|)].column == column
      ensures status == 0 && name in old(names) ==>
        var k := FirstIndex(old(names), name);
        && names == old(names)
        && data == old(data)[k := column]
        && (k == |names| - 1 ==>
              && attrInfo[..old(|attrInfo|)] == old(attrInfo)
              && fresh(attrInfo[old(|attrInfo|)]) && attrInfo[old(|attrInfo|)].column == column)
        && (k < |names| - 1 ==>
              && attrInfo[..k] == old(attrInfo)[..k]
              && attrInfo[k + 1..] == old(attrInfo)[k..]
              && fresh(attrInfo[k]) && attrInfo[k].column == column)
    {
      if |names| > 0 && |column| != numInstances {
        return -1;
      }
      var k := AttributeValue(name);
      if k < 0 {
        names := names + [name];
        data := data + [column];
        k := |names| - 1;
      } else {
        data := data[k := column];
      }
      numInstances := |column|;
      if k == |names| - 1 {
        CacheStatistics(|attrInfo|, column);
      } else {
        CacheStatistics(k, column);
      }
      return 0;
    }

    /** The `emplace` of `set_attribute`: fresh statistics of `column`
        placed at position `at` of the cache (at its end when `at` is its
        length), nothing else changed. */
    method CacheStatistics(at: nat, column: seq<int>)
      requires ValidLn(ln) && at <= |attrInfo|
      modifies this
      ensures names == old(names) && data == old(data) && numInstances == old(numInstances)
      ensures |attrInfo| == old(|attrInfo|) + 1
      ensures attrInfo[..at] == old(attrInfo)[..at] && attrInfo[at + 1..] == old(attrInfo)[at..]
      ensures fresh(attrInfo[at]) && attrInfo[at].column == column
      ensures Cached(old(attrInfo), ln, |column|) ==> Cached(attrInfo, ln, |column|)
    {
      var info := new AttributeInformation(column, ln);
      if Cached(attrInfo, ln, |column|) {
        CachedInsert(attrInfo, at, info, ln, |column|);
      }
      attrInfo := attrInfo[..at] + [info] + attrInfo[at..];
    }

    /** `mutual_information(a1, a2)`. The estimate is zero when either
        attribute's statistics hold a single symbol. When both attributes
        are in step with their statistics and the second one's symbols are
        at least zero, it is the mutual information of the two columns, and
        hence never negative. */
    method MutualInformation(a1: nat, a2: nat) returns (mi: real)
      requires Valid() && a1 < |names| && a2 < |names| && numInstances > 0
      ensures |attrInfo[a1].values| == 1 || |attrInfo[a2].values| == 1 ==> mi == 0.0
      ensures InSync(a1) && InSync(a2) && NonNegative(data[a2]) ==> mi == MiOf(a1, a2) && mi >= 0.0
    {
      var info1 := attrInfo[a1];
      var info2 := attrInfo[a2];
      var values1 := info1.Values();
      var values2 := info2.Values();
      var range := Max(values2) + 1;
      if |values1| == 1 || |values2| == 1 {
        return 0.0;
      }
      var counts := Histogram(data[a1], data[a2], range);
      var joint := NormaliseJoint(counts, numInstances as real);
      ObservedMarginals(info1, info2);
      mi := Accumulate(values1, values2, info1.pdf, info2.pdf, joint, range, ln);
      if InSync(a1) && InSync(a2) && NonNegative(data[a2]) {
        assert JointTable(joint, data[a1], data[a2], range);
        assert InRange(data[a2], range) by {
          forall i | 0 <= i < |data[a2]| ensures 0 <= data[a2][i] < range {
            assert data[a2][i] in values2;
          }
        }
        InfoMarginals(info1);
        InfoMarginals(info2);
        LookupSumIsTableSum(joint, range, info1.pdf, info2.pdf, data[a1], data[a2], values1, values2, ln);
      }
    }
  }

  /** The statistics object stores the relative frequency of every
      symbol of its column. */
  lemma InfoMarginals(info: AttributeInformation)
    requires info.Valid() && |info.column| > 0
    ensures Marginals(info.pdf, info.column)
  {
  }

  /** Every listed symbol of a statistics object has a positive marginal. */
  lemma ObservedMarginals(info1: AttributeInformation, info2: AttributeInformation)
    requires info1.Valid() && info2.Valid()
    ensures Observed(info1.pdf, info2.pdf, info1.values, info2.values)
  {
  }

  /** The histogram pass: one visit per instance, counting the instances
      of every key `x * range + y`, as a double. */
  method Histogram(x: seq<int>, y: seq<int>, range: int) returns (counts: map<int, real>)
    requires |x| == |y|
    ensures Counted(counts, Keys(x, y, range))
  {
    ghost var ks := Keys(x, y, range);
    counts := map[];
    var i := 0;
    while i < |x|
      invariant 0 <= i <= |x|
      invariant Counted(counts, ks[..i])
    {
      var key := x[i] * range + y[i];
      HistogramStep(counts, ks, i, key);
      if key !in counts {
        counts := counts[key := 1.0];
      } else {
        counts := counts[key := counts[key] + 1.0];
      }
      i := i + 1;
    }
    assert ks[..|x|] == ks;
  }

  /** Counting one more key keeps the histogram exact. */
  lemma HistogramStep(counts: map<int, real>, ks: seq<int>, i: int, key: int)
    requires 0 <= i < |ks| && key == ks[i] && Counted(counts, ks[..i])
    ensures Counted(if key !in counts then counts[key := 1.0] else counts[key := counts[key] + 1.0], ks[..i + 1])
  {
    assert ks[..i + 1] == ks[..i] + [key];
    CountStep(counts, ks[..i], key);
  }

  /** The normalisation pass: every entry of the histogram divided by the
      number of instances, the entries visited in no particular order. */
  method NormaliseJoint(counts: map<int, real>, n: real) returns (joint: map<int, real>)
    requires n > 0.0
    ensures joint.Keys == counts.Keys
    ensures forall k | k in joint :: joint[k] == counts[k] / n
  {
    joint := counts;
    var todo := counts.Keys;
    while todo != {}
      invariant todo <= counts.Keys && joint.Keys == counts.Keys
      invariant forall k | k in joint :: joint[k] == if k in todo then counts[k] else counts[k] / n
      decreases todo
    {
      HasElement(todo);
      var k :| k in todo;
      joint := joint[k := joint[k] / n];
      todo := todo - {k};
    }
  }

  lemma HasElement(s: set<int>)
    requires s != {}
    ensures exists k :: k in s
  {
    if forall k :: k !in s {
      assert false;
    }
  }

  /** A map read with a missing key taken as zero, as `operator[]` reads
      the histogram and `marginal_probability` reads the marginals. */
  function Lookup(m: map<int, real>, k: int): (r: real)
    ensures k in m ==> r == m[k]
    ensures k !in m ==> r == 0.0
  {
    if k in m then m[k] else 0.0
  }

  /** The joint probabilities the inner loop reads for `a` against each of
      the symbols `d`. */
  function JointLookups(joint: map<int, real>, range: int, a: int, d: seq<int>): (r: seq<real>)
    ensures |r| == |d|
  {
    seq(|d|, i requires 0 <= i < |d| => Lookup(joint, a * range + d[i]))
  }

  /** The products of marginals the inner loop reads for `a` against each
      of the symbols `d`. */
  function MarginalProducts(pdf1: map<int, real>, pdf2: map<int, real>, a: int, d: seq<int>): (r: seq<real>)
    ensures |r| == |d|
  {
    seq(|d|, i requires 0 <= i < |d| => Lookup(pdf1, a) * Lookup(pdf2, d[i]))
  }

  /** The marginal of `a` and of every symbol of `d` are positive. */
  ghost predicate Observed(pdf1: map<int, real>, pdf2: map<int, real>, e: seq<int>, d: seq<int>) {
    && (forall a | a in e :: Lookup(pdf1, a) > 0.0)
    && (forall b | b in d :: Lookup(pdf2, b) > 0.0)
  }

  lemma ProductsPositive(pdf1: map<int, real>, pdf2: map<int, real>, e: seq<int>, d: seq<int>, a: int)
    requires Observed(pdf1, pdf2, e, d) && a in e
    ensures Positive(MarginalProducts(pdf1, pdf2, a, d))
  {
    forall i | 0 <= i < |d| ensures MarginalProducts(pdf1, pdf2, a, d)[i] > 0.0 {
      assert d[i] in d;
      PositiveProduct(Lookup(pdf1, a), Lookup(pdf2, d[i]));
    }
  }

  /** What the double loop adds up: for each symbol of `e` in order, the
      row of summands read from the histogram and the marginals. */
  function LookupSum(joint: map<int, real>, range: int, pdf1: map<int, real>, pdf2: map<int, real>,
                     e: seq<int>, d: seq<int>, ln: real -> real): real
    requires ValidLn(ln) && Observed(pdf1, pdf2, e, d)
  {
    if e == [] then 0.0
    else
      var k := |e| - 1;
      assert forall a | a in e[..k] :: a in e;
      assert e[k] in e;
      ProductsPositive(pdf1, pdf2, e, d, e[k]);
      LookupSum(joint, range, pdf1, pdf2, e[..k], d, ln)
        + Bits(JointLookups(joint, range, e[k], d), MarginalProducts(pdf1, pdf2, e[k], d), ln)
  }

  /** The double loop over the symbols of both attributes: the rows of all
      the symbols of the first attribute, added in order. */
  method Accumulate(e: seq<int>, d: seq<int>, pdf1: map<int, real>, pdf2: map<int, real>,
                    joint: map<int, real>, range: int, ln: real -> real) returns (mi: real)
    requires ValidLn(ln) && Observed(pdf1, pdf2, e, d)
    ensures mi == LookupSum(joint, range, pdf1, pdf2, e, d, ln)
  {
    mi := 0.0;
    var i := 0;
    while i < |e|
      invariant 0 <= i <= |e|
      invariant Observed(pdf1, pdf2, e[..i], d)
      invariant mi == LookupSum(joint, range, pdf1, pdf2, e[..i], d, ln)
    {
      assert e[..i + 1][..i] == e[..i];
      assert forall a | a in e[..i + 1] :: a in e;
      assert e[i] in e;
      var row := AccumulateRow(d, pdf1, pdf2, joint, range, ln, e[i]);
      mi := mi + row;
      i := i + 1;
    }
    assert e[..|e|] == e;
  }

  /** The inner loop for one symbol `a` of the first attribute: each
      summand `p * log2(p / (p1 * p2))` is added when the joint probability
      `p` is non-zero. */
  method AccumulateRow(d: seq<int>, pdf1: map<int, real>, pdf2: map<int, real>,
                       joint: map<int, real>, range: int, ln: real -> real, a: int) returns (row: real)
    requires ValidLn(ln) && Observed(pdf1, pdf2, [a], d)
    ensures Positive(MarginalProducts(pdf1, pdf2, a, d))
    ensures row == Bits(JointLookups(joint, range, a, d), MarginalProducts(pdf1, pdf2, a, d), ln)
  {
    ghost var js: seq<real> := [];
    ghost var ms: seq<real> := [];
    row := 0.0;
    var j := 0;
    while j < |d|
      invariant 0 <= j <= |d| && Positive(ms)
      invariant js == JointLookups(joint, range, a, d[..j])
      invariant ms == MarginalProducts(pdf1, pdf2, a, d[..j])
      invariant row == Bits(js, ms, ln)
    {
      var b := d[j];
      var p := Lookup(joint, a * range + b);
      var m := Lookup(pdf1, a) * Lookup(pdf2, b);
      RowStep(js, ms, joint, range, pdf1, pdf2, a, d, j, b, p, m, ln);
      if p != 0.0 {
        row := row + Summand(p, m, ln);
      }
      js := js + [p];
      ms := ms + [m];
      j := j + 1;
    }
    assert d[..|d|] == d;
  }

  /** One step of the inner loop: the summand it adds is defined and the
      two tables it has read grow by one entry each. */
  lemma RowStep(js: seq<real>, ms: seq<real>, joint: map<int, real>, range: int,
                pdf1: map<int, real>, pdf2: map<int, real>, a: int, d: seq<int>, j: int,
                b: int, p: real, m: real, ln: real -> real)
    requires ValidLn(ln) && Observed(pdf1, pdf2, [a], d) && 0 <= j < |d|
    requires js == JointLookups(joint, range, a, d[..j]) && ms == MarginalProducts(pdf1, pdf2, a, d[..j])
    requires Positive(ms)
    requires b == d[j] && p == Lookup(joint, a * range + b) && m == Lookup(pdf1, a) * Lookup(pdf2, b)
    ensures m > 0.0 && Positive(ms + [m])
    ensures Bits(js + [p], ms + [m], ln) == Bits(js, ms, ln) + Summand(p, m, ln)
    ensures js + [p] == JointLookups(joint, range, a, d[..j + 1])
    ensures ms + [m] == MarginalProducts(pdf1, pdf2, a, d[..j + 1])
  {
    assert a in [a] && d[j] in d;
    PositiveProduct(Lookup(pdf1, a), Lookup(pdf2, d[j]));
    BitsAppend(js, ms, p, m, ln);
    LookupsAppend(joint, range, pdf1, pdf2, a, d, j, p, m);
  }

  lemma LookupsAppend(joint: map<int, real>, range: int, pdf1: map<int, real>, pdf2: map<int, real>,
                      a: int, d: seq<int>, j: int, p: real, m: real)
    requires 0 <= j < |d|
    requires p == Lookup(joint, a * range + d[j]) && m == Lookup(pdf1, a) * Lookup(pdf2, d[j])
    ensures JointLookups(joint, range, a, d[..j + 1]) == JointLookups(joint, range, a, d[..j]) + [p]
    ensures MarginalProducts(pdf1, pdf2, a, d[..j + 1]) == MarginalProducts(pdf1, pdf2, a, d[..j]) + [m]
  {
    var r := JointLookups(joint, range, a, d[..j + 1]);
    var q := JointLookups(joint, range, a, d[..j]) + [p];
    forall t | 0 <= t <= j ensures r[t] == q[t] {
    }
    var r' := MarginalProducts(pdf1, pdf2, a, d[..j + 1]);
    var q' := MarginalProducts(pdf1, pdf2, a, d[..j]) + [m];
    forall t | 0 <= t <= j ensures r'[t] == q'[t] {
    }
  }

  /** `pdf` holds the relative frequency of every symbol of `s`. */
  ghost predicate Marginals(pdf: map<int, real>, s: seq<int>) {
    |s| > 0 && forall v | v in s :: Lookup(pdf, v) == Probability(s, v)
  }

  /** When the histogram is that of the two columns, the joint
      probabilities the loop reads are the joint row of the columns. */
  lemma JointLookupsMatch(joint: map<int, real>, range: int, x: seq<int>, y: seq<int>, a: int, d: seq<int>)
    requires JointTable(joint, x, y, range) && InRange(y, range)
    requires forall b | b in d :: b in y
    ensures JointLookups(joint, range, a, d) == JointRow(x, y, a, d)
  {
    forall i | 0 <= i < |d| ensures JointLookups(joint, range, a, d)[i] == JointRow(x, y, a, d)[i] {
      assert d[i] in d;
      JointLookup(joint, x, y, range, a, d[i]);
    }
  }

  /** When the marginals are those of the two columns, the products the
      loop reads are the independent row of the columns. */
  lemma MarginalProductsMatch(pdf1: map<int, real>, pdf2: map<int, real>, x: seq<int>, y: seq<int>, a: int, d: seq<int>)
    requires |x| == |y| && Marginals(pdf1, x) && Marginals(pdf2, y) && a in x
    requires forall b | b in d :: b in y
    ensures MarginalProducts(pdf1, pdf2, a, d) == MarginalRow(x, y, a, d)
  {
    forall i | 0 <= i < |d| ensures MarginalProducts(pdf1, pdf2, a, d)[i] == MarginalRow(x, y, a, d)[i] {
      assert d[i] in d;
    }
  }

  /** Under the same conditions the double loop adds up the mutual
      information sum of the two columns. */
  lemma {:induction false} LookupSumIsTableSum(joint: map<int, real>, range: int, pdf1: map<int, real>,
                             pdf2: map<int, real>, x: seq<int>, y: seq<int>, e: seq<int>, d: seq<int>, ln: real -> real)
    requires ValidLn(ln) && JointTable(joint, x, y, range) && InRange(y, range)
    requires Marginals(pdf1, x) && Marginals(pdf2, y)
    requires forall a | a in e :: a in x
    requires forall b | b in d :: b in y
    requires Observed(pdf1, pdf2, e, d)
    ensures LookupSum(joint, range, pdf1, pdf2, e, d, ln) == TableSum(x, y, e, d, ln)
  {
    if e != [] {
      var k := |e| - 1;
      assert forall a | a in e[..k] :: a in e;
      assert e[k] in e;
      LookupSumIsTableSum(joint, range, pdf1, pdf2, x, y, e[..k], d, ln);
      JointLookupsMatch(joint, range, x, y, e[k], d);
      MarginalProductsMatch(pdf1, pdf2, x, y, e[k], d);
    }
  }
}
