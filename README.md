# mRMR feature selection, modelled in Dafny

This project models the core of the mRMR library. mRMR stands for
"minimum redundancy, maximum relevance". The library ranks the
attributes of a discretised dataset against a class attribute. The core
has three parts:

- **`attribute_information`** caches the statistics of one column: its
  distinct symbols, the relative frequency of each and its entropy in bits.
- **`dataset`** stores attribute names and one column of integer symbols
  per attribute. It discretises real readings, keeps one
  `attribute_information` per column, looks attributes up by name,
  replaces or appends columns, and estimates the mutual information of
  two attributes from a joint histogram.
- **`mrmr`** is the greedy selector. It reports the class row first, then
  the attribute most relevant to the class (the seed). Each later round
  picks the unselected attribute whose relevance best outweighs its
  average redundancy with the attributes picked so far. The score is
  relevance minus average redundancy (MID) or relevance divided by it
  (MIQ). Attributes of zero entropy come last, until the requested number
  of rows is reached.

## Files

| file | module | contents |
|---|---|---|
| `numerics.dfy` | `Numerics` | The caller-supplied natural logarithm `ln`, with the facts the proofs use (`ValidLn`). `Log2`. IEEE doubles as `Ext`: finite, ±infinity or NaN, with IEEE `>=` and division by zero. |
| `counting.dfy` | `Counting` | Symbol counts, first-seen order of distinct symbols, relative frequencies, and the facts that counts add up to the length and frequencies to one. |
| `attribute_information.dfy` | `AttributeInfo` | The class `AttributeInformation` and its two construction loops (counting, normalising). Entropy as a function of the column, with its bounds. |
| `mutual_information.dfy` | `MutualInfo` | The reference definition of the estimator's mutual information over two columns. The histogram-key injectivity, the marginal covers and Gibbs' inequality (the estimate is never negative). |
| `dataset.dfy` | `Data` | Discretisation. The class `Dataset` with its methods. The histogram, normalisation and accumulation loops of `mutual_information`, each proved equal to the reference definition. |
| `mrmr.dfy` | `Selection` | The ranking as a value (`Expected`) and its properties. The imperative selector `Mrmr`, proved to return exactly `Expected` of the dataset's statistics. |
| `information_laws.dfy` | `InformationLaws` | Three laws of the estimators: mutual information is symmetric, an attribute's mutual information with itself is its entropy, and equally frequent symbols give entropy `log2 n`. |

### How the selector is modelled

`mrmr()` is one long function with nested loops. The model splits it
into methods along its loops and loop bodies:

- `Start` runs the prerequisites. `Partition` holds their loop and
  `ClassifyAttribute` one pass of it; `SeedPick` chooses the seed.
- `SelectionLoop` is the main loop and `SelectionStep` one pass of it.
- `Round` is the inner loop. `ScanRound` holds the loop itself,
  `ScanAttribute` one pass, `ScoreAttribute` the redundancy update and
  the score, and `KeepBest` the `>=` comparison.
- `EmitUseless` is the closing loop over the zero-entropy attributes.

Each method's `ensures` ties its result to a function of the value-level
specification: `Relevances`, `Candidates`, `Useless`, `Scan`, `Choose`,
`Rounds` and `Tail`. They compose into `Expected`. The properties of the
ranking are lemmas about `Expected`:

- how long it is;
- which rows it starts with;
- that round rows are last maxima of their scores;
- that no attribute appears twice after the seed, and not at all when the
  seed is a candidate;
- that the tail is the zero-entropy attributes in ascending order.

The seed scan starts from the smallest positive double at index 0. When
no relevance reaches that value, the seed is attribute 0 whatever it is.
It may be the class, or a zero-entropy attribute that the tail then ranks
a second time. `SeedFallbackRanksAttributeTwice` shows this on a four-attribute
dataset.

The selector reads the dataset only through `attribute_entropy`,
`mutual_information` and `attribute_name`. `Describes(ds, inp)` links a
`Dataset` to the entries `h[i]` and `mi[a][b]` of the selector's inputs.
`InputsOf` computes those entries from the columns.

Probabilities are exact reals. The logarithm is a parameter, assumed to
vanish at 1, be positive at 2, satisfy `1 - 1/x <= ln x <= x - 1` and
turn products of positive numbers into sums. The integer symbol type `T`
is `int`.

## Model

| member | source | states |
|---|---|---|
| AttributeInfo.AttributeInformation.constructor | mrmr/attribute_information.hpp:50-76 | The new object is valid. Its values are the column's distinct symbols in first-seen order. Its pdf maps exactly the column's symbols to their relative frequencies. Its entropy is the column's entropy. |
| AttributeInfo.CountOccurrences | mrmr/attribute_information.hpp:52-65 | The counting loop records the distinct symbols in order of first occurrence. It leaves every symbol's count of occurrences in the map. |
| AttributeInfo.Normalise | mrmr/attribute_information.hpp:67-72 | The normalising loop replaces every count by count / n. The map keys stay the column's symbols. The returned table is the probability table in first-seen order. |
| AttributeInfo.AttributeInformation.NumValues | mrmr/attribute_information.hpp:79-81 | Returns the number of distinct symbols. |
| AttributeInfo.AttributeInformation.Values | mrmr/attribute_information.hpp:84-86 | Returns symbols without repetition. They are exactly the column's symbols, ordered by first occurrence. |
| AttributeInfo.AttributeInformation.Entropy | mrmr/attribute_information.hpp:89-91 | Returns the Shannon entropy of the column. It is never negative and is zero for a single-valued column. |
| AttributeInfo.AttributeInformation.MarginalProbability | mrmr/attribute_information.hpp:94-100 | Returns the relative frequency of an observed symbol, which is positive. Returns 0 for a symbol never observed. |
| AttributeInfo.AttributeInformation.StoredProbabilitiesSumToOne | mrmr/attribute_information.hpp:67-72 | The stored probabilities of the distinct symbols add up to one. |
| AttributeInfo.EntropyNonNegative | mrmr/attribute_information.hpp:75 | The entropy of any column is at least zero, given ln(x) <= x - 1. |
| AttributeInfo.EntropyOfSingleValue | mrmr/attribute_information.hpp:75 | A column holding one symbol has entropy exactly zero. |
| Counting.FirstSeen | mrmr/attribute_information.hpp:54-65 | The first-seen list of a column has no repetitions and holds exactly the column's symbols. |
| Counting.ProbabilitiesSumToOne | mrmr/attribute_information.hpp:67-72 | For a non-empty column, the relative frequencies of its distinct symbols sum to one. |
| Counting.SingleValueHasProbabilityOne | mrmr/attribute_information.hpp:67-75 | In a column of one symbol, that symbol has probability one. |
| Data.Discretize | mrmr/dataset.hpp:84-114 | Floor, ceiling, round (half away from zero) and truncation (toward zero) each land within the stated distance of the reading, on the stated side. |
| Data.Discretise | mrmr/dataset.hpp:84-114 | The transposing loop gives one column per attribute. Entry i of column a is the discretised reading of attribute a in instance i. |
| Data.Dataset.Empty | mrmr/dataset.hpp:63-64 | The default dataset has no names, no columns, no statistics and no instances. |
| Data.Dataset.FromReadings | mrmr/dataset.hpp:66-123 | The dataset keeps the names. Its columns are the discretised, transposed readings. There is one valid statistics object per column, built from that column. |
| Data.Dataset.NumInstances | mrmr/dataset.hpp:125-128 | Returns the length shared by every column and every cached column. |
| Data.Dataset.NumAttributes | mrmr/dataset.hpp:130-133 | Returns the number of columns, which is at most the number of cached statistics. |
| Data.Dataset.NumRows | mrmr/dataset.hpp:135-138 | Returns the matrix row count, one per attribute name. |
| Data.Dataset.AttributeName | mrmr/dataset.hpp:140-143 | Returns the k-th name. Its first occurrence is at or before k. |
| Data.Dataset.AttributeValue | mrmr/dataset.hpp:145-152 | Returns -1 exactly when no attribute has the name. Otherwise returns the index of the name's first occurrence. |
| Data.Dataset.SetAttribute | mrmr/dataset.hpp:154-183 | A wrong-length column on a non-empty dataset gives -1 and changes nothing. Otherwise the result is 0. A new name is appended with its column. An existing name gets its column replaced. Fresh statistics are appended when the attribute is the last one and inserted at its index otherwise. The dataset stays valid. |
| Data.Dataset.CacheStatistics | mrmr/dataset.hpp:174-180 | Inserts one fresh statistics object for the column at the given position and shifts the rest. Names, columns and instance count are unchanged. |
| Data.Dataset.AttributeEntropy | mrmr/dataset.hpp:185-188 | Returns the cached entropy: non-negative, the column's entropy when in step, and zero for a single-symbol attribute. |
| Data.Dataset.MutualInformation | mrmr/dataset.hpp:190-230 | Returns 0 when either attribute has a single symbol. When both statistics match their columns and the second column's symbols are non-negative, the estimate equals the reference mutual information and is at least zero. |
| Data.Max | mrmr/dataset.hpp:195 | Returns an element of the list that no element exceeds. |
| Data.Histogram | mrmr/dataset.hpp:201-209 | The histogram loop counts every joint key a1 * range + a2 exactly. |
| Data.NormaliseJoint | mrmr/dataset.hpp:211-212 | Each joint count is divided by the number of instances; the keys are kept. |
| Data.Accumulate | mrmr/dataset.hpp:214-229 | The double loop over value pairs adds the looked-up summands in iteration order. |
| Data.AccumulateRow | mrmr/dataset.hpp:215-228 | The inner loop adds p * log2(p / (pi * pj)) over the second attribute's values and skips zero joint probabilities. Every marginal product it divides by is positive. |
| Data.LookupSumIsTableSum | mrmr/dataset.hpp:214-229 | The sum computed from the hash-map lookups equals the reference sum over the columns. |
| MutualInfo.KeyInjective | mrmr/dataset.hpp:195-203 | With range above every second-attribute symbol, the key a * range + b determines the pair (a, b). Distinct value pairs never share a histogram cell. |
| MutualInfo.KeyCountIsPairCount | mrmr/dataset.hpp:201-209 | The number of instances with key a * range + b equals the number of instances holding the pair (a, b). |
| MutualInfo.PairCountsOverCover | mrmr/dataset.hpp:214-229 | Over all symbols of the second attribute, the pair counts of a first-attribute symbol add up to its count. |
| MutualInfo.TableCover | mrmr/attribute_information.hpp:67-72 | The probability table of a column over its first-seen symbols sums to one. |
| MutualInfo.MutualInformationNonNegative | mrmr/dataset.hpp:190-230 | The estimated mutual information of two columns is never negative (Gibbs' inequality). |
| Selection.ReadEntropy | mrmr/dataset.hpp:185-188 | `attribute_entropy(i)` yields the selector's entry h[i]. |
| Selection.ReadMutualInformation | mrmr/dataset.hpp:190-230 | For a positive-entropy attribute b, `mutual_information(a, b)` yields the selector's entry mi[a][b]. |
| Selection.InputsDescribe | mrmr/mrmr.hpp:56-166 | For a valid, aligned dataset with non-negative symbols, the inputs of a call hold the dataset's names, its cached entropy for every attribute and its estimator's mutual information for every pair; they are well formed (class in range, mutual information non-negative). |
| Selection.ClassifyAttribute | mrmr/mrmr.hpp:76-85 | One prerequisites pass skips the class. A positive-entropy attribute gets its mutual information with the class and goes to the front of the candidate list. Any other attribute gets relevance 0 and joins the zero-entropy list. |
| Selection.Partition | mrmr/mrmr.hpp:75-87 | The prerequisites loop yields the relevance of every attribute (minus infinity for the class) and the candidates in ascending order after the reverse. The zero-entropy attributes come out in ascending order. |
| Selection.PartitionOf | mrmr/mrmr.hpp:75-87 | Both lists are ascending. Each non-class attribute is in exactly one list: candidates are those of positive entropy. Together the lists hold every attribute but the class. |
| Selection.CandidatesOf | mrmr/mrmr.hpp:75-87 | An attribute is a candidate exactly when it is not the class and has positive entropy. The list is ascending. |
| Selection.UselessOf | mrmr/mrmr.hpp:75-87 | An attribute is in the zero-entropy list exactly when it is not the class and its entropy is not positive. The list is ascending, so the later sort leaves it unchanged. |
| Selection.PartitionSize | mrmr/mrmr.hpp:75-87 | The two lists together have one element per non-class attribute. |
| Selection.SeedPick | mrmr/mrmr.hpp:97-105 | The seed loop is the `>=` scan over the relevances, starting from the smallest positive double at index 0. |
| Selection.ScanPicksLastMaximum | mrmr/mrmr.hpp:97-105 | Over non-NaN values the `>=` scan ends on a maximum, at its last position. It keeps the start value when nothing reaches it. |
| Selection.SeedChoice | mrmr/mrmr.hpp:97-112 | The seed is attribute 0 when no relevance reaches the smallest positive double. Otherwise it is the last attribute of maximal relevance. |
| Selection.WithoutAscending | mrmr/mrmr.hpp:108 | Removing the seed from the ascending candidate list keeps it ascending. The list loses one element exactly when the seed was present. |
| Selection.Start | mrmr/mrmr.hpp:75-112 | Returns the relevances and both lists. The first two rows are the class row (NaN score) and the seed row (its relevance as score). The unselected list is the candidates without the seed. |
| Selection.RedundancyNonNegative | mrmr/mrmr.hpp:123-125 | Every redundancy sum is at least zero. |
| Selection.ScoreIsFinite | mrmr/mrmr.hpp:127-135 | With non-negative redundancy, the MID and MIQ scores are finite (the MIQ divisor is positive). |
| Selection.RoundScoresFinite | mrmr/mrmr.hpp:117-145 | No score of a round is NaN or infinite. |
| Selection.ScoreAttribute | mrmr/mrmr.hpp:122-135 | An attribute's redundancy sum grows by its mutual information with the last selected attribute. The score is MID or MIQ of its relevance and the average redundancy. An unknown method fails. |
| Selection.KeepBest | mrmr/mrmr.hpp:137-141 | A score that compares `>=` to the best so far replaces it, with its attribute and list position. The state stays the scan prefix. |
| Selection.ScanAttribute | mrmr/mrmr.hpp:119-144 | One inner pass fails exactly on an unknown method. Otherwise it updates one redundancy sum and extends the tracked scan by one score. |
| Selection.ScanRound | mrmr/mrmr.hpp:117-145 | The inner loop fails exactly on an unknown method. Otherwise every unselected attribute's redundancy covers all selected attributes, and the tracked best is the full scan of the round's scores from minus infinity. |
| Selection.Round | mrmr/mrmr.hpp:115-145 | A round with a known method yields the round's choice: the last maximal score's attribute and list position. When nothing compares `>=` to minus infinity, it yields the last selected attribute and the list head. |
| Selection.ChooseIsLastMaximum | mrmr/mrmr.hpp:115-148 | The chosen score is finite and is the maximum of the round's scores. No later attribute in the list reaches it. The emitted attribute is the one at the erased position. |
| Selection.EraseAscending | mrmr/mrmr.hpp:150 | Erasing the chosen position keeps the list ascending, removes the chosen attribute and keeps every other. |
| Selection.SelectionStep | mrmr/mrmr.hpp:115-151 | A pass fails exactly on an unknown method and then changes no rows. Otherwise it appends the chosen attribute's row at the next rank, with its entropy in both information columns, and erases the choice from the list. |
| Selection.SelectionLoop | mrmr/mrmr.hpp:114-152 | The main loop's rows, and whether it ran to its end, are the value-level rounds. |
| Selection.RoundsLength | mrmr/mrmr.hpp:114-152 | The rounds never pass the budget. An unknown method stops them before the first round. A known method runs one round per unselected attribute while the budget lasts. |
| Selection.RoundsRanked | mrmr/mrmr.hpp:147-148 | Every row appended by a round carries its position as rank. |
| Selection.RoundsEmitDistinct | mrmr/mrmr.hpp:114-152 | The rounds emit distinct attributes, all drawn from the unselected list. |
| Selection.RoundEntries | mrmr/mrmr.hpp:147-148 | A round row reports its attribute's entropy in both information columns. |
| Selection.EmitUseless | mrmr/mrmr.hpp:154-162 | The closing loop yields the value-level tail. |
| Selection.TailRows | mrmr/mrmr.hpp:154-162 | The tail appends the zero-entropy attributes in order, while the budget lasts, each at the next rank with entropy 0, information 0 and score plus infinity. |
| Selection.Mrmr | mrmr/mrmr.hpp:56-166 | `mrmr` returns exactly the specified ranking of the dataset's statistics, for the given class attribute, feature count and method. |
| Selection.ExpectedHeader | mrmr/mrmr.hpp:91-112 | The ranking starts with the class row (NaN score) and the seed row (its relevance). Every row's rank is its position. |
| Selection.ExpectedLength | mrmr/mrmr.hpp:59-62 | The ranking has at most max(limit, 2) rows, where limit is the requested count plus one, or all attributes when none is asked for. With a known method, it stops only at the limit or when every attribute is ranked. |
| Selection.UnknownMethodStopsAfterSeed | mrmr/mrmr.hpp:131-134 | With an unknown method and candidates left, only the class and seed rows are returned. |
| Selection.NoLimitRanksEveryAttribute | mrmr/mrmr.hpp:59-60 | With no feature count, the ranking has one row per attribute. This is a count only. |
| Selection.SeedIsCandidate | mrmr/mrmr.hpp:97-105 | When some relevance reaches the smallest positive double, the seed is a candidate: not the class, and of positive entropy. |
| Selection.ExpectedSources | mrmr/mrmr.hpp:114-162 | The rows after the seed are first candidates other than the seed, then zero-entropy attributes. |
| Selection.ExpectedAfterSeed | mrmr/mrmr.hpp:91-162 | When the seed is a candidate, every row names an attribute. No row after the first two names the class or the seed. |
| Selection.ExpectedIndicesDistinct | mrmr/mrmr.hpp:91-162 | When the seed is a candidate, no attribute is ranked twice, the class and seed rows included. |
| Selection.NoLimitRanksEachAttributeOnce | mrmr/mrmr.hpp:59-162 | With no feature count, a known method and some relevance reaching the smallest positive double, the ranking names every attribute exactly once. |
| Selection.SeedFallbackRanksAttributeTwice | mrmr/mrmr.hpp:97-105 | For class 1 and entropies (0, 1, 0, 1), no relevance reaches the smallest positive double. The seed falls back to attribute 0, which the tail ranks again: the indices are 1, 0, 3, 0, and attribute 2 is never ranked. |
| Selection.ExpectedRounds | mrmr/mrmr.hpp:114-152 | The rows after the seed and before the tail rank candidates other than the seed, each with its entropy in both information columns. |
| Selection.ExpectedTail | mrmr/mrmr.hpp:154-162 | After the rounds come a prefix of the zero-entropy attributes, in ascending order, as zero-information rows. |
| Selection.ExpectedDistinct | mrmr/mrmr.hpp:114-162 | No attribute is ranked twice after the seed. |
| InformationLaws.MutualInformationSymmetric | mrmr/dataset.hpp:190-230 | The reference mutual information, which the estimator returns, is the same with the two attributes exchanged. |
| InformationLaws.SelfInformationIsEntropy | mrmr/dataset.hpp:190-230 | An attribute's mutual information with itself equals its entropy. |
| InformationLaws.TableSumIsRowsTotal | mrmr/dataset.hpp:214-229 | The estimator's double loop adds exactly one term per first-seen symbol pair, row by row. |
| InformationLaws.UniformProbability | mrmr/attribute_information.hpp:67-72 | When each of n distinct symbols occurs equally often, each has relative frequency 1/n. |
| InformationLaws.UniformEntropy | mrmr/attribute_information.hpp:67-75 | A column whose n distinct symbols occur equally often has entropy log2 n. |

## Left out

- Reading a dataset from a stream (header parsing, the matrix reader, the `exit(2)` on a missing newline) and `operator<<` are I/O: `Dataset.FromReadings` takes the names and the readings as values.
- The logger is I/O, so its messages are left out.
- The command-line driver and the Python bindings are not part of this model.
- `matrix.hpp` is not part of this model. The attribute-major matrix is a sequence of columns: `add_column` appends one and `set_column` replaces one.
- Floating point: probabilities, entropies and scores are exact reals. IEEE rounding, signed zero and the rounding of `log2` are not modelled. For `std::log`, the model assumes only `ln 1 = 0`, `ln 2 > 0`, `1 - 1/x <= ln x <= x - 1` and `ln(x * y) = ln x + ln y` for positive `x` and `y`. The infinities and the quiet NaN that the selector uses as sentinels are modelled (`Ext`), as are IEEE `>=` and division by zero.
- Fixed-width integers: `size_t` and `int` are unbounded. None of these is modelled: the wrap of `num_features + 1`, the narrowing of `T` to `size_t` in the histogram keys, overflow of `a1 * range + a2`, and the narrowing of `_pdf.size()` to `T` in `num_values()` (mrmr/attribute_information.hpp:79-81).
- The double-to-`T` conversion of the default (truncate) case truncates toward zero. It is modelled that way, although the source comment calls it equivalent to floor.
- `unordered_map` iteration order: the normalising loop (mrmr/attribute_information.hpp:68-71) walks `_pdf` in hash order and fills the entropy table `p` in that order. The model fills it in first-seen order. The entropy is an exact sum, so the order does not change it. `values()` returns the vector `_values` (lines 61 and 84-86), which is in first-seen order in the source as in the model, and the mutual-information loops iterate over it. The joint-probability normalisation (mrmr/dataset.hpp:211-212) divides each entry on its own, so its order does not matter.
- `joint_probabilities[value]` in the accumulation loop inserts a zero entry for an unseen key. The model looks the key up instead; the entry would only ever be read as zero.
- `std::forward_list` is a sequence. `push_front` then `reverse` yields the ascending candidate list. `remove` is `Without`. `erase_after(erase_it)` is `EraseAt` at the position after `erase_it`. The local vectors `mutual_informations` and `redundance` are sequence values.
- `std::sort(useless)` is not performed. The list is built in ascending order already (`Selection.UselessOf`), so the sort would leave it unchanged.
- `Method.Invalid` stands for every value of the method's underlying character other than MID and MIQ.
- Undefined behaviour becomes preconditions:
  - `.at` and `operator[]` bounds;
  - `class_attribute < num_attributes()`;
  - `*max_element` of an empty values vector, so `Dataset.MutualInformation` requires at least one instance.
- Data.Dataset.MutualInformation: it equals the reference definition only when both attributes' statistics match their columns (`InSync`) and the second column's symbols are non-negative. On a negative symbol, the source's `size_t` key arithmetic wraps, which the model does not follow; there only the single-symbol case is stated.
- Selection.Mrmr: it is stated for a dataset whose every column has statistics in step with it (`Aligned`) and whose symbols are all non-negative (`AllNonNegative`), so that the mutual information it reads is the reference value.
- `set_attribute` overwriting an existing attribute inserts fresh statistics before the old ones instead of replacing them, so the cache grows by one entry. The model reproduces this, and `Dataset.Aligned` does not survive such a call.
- The entropy of an empty column is 0, because the code's loops run zero times. Nothing divides by the zero length.
