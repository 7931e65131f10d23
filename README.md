# Number-row optimization, modelled in Dafny

The number-row scripts look for a better order of the digit keys on a
keyboard's number row than today's `12345 67890`.

`find_optimal_num_rows.py` works in four stages.

- It builds a frequency for every digit. The frequencies start from a Zipf
  distribution, the frequency of `0` is blended with its real-world share,
  and the result is rescaled to a total of one.
- It rescales the comfort rating of the five left-hand key positions to a
  total of one hundred.
- It rates an arrangement. Each side is worth the sum of position rating
  times digit frequency, with the right side read from the right. The two
  sides are combined so that an imbalance costs `BALANCE_FACTOR` times the
  difference.
- It goes once over all arrangements, keeping:
  - the worst one;
  - the best one at most two exchanges away from today's row, counted by
    `count_swaps`;
  - the best one that keeps the left-hand digits on the left;
  - a list of ten slots, where each new rating overwrites the first slot rated below it. The list is meant to hold the ten best arrangements, but it loses some (see Findings).

`corpus_count.py` turns the character counts of a corpus into digit
frequencies. The ten digits are sorted by count, and each gets its share of
all digit occurrences. It then averages those shares over several corpora
and rescales the averages to a total of one.

The Dafny modules follow that structure.

| module | file | what it holds |
|---|---|---|
| `Errors` | `errors.dfy` | The exceptions the scripts can raise (`ValueError`, `KeyError`, `ZeroDivisionError`, `IndexError`) as values, plus `Result` and `Option`. |
| `Repeats` | `repeats.dfy` | Strings without a repeated character, such as today's row and `string.digits`. Also `str.index`, and the arrangements of such a string. |
| `Tables` | `tables.dfy` | Python dictionaries as insertion-ordered sequences of entries; `sum`; division of every value by the sum. |
| `Permutations` | `permutations.dfy` | Permutations of positions and their number of cycles. One exchange of the swap loop adds exactly one cycle, and no exchange adds more. |
| `Swaps` | `swaps.dfy` | `count_swaps` and `get_swaps` as loops over an array copy of the arrangement, proved against the least number of exchanges. |
| `SwapExamples` | `swap_examples.dfy` | The documented examples of `count_swaps`, each proved. |
| `Rating` | `rating.dfy` | `str.split`, the value of a side, and the rating with its balance term. |
| `Frequencies` | `frequencies.dfy` | The Zipf table, the blends, and both rescales. |
| `CorpusCount` | `corpus.dfy` | `get_digit_frequencies` and the averaging over corpora. |
| `Search` | `search.dfy` | The pass over the candidates: four folds, and a method over an array of ten slots. |

In the table below, `find_optimal_num_rows.py` and `corpus_count.py` live in
`keyboard/number-row-optimization/`.

## Model

| member | source | states |
|---|---|---|
| `Swaps.CountSwaps` | keyboard/number-row-optimization/find_optimal_num_rows.py:197-212 | Lengths that differ give the `ValueError`. Otherwise the count is `SwapDistance`, which `Swaps.DistanceIsLeast` shows to be the least number of exchanges that turn the arrangement into the target. |
| `Swaps.GetSwaps` | keyboard/number-row-optimization/find_optimal_num_rows.py:159-174 | Lengths that differ give the `ValueError`. Otherwise it records as many pairs as `count_swaps` counts. Playing the recorded exchanges back on the arrangement yields the target. No character already in its right slot (such as the space) appears in a pair. |
| `Repeats.IndexOf` | keyboard/number-row-optimization/find_optimal_num_rows.py:205 | `current.index(c)` for a character `c` of `current` finds a slot that holds `c`. |
| `Repeats.IndexOfFirst` | keyboard/number-row-optimization/find_optimal_num_rows.py:205 | No slot before the one `current.index(c)` finds holds `c`. |
| `Swaps.ExchangeDistance` | keyboard/number-row-optimization/find_optimal_num_rows.py:208-210 | Exchanging any two slots of an arrangement leaves an arrangement, and the distance to the target falls by at most one. |
| `Swaps.FewestExchanges` | keyboard/number-row-optimization/find_optimal_num_rows.py:197-212 | Any sequence of exchanges that turns the arrangement into the target has at least as many exchanges as the swap count. |
| `Swaps.ExchangesReachTarget` | keyboard/number-row-optimization/find_optimal_num_rows.py:197-212 | Some sequence of exactly as many exchanges as the swap count turns the arrangement into the target. |
| `Swaps.DistanceIsLeast` | keyboard/number-row-optimization/find_optimal_num_rows.py:197-212 | The swap count is reachable with that many exchanges, and no sequence of exchanges reaching the target is shorter. |
| `Swaps.DistanceBounds` | keyboard/number-row-optimization/find_optimal_num_rows.py:201-212 | The swap count is below the length. It is zero exactly when the arrangement already is the target. It is at least half the number of misplaced keys and at most one less than that number. |
| `Swaps.DistanceToSelf` | keyboard/number-row-optimization/find_optimal_num_rows.py:180-181 | A target without repeats is an arrangement of itself, at distance zero. |
| `Repeats.MultisetArrangement` | keyboard/number-row-optimization/find_optimal_num_rows.py:205 | Every reordering of a target without repeats is an arrangement of it, so `current.index` always finds the character. |
| `Permutations.ResolveAddsCycle` | keyboard/number-row-optimization/find_optimal_num_rows.py:208-210 | Exchanging a misplaced key with the key that belongs in its slot adds exactly one cycle. This is why each counted exchange lowers the remaining distance by one. |
| `Permutations.TransposeCycles` | keyboard/number-row-optimization/find_optimal_num_rows.py:208-210 | Exchanging any two entries of a permutation adds at most one cycle. |
| `Permutations.CyclesBetween` | keyboard/number-row-optimization/find_optimal_num_rows.py:204-210 | The cycle count is at least the number of fixed points, plus one when anything moves, and at most the fixed points plus half of the rest. |
| `SwapExamples.CountSwapsOfCurrent` | keyboard/number-row-optimization/find_optimal_num_rows.py:180-181 | Today's row is 0 exchanges from itself. |
| `SwapExamples.CountSwapsOfReversedLeft` | keyboard/number-row-optimization/find_optimal_num_rows.py:182-183 | `54321 67890` is 2 exchanges away. |
| `SwapExamples.CountSwapsOfSwappedHalves` | keyboard/number-row-optimization/find_optimal_num_rows.py:184-185 | `67890 12345` is 5 exchanges away. |
| `SwapExamples.CountSwapsOfTwoPairs` | keyboard/number-row-optimization/find_optimal_num_rows.py:186-187 | `42315 60897` is 2 exchanges away. |
| `SwapExamples.CountSwapsOfOnePair` | keyboard/number-row-optimization/find_optimal_num_rows.py:188-189 | `12345 60897` is 1 exchange away. |
| `SwapExamples.CountSwapsOfReversedTail` | keyboard/number-row-optimization/find_optimal_num_rows.py:190-191 | `12345 60987` is 2 exchanges away. |
| `SwapExamples.CountSwapsOfRotatedThree` | keyboard/number-row-optimization/find_optimal_num_rows.py:192-193 | `23145 67890` is 2 exchanges away. |
| `SwapExamples.CountSwapsOfFourCycle` | keyboard/number-row-optimization/find_optimal_num_rows.py:194-195 | `82315 67094` is 3 exchanges away. |
| `Rating.Words` | keyboard/number-row-optimization/find_optimal_num_rows.py:117 | Every word of `str.split()` is non-empty and holds no whitespace. |
| `Rating.WordsOfSides` | keyboard/number-row-optimization/find_optimal_num_rows.py:117 | Two non-empty words joined by a space split back into exactly those two sides. |
| `Rating.ReverseReverse` | keyboard/number-row-optimization/find_optimal_num_rows.py:118 | Reading the right side backwards twice gives it back, and reversal adds no whitespace. |
| `Rating.SideValue` | keyboard/number-row-optimization/find_optimal_num_rows.py:121-125 | A side has a value exactly when every position has a comfort rating and every digit has a frequency. Otherwise the first position that fails raises `IndexError` or `KeyError`. |
| `Rating.SideValueBetween` | keyboard/number-row-optimization/find_optimal_num_rows.py:121-125 | With non-negative position ratings and every digit's frequency between `lo` and `hi`, the side has a value. It lies between `lo` and `hi` times the sum of the position ratings the side uses. |
| `Rating.ValuePerSide` | keyboard/number-row-optimization/find_optimal_num_rows.py:116-118 | Anything but exactly two whitespace-separated sides raises the unpacking `ValueError`. Otherwise the result is the left side's value and the value of the right side read backwards. It fails exactly when a side fails, and the left side's exception comes first. |
| `Rating.ValueOfSides` | keyboard/number-row-optimization/find_optimal_num_rows.py:116-118 | An arrangement built as two sides joined by a space, as the search builds it, is valued side by side. The left side is valued as it is and the right side read backwards. |
| `Rating.ValuePerSideAndRating` | keyboard/number-row-optimization/find_optimal_num_rows.py:107-113 | Rates exactly when `value_per_side` does and passes its exception on. The side values are those of `value_per_side` and the rating is the balance formula on them. For a factor between 0 and 1 the rating lies between twice the smaller side and the sum. |
| `Rating.ExchangeGain` | keyboard/number-row-optimization/find_optimal_num_rows.py:121-125 | Exchanging two digits of a side changes its value by the difference of the two position ratings times the difference of the two frequencies. Moving the more frequent digit to the better key raises the value. |
| `Rating.RateBounds` | keyboard/number-row-optimization/find_optimal_num_rows.py:111 | For a non-negative factor the rating is at most the sum of the sides. For a positive factor it equals that sum exactly when the sides balance. For a factor up to one it is at least twice the smaller side. |
| `Rating.RateSymmetric` | keyboard/number-row-optimization/find_optimal_num_rows.py:111 | The rating does not depend on which side is which. |
| `Rating.RateExtremes` | keyboard/number-row-optimization/find_optimal_num_rows.py:10-12 | Factor 0 ignores balance and gives the sum. Factor 1 gives twice the smaller side value. |
| `Rating.MirrorRating` | keyboard/number-row-optimization/find_optimal_num_rows.py:107-118 | Mirroring an arrangement swaps its two side values and keeps its rating, and the two either both rate or both raise. |
| `Frequencies.ZipfWeights` | keyboard/number-row-optimization/find_optimal_num_rows.py:61 | The Zipf table has the ten digits in `string.digits` order, and the digit at index n gets 1/(n+1). |
| `Frequencies.ZipfFalling` | keyboard/number-row-optimization/find_optimal_num_rows.py:61 | The Zipf frequencies fall strictly from one digit to the next and stay positive. |
| `Frequencies.Blend` | keyboard/number-row-optimization/find_optimal_num_rows.py:88 | For a `ZIPF_FACTOR` between 0 and 1, the blend lies between the two blended values. |
| `Frequencies.BlendZero` | keyboard/number-row-optimization/find_optimal_num_rows.py:89-91 | Only the frequency of `0` changes, to its blend with the real-world share; keys and order stay. A table without `0` raises `KeyError`. |
| `Frequencies.BlendEach` | keyboard/number-row-optimization/find_optimal_num_rows.py:86-88 | Succeeds exactly when the code table has every key. The result is then `Blended`: the same keys in the same order, each with the blend of the code frequency and its own value. The first key the code table lacks raises `KeyError`. |
| `Frequencies.NormalizePositions` | keyboard/number-row-optimization/find_optimal_num_rows.py:102-104 | The rescaled ratings add up to 100 and keep their proportions. A zero sum raises `ZeroDivisionError`. |
| `Frequencies.ScriptPositionRatings` | keyboard/number-row-optimization/find_optimal_num_rows.py:8 | The script's five ratings rescale to a total of 100; the pinky key stays the lowest and the middle-finger key the highest. |
| `Frequencies.PrepareFrequencies` | keyboard/number-row-optimization/find_optimal_num_rows.py:61-98 | The prepared frequencies sum to one. With the script's setting (no real-world average) the result is the Zipf table with `0` blended, divided by its positive sum. It has one entry per digit, and the entries for `1` to `9` are positive and fall strictly. With the real-world average, a key that is not a digit raises `KeyError`. Otherwise an empty table stays empty, a zero sum raises `ZeroDivisionError`, and anything else is the `Blended` table divided by its sum. |
| `Tables.Lookup` | keyboard/number-row-optimization/find_optimal_num_rows.py:90 | A dictionary lookup succeeds exactly for a present key and otherwise raises `KeyError` for that key. |
| `Tables.Normalize` | keyboard/number-row-optimization/find_optimal_num_rows.py:95-98 | Every value is divided by the sum, keys and order kept. The result sums to one, and a zero sum of a non-empty table raises `ZeroDivisionError`. |
| `Tables.DividedByTotal` | keyboard/number-row-optimization/find_optimal_num_rows.py:96-98 | Dividing every value by a non-zero sum makes the values add up to one. |
| `CorpusCount.SortByCount` | keyboard/number-row-optimization/corpus_count.py:135 | The stable sort by count returns a permutation of its input. |
| `CorpusCount.SortAscending` | keyboard/number-row-optimization/corpus_count.py:135 | Sorting `string.digits` orders them by count, and equal counts keep digit order. |
| `CorpusCount.CountsPermutation` | keyboard/number-row-optimization/corpus_count.py:138 | The total of the counts does not depend on the order in which they were inserted. |
| `CorpusCount.DigitRatios` | keyboard/number-row-optimization/corpus_count.py:132-144 | The table is produced exactly when every digit has a count and the digit total is not zero. The first missing digit raises `KeyError`, and a zero total raises `ZeroDivisionError`. |
| `CorpusCount.DigitRatiosKeys` | keyboard/number-row-optimization/corpus_count.py:135-136 | The returned table has the ten digits as keys, each once. |
| `CorpusCount.DigitRatiosShares` | keyboard/number-row-optimization/corpus_count.py:138-142 | Looking up a digit gives its count divided by the count of all digits, and the shares add up to one. |
| `CorpusCount.DigitRatiosOrder` | keyboard/number-row-optimization/corpus_count.py:135-136 | The entries come in ascending order of count, and equal counts come in digit order. |
| `CorpusCount.DigitRatiosBounds` | keyboard/number-row-optimization/corpus_count.py:141-142 | For non-negative counts, every share lies between 0 and 1 and the shares ascend through the table. |
| `CorpusCount.CountsInOrder` | keyboard/number-row-optimization/corpus_count.py:135-136 | The first loop builds the table of the counts of the sorted digits, in sorted order. |
| `CorpusCount.GetDigitFrequencies` | keyboard/number-row-optimization/corpus_count.py:132-144 | The two loops of `get_digit_frequencies` compute exactly `DigitRatios`, errors included. |
| `CorpusCount.AddShares` | keyboard/number-row-optimization/corpus_count.py:177-179 | Each digit's running sum grows by its share. The first digit the shares lack raises `KeyError`. |
| `CorpusCount.AddCorpus` | keyboard/number-row-optimization/corpus_count.py:176-179 | A corpus without shares raises what `get_digit_frequencies` raises. Otherwise every sum grows by that corpus's share, and the total of the sums grows by one. |
| `CorpusCount.AverageAcrossCorpora` | keyboard/number-row-optimization/corpus_count.py:170-189 | The first unusable corpus raises its exception, and no corpus at all raises `ZeroDivisionError`. Otherwise every digit gets the mean of its shares over the corpora, and the means add up to one. |
| `Search.CurrentWithinSwapBudget` | keyboard/number-row-optimization/find_optimal_num_rows.py:245 | Today's row is within `MAX_N_SWAPS` exchanges of itself. |
| `Search.CurrentKeepsSides` | keyboard/number-row-optimization/find_optimal_num_rows.py:249 | Today's row keeps every digit of `LEFT` on the left. |
| `Search.WorstIsLowest` | keyboard/number-row-optimization/find_optimal_num_rows.py:241-243 | There is a worst arrangement exactly when there was a candidate. It rates no higher than any candidate, and it is the first candidate with that rating. |
| `Search.BestIsHighest` | keyboard/number-row-optimization/find_optimal_num_rows.py:245-251 | A best-of leader meets its test and rates above zero. It rates at least as high as every candidate that meets the test, and it is the first such candidate with its rating. There is no leader exactly when no candidate meeting the test rates above zero. |
| `Search.IsWithinSwapBudget` | keyboard/number-row-optimization/find_optimal_num_rows.py:245 | For an arrangement of today's row, `count_swaps(p) <= MAX_N_SWAPS` holds exactly when its least number of exchanges is at most two. |
| `Search.InsertedSlots` | keyboard/number-row-optimization/find_optimal_num_rows.py:253-258 | A corrected offer keeps the slots above the first slot rated below the new rating, puts the new entry there, and moves the rest down one place. |
| `Search.InsertedDescending` | keyboard/number-row-optimization/find_optimal_num_rows.py:253-258 | A corrected offer keeps the list in descending order, and the new entry gets in when it beats the last slot. |
| `Search.InsertedKeeps` | keyboard/number-row-optimization/find_optimal_num_rows.py:253-258 | A corrected offer loses at most the entry of the last slot. |
| `Search.TopShape` | keyboard/number-row-optimization/find_optimal_num_rows.py:223-258 | The corrected list holds ten slots in descending order. Each slot is still empty or holds a candidate with its rating. |
| `Search.TopKeepsBest` | keyboard/number-row-optimization/find_optimal_num_rows.py:253-258 | In the corrected list, every candidate is in the list or rates no higher than the last slot, so the list holds the ten best. |
| `Search.TopLeads` | keyboard/number-row-optimization/find_optimal_num_rows.py:253-258 | The first slot of the corrected list rates at least as high as every candidate. |
| `Search.OfferedAsWrittenDescending` | keyboard/number-row-optimization/find_optimal_num_rows.py:253-258 | The offer as written keeps the list in descending order and changes at most one slot, the first one rated below the new rating. |
| `Search.AsWrittenNeverLowers` | keyboard/number-row-optimization/find_optimal_num_rows.py:253-258 | The offer as written never lowers the rating of any slot. |
| `Search.OfferedAsWrittenFrom` | keyboard/number-row-optimization/find_optimal_num_rows.py:253-258 | After the offer as written, every slot holds what it held before or the new entry. |
| `Search.TopAsWrittenShape` | keyboard/number-row-optimization/find_optimal_num_rows.py:223-258 | The list as the loop writes it holds ten slots in descending order. Each slot is still empty or holds a candidate with its rating. |
| `Search.AsWrittenSameLeader` | keyboard/number-row-optimization/find_optimal_num_rows.py:223-258 | The list as written and the corrected list have the same first slot. |
| `Search.TopAsWrittenLeads` | keyboard/number-row-optimization/find_optimal_num_rows.py:223-258 | The first slot of the list as written rates at least as high as every candidate, and it is empty or holds a candidate. |
| `Search.AsWrittenLosesRunnerUp` | keyboard/number-row-optimization/find_optimal_num_rows.py:253-258 | The offer as written loses an arrangement that belongs in the list, while the corrected list keeps it. |
| `Search.OfferAsWritten` | keyboard/number-row-optimization/find_optimal_num_rows.py:253-258 | The loop over the array does what `OfferedAsWritten` describes. |
| `Search.Offer` | keyboard/number-row-optimization/find_optimal_num_rows.py:253-258 | The corrected loop shifts the array in place to what `Inserted` describes. |
| `Search.FindOptimal` | keyboard/number-row-optimization/find_optimal_num_rows.py:223-258 | The single pass produces exactly the worst arrangement, both best-of leaders and the list of best arrangements as the loop writes it, as the folds define them. |

## Left out

- Printing is left out: the headers, the rating columns, the improvement percentages, the frequency rows of `corpus_count.py` and `print_digit_frequencies`.
- The list of hand-picked arrangements is left out, because it is only printed.
- The enumeration of all 10! arrangements is left out. `Search.FindOptimal` takes any sequence of arrangements of today's row, in any order. The folds follow the candidates in the order they are given.
- `Search.FindOptimal` takes the rating as a function parameter rather than calling `value_per_side_and_rating` over the prepared tables; the rating itself is modelled in `Rating`.
- `collect_from_corpus.py` is not part of this model.
- The literal character-count tables of the three corpora are left out; the averaging takes any sequence of count maps.
- The Linux digit table inside the real-world branch is left out, because it is overwritten before use.
- Floating-point arithmetic is modelled with exact reals. Rounding, `inf` (modelled as "no worst yet") and NaN are not captured.
- Swap counting is modelled only for arrangements of a target without repeats, and the search never produces anything else. On every other input of equal length the loop either raises `ValueError` from `current.index` or never ends. For example, `count_swaps("11", "11")` and `count_swaps("22", "12")` exchange a character with itself forever. The `decreases` clauses of `Swaps.CountSwaps` and `Swaps.GetSwaps` hold only because their `requires` exclude exactly those inputs.
- `Rating.RateExtremes`: the comment beside `BALANCE_FACTOR` says a factor of 1 gives the smaller side value. The code gives twice that value, and the model follows the code.
- The prepared frequencies and position ratings feed `Rating` as parameters. No lemma states the rating of a particular arrangement.
- `Search.FindOptimal` keeps the list as the loop writes it, through `Search.OfferAsWritten`. `Search.Offer`, `Search.Top` and the lemmas about `Top` model the corrected list of the Findings, and no method runs the search with it.

## Findings

| source | as written | input that shows it | evidently intended | confidence | as-written member | corrected member |
|---|---|---|---|---|---|---|
| keyboard/number-row-optimization/find_optimal_num_rows.py:253-258 | An offer overwrites the first slot rated below the new rating, so the arrangement in that slot drops out of the list. | Today's row rated 1, then `21345 67890` rated 2. The list then holds only the second arrangement, and nine slots stay empty and rated 0. | The list keeps the ten best: the new entry goes in before the first lower slot and the rest move down one place. | not executed | `Search.AsWrittenLosesRunnerUp` | `Search.TopKeepsBest` |
