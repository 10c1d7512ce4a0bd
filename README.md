# minish-hat, modelled in Dafny

minish-hat shrinks sets of logic-program rules. Every rule is written as a
*label*: one symbol per atom of the program, in sorted atom order. The symbols
are `x` (the atom is not in the rule), `0` (negative body), `2` (positive
body), `o` (negative head), `z` (positive head) and `1` (the atom in the head,
both negated and not). A label is packed into an integer *key*, three bits per
symbol (`0 1 2 z o x` are the octal digits `1 2 4 3 6 7`), so that lane-wise
`|`, `&` and `^` on keys compare labels symbol by symbol.

The scripts generalise Quine–McCluskey minimisation and Petrick's method to
these six symbols:

- Labels holding an aggregate symbol (`z`, `o`, `x`) are expanded to the
  concrete labels over `0 1 2` they stand for (their *countermodels*), and
  every concrete label is *totalized* by reading any of its `2`s as a `1`.
- Adjacent keys are merged into more general ones round after round until
  nothing changes. A merged key absorbs, and marks, the keys it makes
  redundant.
- The unmarked keys are the prime implicants. Those that alone cover some
  minterm are essential. What is left over is written as facts for an
  external ASP solver (clingo), which picks a minimal cover.

Several scripts implement variants of this engine, and the model keeps each
one's own behaviour:

- `minish_hat.py`, `minish-hat.py` and `minish-ruleset.py` run the expansion
  and pairing fixpoint on keys. Modules: `Pipeline`, `Expansion`, `Pairing`,
  `Fixpoint`, `Cover`.
- `minish-countermodels.py` and `bitwise-minterms.py` merge by frontiers of
  keys grouped by adjacency value. Module: `Frontier`.
- `hybrid-minterms.py` works on label strings and frozensets of ids, stepped
  by weight. Modules: `HybridLabels`, `HybridLoop`, `HybridCover`,
  `HybridEssential`, `HybridPetrick`, `HybridMain`.

Around the engine sit:

- the label/key codec and the lane arithmetic (`Octal`, `OctOps`, `Codec`,
  `Keys`, `Weights`);
- the closure expansions (`Expand`, `Implicants`);
- the adjacency tests (`Adjacency`);
- the rule parser and the rule/label conversions and renderers (`RuleParser`,
  `Rules`, `RuleText`);
- the ASP fact writers of `minterms.py` and `helper/minterms_old.py`
  (`Minterms`);
- the sample generator `random_sampler.py` (`Sampler`).

Python's containers are modelled as follows:

- A dictionary the code mutates is a `map` plus a `seq` of keys in insertion
  order. In `Pipeline`, `Expansion` and `Pairing` this is the class
  `Implicants.MintermTable`, whose methods update it in place.
- Iteration over a Python `set` is modelled in ascending order
  (`Ordering.Ascending`, `Ordering.SortedStrings`).
- Errors Python would raise (`KeyError`, `ValueError`, `IndexError`,
  `UnboundLocalError`) are values of `Wrappers.Result`.
- Integers are unbounded, as in Python.

## Model

| member | source | states |
|---|---|---|
| OctOps.CountSetBits | helper/oct_ops.py:1-6 | counts the non-zero octal digits of the key; the count is zero exactly for key 0 |
| OctOps.IsValidAdj | helper/oct_ops.py:8-13 | true exactly when no octal digit of the key is 5 (a `0` or-ed with a `2`) |
| Octal.LaneOfBitwise | minish_hat.py:126-143 | every lane of `a op b` is `op` applied to the two lanes, so the shifted `& 7` loops see symbols pairwise |
| Octal.LaneIsOctDigit | minish_hat.py:42-54 | lane `i` of a key is the `i`-th digit from the right of `oct(k)` |
| Octal.OrXorZero | minish_hat.py:133 | the or of two keys is zero only when both are, and their xor only when they are equal (the loop guards) |
| Numerals.FromToBase | minish_hat.py:28-40 | writing a number in base `b` and reading it back gives the number, with no leading zero |
| Numerals.ToFromBase | minish_hat.py:28-40 | reading digits without a leading zero and writing them back gives the digits |
| Numerals.DecimalRoundTrip | minish_hat.py:262-275 | `int(str(k)) == k` |
| Numerals.DecimalInjective | minish_hat.py:262-275 | different numbers have different decimal strings |
| Codec.LabelToOctal | minish_hat.py:28-40 | the key the loop builds is `Encode(label)`; an unknown symbol is a KeyError |
| Codec.OctalToLabel | minish_hat.py:42-54 | the label the loop builds is `Decode(key)`; an unknown digit is a KeyError |
| Codec.CodeInverse | minish_hat.py:28-54 | the two translation tables are inverse, symbol by symbol |
| Codec.EncodeAccepts | minish_hat.py:28-40 | encoding succeeds exactly on labels over the six symbols |
| Codec.DecodeEncode | minish_hat.py:28-54 | `octal_to_label(label_to_octal(l)) == l` for every label |
| Codec.EncodeDecode | minish_hat.py:28-54 | `label_to_octal(octal_to_label(k)) == k` whenever decoding succeeds |
| Codec.EncodeInjective | minish_hat.py:28-40 | different labels get different keys |
| Codec.LanesOfLabel | minish_hat.py:28-40 | the key spans one lane per symbol, with the last symbol in lane 0 |
| Codec.ExperimentalRoundTrip | helper/octal_adj.py:15-45 | under the experimental table, a label not starting with `x` survives the round trip |
| Codec.ExperimentalLeadingXLost | helper/octal_adj.py:15-45 | under the experimental table a leading `x` is the digit 0 and is lost |
| Codec.ExperimentalCollision | helper/octal_adj.py:15-45 | so `x0` and `0` share key 1 |
| Keys.LabelKeyOfLabel | minish_hat.py:28-40 | the key of a label of width `n` has `n` lanes, each one of the six codes |
| Keys.LabelKeyDecodes | minish_hat.py:42-54 | such a key decodes to a label of width `n` that encodes back to it |
| Keys.LabelKeyWeighs | minish_hat.py:65-90 | none of the weight tables raises a KeyError on a label key |
| Keys.MergeIsLabelKey | minish_hat.py:126-143 | an accepted merge of two label keys is a label key that differs from both only at the changed lane, where it holds `z`, `o` or `x` |
| Keys.OctCharLane | minish_hat.py:524-528 | `oct(k)[-w]` reads lane `w - 1` of `k` |
| Keys.OctMaskSimilar | minish_hat.py:516-523 | `octmask & k == octmask & result` holds exactly when `k` agrees with the result on every lane but the changed one |
| Weights.LaneSum | minish_hat.py:65-90 | `get_adjval`, `get_weight` and `is_total` sum the table's weights over the key's lanes, with a KeyError for an unknown digit |
| Weights.WeightOfLabel | minish_hat.py:65-90 | the weight of a label's key is the sum of its symbols' weights and never fails |
| Weights.WeightCounts | minish_hat.py:74-81 | `get_weight` counts `z` and `o` once and `x` twice |
| Weights.TotalZeroIffBinary | minish_hat.py:83-90 | `is_total` is zero exactly on labels over `0` and `1` |
| Weights.WeightZeroIffConcrete | minish_hat.py:74-81 | `get_weight` is zero exactly on concrete labels (over `0 1 2`) |
| Weights.SumLanesFails | minish_hat.py:65-72 | once a lane raises a KeyError, the whole sum does |
| Expand.ProductMember | minish_hat.py:56-63 | the product holds exactly the strings picking one option per position |
| Expand.ProductLength | minish_hat.py:56-63 | the product has one entry per combination of options |
| Expand.ProductNoDuplicates | minish_hat.py:56-63 | options without repetition give a product without repetition |
| Expand.ProductFirst | minish_hat.py:92-97 | the first entry of the product picks every first option |
| Expand.ProductLast | helper/total_expand.py:3-17 | the last entry of the product picks every last option |
| Expand.EncodeAll | minish_hat.py:56-63 | the keys are the encodings of the labels, position by position |
| Expand.CountermodelsMember | minish_hat.py:56-63 | the countermodels of a label are exactly the labels that resolve each symbol to one of its options, each listed once |
| Expand.CountermodelsCount | minish_hat.py:56-63 | there are `2^(#z + #o) * 3^(#x)` countermodels |
| Expand.CountermodelsOfConcrete | minish_hat.py:56-63 | every countermodel is concrete, and a concrete label is its own only countermodel |
| Expand.GetTotalizeMember | minish_hat.py:92-97 | `get_totalize` lists each label that turns any of the `2`s into `1`, once each, `2^(#2)` in all, the all-`1` one first |
| Expand.KeyPositions | helper/total_expand.py:3-17 | exactly the positions holding `1` or `2`, increasing |
| Expand.WritePattern | hybrid-minterms.py:15-16 | the buffer becomes the old buffer with the tuple written at the key positions |
| Expand.Totalize | hybrid-minterms.py:9-18 | `totalize(s)` returns the pattern list `Patterns(s)` |
| Expand.NextPattern | helper/total_expand.py:3-17 | after one tuple the buffer is `s` with the tuple written in, and equals `s` off the key positions |
| Expand.PatternsMember | hybrid-minterms.py:9-18 | the patterns are exactly the strings that keep every other symbol and put `1` or `2` where `s` has one; there are `2^k` |
| Expand.PatternsFirstLast | helper/total_expand.py:3-17 | the first pattern puts `2` at every key position and the last puts `1`; a string with no key position is its own only pattern |
| Expand.TotalizeAgree | bitwise-minterms.py:19-29 | on labels over `0` and `2`, `totalize` and `get_totalize` list the same labels |
| Adjacency.CheckAdjacent | minish_hat.py:126-143 | the loop's verdict, merged key and change position are `AdjacencyOf`, with or without the `octx != res` guard |
| Adjacency.AdjacencyOneLane | minish_hat.py:126-143 | keys that differ in one lane are accepted exactly when no lane of their or up to it is 5 (and, guarded, neither key is the merge); the merge is their or |
| Adjacency.AdjacencyNeedsOneLane | minish_hat.py:126-143 | accepted keys differ in exactly one lane, the top lane of `x ^ y` |
| Adjacency.AdjacencySymmetric | minish_hat.py:126-143 | adjacency does not depend on the order of the operands |
| Adjacency.ZeroTwoNeverAdjacent | minish_hat.py:126-143 | a `0` against a `2` never merges |
| Adjacency.MergedLanes | minish_hat.py:126-143 | the merge keeps every lane but the changed one, which becomes the or of both lanes |
| Adjacency.CheckPartialAdj | minish_hat.py:99-124 | the loop's verdict is `PartialAdjacent(p0, p1)` |
| Adjacency.PartialAdjacentIff | minish_hat.py:99-124 | `check_partial_adj` holds exactly when, over the lanes of the or of the keys, none is unrelated, some is contained and exactly one is adjacent |
| Adjacency.PartialAdjacentNotSymmetric | minish_hat.py:99-124 | the test is not symmetric: `x1` against `02` passes, `02` against `x1` does not |
| Adjacency.MaskLane | helper/octal_adj.py:53-56 | a mask lane is 7 or 0 |
| Adjacency.BuildMask | helper/octal_adj.py:47-64 | the mask and the complement mask are `MaskUpTo` and `CompUpTo` over the span of the or of the keys |
| Adjacency.LaneOfMasks | helper/octal_adj.py:47-64 | lane by lane the mask is `MaskLane` and the complement `7 - MaskLane`, zero above the span |
| Adjacency.MasksDisjoint | helper/octal_adj.py:47-64 | mask and complement never share a lane and together fill the span |
| Adjacency.CountDigit | helper/octal_adj.py:66-71 | `count(mask, needle)` counts the lanes holding the needle |
| Adjacency.CountDigitMeaning | helper/octal_adj.py:66-71 | for a non-zero needle that is every such lane; `count(0, needle)` is 0 |
| Adjacency.CheckPartialAdjMasked | minish-hat.py:98-128 | the mask-based test's verdict is `MaskedPartialAdjacent(p0, p1)` |
| Adjacency.MaskedPartialAdjacentIff | minish-hat.py:98-128 | the mask-based test holds exactly when one lane is masked and the keys also differ in some unmasked lane |
| Adjacency.ClassifyPair | helper/octal_adj.py:100-126 | the classification of a pair is `ClassOf(p0, p1)` |
| Adjacency.PartialClassLanes | helper/octal_adj.py:114-125 | the partial merge takes the or at the masked lane and the and everywhere else |
| Adjacency.TotalClassMeaning | helper/octal_adj.py:114-125 | a total pair differs only in its one masked lane and merges to the or of the keys |
| Implicants.ConcreteDecodes | minish_hat.py:42-54 | a minterm key decodes to a concrete label that encodes back to it |
| Implicants.SubsumesLanes | minish_hat.py:56-63 | a key subsumes a minterm exactly when every lane of the minterm lies within the key's lane |
| Implicants.TotalizationLanes | minish_hat.py:416-423 | a minterm together with its totalization is exactly what it totalizes to |
| Implicants.TotalizationOfBinary | minish_hat.py:83-97 | a minterm without `2` totalizes to itself alone |
| Implicants.TotalizationOfTernary | minish_hat.py:83-97 | a minterm with a `2` totalizes to the keys `get_totalize` lists, itself among them |
| Implicants.TotalizeKey | minish_hat.py:416-419 | `is_total`, `octal_to_label` and `get_totalize` of one key give `Totalization(c)` |
| Implicants.MintermTotalization | minish_hat.py:429-436 | for a minterm it cannot fail, and it covers exactly what the minterm totalizes to |
| Implicants.TotalCoversUnion | minish_hat.py:530-538 | the totalization of a union is the union of the totalizations |
| Implicants.CountermodelsExactly | minish_hat.py:408-424 | the keys of a label's countermodels are exactly the minterms its key subsumes |
| Implicants.MergeCovers | minish_hat.py:530-538 | the minterms a merge subsumes are the union of those its operands subsume |
| Implicants.WellFormedCovers | minish_hat.py:530-538 | an entry's covers lie among its total covers, all of them minterms |
| Implicants.Without | minish_hat.py:478-479 | the keys of the order other than `k`, without duplicates |
| Implicants.UnmarkedIn | minish_hat.py:547 | the unmarked keys, in dictionary order, each once |
| Implicants.MintermTable.constructor | minish_hat.py:407 | an empty, ordered table |
| Implicants.MintermTable.Unmarked | minish_hat.py:547 | exactly the unmarked keys, each once |
| Implicants.MintermTable.Put | minish_hat.py:533-538 | `update({k: e})`: a new key goes to the end, an existing key keeps its place |
| Implicants.MintermTable.Pop | minish_hat.py:478-479 | `pop(k, None)` removes the key if present and keeps the order |
| Implicants.MintermTable.Mark | minish_hat.py:524-528 | marks an existing key, and a missing key is a KeyError with the table unchanged |
| Pipeline.LabelCovers | minish_hat.py:408-424 | an aggregated label covers its countermodels, a concrete one itself: exactly the minterms its key subsumes |
| Pipeline.TotalCovers | minish_hat.py:415-419 | the `for c in covers` loop gathers exactly what the covers totalize to |
| Pipeline.LabelEntry | minish_hat.py:408-424 | the entry of an input label is well formed and unmarked, and it covers itself when the label is concrete |
| Pipeline.AddLabel | minish_hat.py:408-424 | one label's entry replaces any entry of its key; other entries stay |
| Pipeline.BuildTable | minish_hat.py:407-424 | one unmarked entry per input label's key; `have_aggr` exactly when some label holds an aggregate |
| Pipeline.RulesetLabelsMember | minish-ruleset.py:75-77 | a label is read exactly from a line the pattern `^[012ozx]+\s*$` accepts and that strips to it |
| Pipeline.ParseRulesetInput | minish-ruleset.py:73-93 | `parse_input` stores one valid, unmarked entry per accepted line's key, and skips every other line |
| Pipeline.InitialMinterms | minish_hat.py:426-437 | every covered minterm, mapped to what it totalizes to |
| Pipeline.AddMinterms | minish_hat.py:426-437 | each minterm of `covers` is added with its totalizations |
| Expansion.Combinations | minish_hat.py:449-450 | `combinations(ks, 2)` pairs only keys of `ks` |
| Expansion.CombinationsMember | minish_hat.py:449-450 | the pairs are exactly an earlier key with a later key |
| Expansion.InsertEachAll | minish_hat.py:458-476 | inserting the expanded minterms in any order gives the same table |
| Expansion.ScanCounts | minish_hat.py:449-476 | `exp_count` is the number of keys the scan added, and nothing is queued before something is added |
| Expansion.ScanQueues | minish_hat.py:449-476 | only aggregated keys the scan started from are queued for deletion |
| Expansion.ScanIdle | minish_hat.py:447-479 | a scan that counts nothing changes nothing |
| Expansion.ScanWellFormed | minish_hat.py:449-476 | the scan keeps entries well formed and covering the same minterms, and what a queued key covers is by then in the table |
| Expansion.ExpansionWellFormed | minish_hat.py:447-479 | an expansion step keeps entries well formed and covering the same minterms |
| Expansion.InsertMinterm | minish_hat.py:459-470 | a missing minterm is inserted unmarked with its own entry; a present one is left alone |
| Expansion.InsertMinterms | minish_hat.py:458-476 | every missing minterm is inserted, and `added` counts them |
| Expansion.ExpandAggregates | minish_hat.py:452-476 | the covers of the aggregated operands are inserted, and those operands are queued when something was added |
| Expansion.ExpandPair | minish_hat.py:450-476 | one pair of the scan, as the scan function describes it |
| Expansion.Queued | minish_hat.py:471-475 | the aggregated operands are queued exactly when something was added |
| Expansion.ScanAll | minish_hat.py:449-476 | the scan over all pairs of unmarked keys is `ScanPairs` |
| Expansion.DeleteAll | minish_hat.py:478-479 | the table loses exactly the queued keys |
| Expansion.ExpansionStep | minish_hat.py:447-479 | one expansion step keeps the table valid and covering the same minterms |
| Fixpoint.PairLoop | minish_hat.py:441-539 | the fixpoint keeps the table valid and covering the same minterms; on convergence the last round neither expanded nor merged |
| Pairing.MergeIntoKeeps | minish_hat.py:506-538 | a merge keeps every key with its covers, marks exactly the keys it absorbs and adds its result if absent |
| Pairing.GuardedMergeMarksOperand | minish_hat.py:516-528 | with the `octx != res` guard, every accepted merge of label keys marks one of its operands |
| Pairing.UnguardedMergeMarksOperand | minish-hat.py:413-430 | without the guard, a merge of `0`/`1`, `1`/`2` or `z`/`o` marks one of its operands |
| Pairing.MergeIntoWellFormed | minish_hat.py:530-538 | a merge keeps entries well formed and covering the same minterms |
| Pairing.MarkSimilar | minish_hat.py:516-523 | the keys that match the result outside the changed lane are marked, nothing else changes |
| Pairing.MarkSimilarToResult | minish_hat.py:516-523 | the `x` branch marks exactly what the merge absorbs |
| Pairing.MarkOperands | minish_hat.py:524-528 | the other branch marks exactly the operands holding `1` at the changed lane |
| Pairing.MergePair | minish_hat.py:512-538 | the table becomes `MergeInto` of the merge |
| Pairing.MergePairsKeeps | minish_hat.py:506-538 | the merge loop keeps every key with its covers and unmarks nothing |
| Pairing.MergePairsIdle | minish_hat.py:506-538 | a loop that counts no merge leaves the table as it was |
| Pairing.MergePairsWellFormed | minish_hat.py:506-538 | the merge loop keeps entries well formed and covering the same minterms |
| Pairing.MergePairsProgress | minish_hat.py:506-538 | when the loop counts a merge, an operand of some pair ends up marked |
| Pairing.MergeAll | minish_hat.py:506-538 | the merge loop over the candidate pairs is `MergePairs` |
| Pairing.Bucket | minish_hat.py:488-495 | `adjval_dict[a]` holds exactly the keys whose adjacency value is `a`, in order |
| Pairing.BucketValues | minish_hat.py:488-495 | the adjacency values in first-occurrence order, each once |
| Pairing.Sorted | minish_hat.py:497 | `sorted` is increasing and holds the same values |
| Pairing.ConsecutiveComplete | minish-hat.py:406-412 | over increasing values, values one apart are always neighbours |
| Pairing.BucketPairsMember | minish_hat.py:500-504 | the bucket pairs are the values less than the maximal difference apart, neighbours or not |
| Pairing.CandidatesMember | minish_hat.py:497-510 | a round tries exactly the pairs of unmarked keys whose adjacency values lie 1 apart (1 or 2 in minish_hat.py), lower first |
| Pairing.AdjvalOneStep | minish-hat.py:408-418 | an accepted merge one adjacency value up changes `0` to `1`, `1` to `2` or `z` to `o` |
| Pairing.CandidatesAbsorbing | minish_hat.py:506-528 | every accepted candidate pair marks one of its operands |
| Pairing.PairStepProgress | minish_hat.py:488-538 | a round that merges marks a key that was unmarked when it started |
| Pairing.GroupByAdjval | minish_hat.py:488-495 | the loop builds exactly the buckets and values defined above |
| Pairing.HatBucketPairs | minish_hat.py:500-504 | the pairs of sorted values 1 or 2 apart |
| Pairing.CandidatePairs | minish_hat.py:506-510 | the products of the paired buckets |
| Pairing.PairStep | minish_hat.py:488-539 | the pairing step merges every accepted candidate and keeps the table valid and its covers |
| Cover.Coverers | minish_hat.py:549-557 | exactly the unmarked keys whose prime covers the minterm, in order |
| Cover.CoverTable | minish_hat.py:549-557 | a minterm is listed exactly when some prime covers it, with all its coverers |
| Cover.AddCoverers | minish_hat.py:551-557 | one minterm's row is added exactly when it has coverers |
| Cover.BuildCoverTable | minish_hat.py:549-557 | the loops build `CoverTable` |
| Cover.UnusedIn | minish_hat.py:570 | exactly the minterms of the table not yet used, in order |
| Cover.MarkCover | minish_hat.py:581-582 | the covered minterms become used; a minterm outside the table is a KeyError |
| Cover.PassOverOk | minish_hat.py:563-585 | a pass adds the single coverers of the minterms it reads to the essentials, no key twice, and uses what they cover |
| Cover.PassOverCount | minish_hat.py:563-585 | the essential count grows exactly on minterms with a single coverer |
| Cover.PassOverUses | minish_hat.py:563-585 | a pass uses exactly what its single coverers cover |
| Cover.PassOverEssentials | minish_hat.py:563-585 | a pass adds the single coverers, each once |
| Cover.PassOverErr | minish_hat.py:581-582 | a KeyError in a pass comes from a single coverer covering an initial minterm outside the table |
| Cover.EssentialPass | minish_hat.py:574-582 | one pass is `PassOver` over the unused minterms |
| Cover.PassProgress | minish_hat.py:563-585 | where coverers determine their minterms, a pass that finds an essential uses up a minterm |
| Cover.EssentialLoop | minish_hat.py:563-585 | the essentials are single coverers, each once; full coverage uses every minterm; stopping without essentials leaves no single-coverer minterm; a KeyError has its cause |
| Cover.EssentialRound | minish_hat.py:569-585 | one round either ends the loop for a stated reason or keeps the loop's invariant |
| Cover.CoverTableFits | minish_hat.py:549-557 | the coverers are unmarked keys and the listed minterms are initial minterms |
| Cover.HatDetermined | minish_hat.py:549-557 | in minish_hat.py a prime covers a minterm exactly when it lists it, so coverers determine their minterms |
| Cover.PrimeLeft | minish_hat.py:597-600 | the unmarked keys that did not become essential (all of them without `--hybridcover`) |
| Cover.MinIds | minish_hat.py:601-604 | the minterms left unused (all of them without `--hybridcover`) |
| Cover.IdCover | minish_hat.py:606-610 | each prime left with what it covers among those minterms, when that is not empty |
| Cover.BuildIdCover | minish_hat.py:606-610 | the loop builds `IdCover` |
| Cover.IdCoverComplete | minish_hat.py:602-610 | the reduced problem loses no minterm some prime left covers |
| Cover.ReducedProblemCovers | minish_hat.py:594-612 | where coverers determine their minterms, every minterm left unused is covered by some listed prime |
| Cover.WriteMincoverFacts | minish_hat.py:152-159 | the loops write `MincoverFacts` |
| Cover.MincoverFactsLines | minish_hat.py:152-159 | one line of facts per entry of `id_cover` |
| Frontier.InputLineLabel | minish-countermodels.py:9-21 | the symbols of an input line form a label |
| Frontier.LineKeysMeaning | minish-countermodels.py:9-21 | an aggregated label in minish-countermodels.py stands for exactly the minterms it subsumes; any other label for its own key |
| Frontier.StoreAllKeeps | minish-countermodels.py:18-20 | storing fresh entries keeps the order, stores every key fresh and leaves the others alone |
| Frontier.ParseLinesMeaning | minish-countermodels.py:9-21 | `parse_input` never raises and keeps exactly the keys of the label lines, unmarked and covering themselves |
| Frontier.KeysOfLinesWidth | bitwise-minterms.py:9-17 | input labels of width `n` give label keys of width `n` |
| Frontier.StoreKeys | minish-countermodels.py:18-20 | the loop stores the keys as `StoreAll` |
| Frontier.ParseInput | bitwise-minterms.py:9-17 | the table is what `ParseLines` gives for the text's lines |
| Frontier.ParseLine | minish-countermodels.py:12-20 | one line adds its keys as `AddLine` |
| Frontier.TotalizeTable | minish-countermodels.py:175-178 | the loop succeeds exactly when `TotalizeAll` does, with its table or its error |
| Frontier.TotalizedEntryMeaning | bitwise-minterms.py:147-150 | the totalized entry of a key over `0` and `2` covers exactly what the key totalizes to |
| Frontier.TotalizedZeroTwo | minish-countermodels.py:32-37 | both scripts' totalization of a label over `0` and `2` lists exactly what its key totalizes to |
| Frontier.TotalizeKeysAgree | bitwise-minterms.py:19-29 | `totalize` lists the same keys as `get_totalize` |
| Frontier.PopRange | minish-countermodels.py:192-229 | a label key of width `n` sets between `n` and `3n` bits |
| Frontier.FrontierPairFacts | minish-countermodels.py:196-219 | an accepted pair goes one step up a lane, sets one bit more than its lower operand, and marks an operand |
| Frontier.MergePop | minish-countermodels.py:202-228 | the result of such a merge sets one more bit than its lower operand |
| Frontier.FrontierMergeKeeps | minish-countermodels.py:207-228 | a merge keeps the order, adds just its result and covers nothing new |
| Frontier.MergeFrontierPair | minish-countermodels.py:207-228 | the table becomes `FrontierMerge` of the pair |
| Frontier.Record | minish-countermodels.py:220-224 | `new_adjval_dict` gains the result in its bucket unless it is there |
| Frontier.RoundPairs | minish-countermodels.py:193-201 | the pairs of a round are the candidates of the frontier |
| Frontier.FrontierStep | minish-countermodels.py:202-228 | one pair advances the round as `FrontierOnce` |
| Frontier.FrontierRound | minish-countermodels.py:192-229 | a round is `FrontierRoundOf`; its new frontier holds only keys one bit further up |
| Frontier.ReadPairs | minish-countermodels.py:200-228 | the loop over a round's pairs is `FrontierPairs` |
| Frontier.ValuesIffKeys | minish-countermodels.py:192 | the frontier has a bucket exactly when it holds a key |
| Frontier.FrontierLoop | minish-countermodels.py:184-229 | the loop ends within `2n + 1` rounds with an empty frontier, keeps every key and covers nothing new |
| Frontier.LoopEnds | minish-countermodels.py:192 | the loop ends when the frontier has no bucket, and then it is empty |
| Frontier.FirstBuckets | minish-countermodels.py:184-190 | the first buckets group every key of the table by adjacency value |
| Frontier.TotalizeAllMeaning | bitwise-minterms.py:147-150 | the totalization loop over label keys never fails and keeps keys, marks and self-cover |
| Frontier.InitialCovers | minish-countermodels.py:180 | `initial_minterms` has the table's keys, each among its own covers |
| Frontier.CoverTableListsCovered | minish-countermodels.py:236-245 | every initial minterm an unmarked prime covers has a row in `cover_dict` |
| Frontier.SingleCoverersListed | minish-countermodels.py:258-266 | the single coverers are unmarked primes, so marking what they cover never raises |
| Frontier.CoverStage | minish-countermodels.py:236-294 | the cover stage builds `cover_dict`, runs the essential loop when asked, and leaves the reduced problem |
| Frontier.PreparedMeaning | bitwise-minterms.py:9-29 | nothing before the frontier loop fails |
| Frontier.Prepare | minish-countermodels.py:175-180 | parsing and totalizing give the prepared table, of label keys covering themselves |
| Frontier.Minimize | minish-countermodels.py:154-294 | `main` up to the solver: the frontier loop ends within `2n + 1` rounds, then the cover stage runs as stated above |
| HybridLabels.Id | hybrid-minterms.py:43-45 | a label's id is below `6^width`; anything else is a ValueError |
| HybridLabels.IdInjective | hybrid-minterms.py:43-45 | labels of one width with the same id are the same label |
| HybridLabels.LabelWeight | hybrid-minterms.py:20-26 | a KeyError exactly for a symbol outside the table; otherwise at most `2n`, and zero exactly on variable symbols |
| HybridLabels.WeightUpdate | hybrid-minterms.py:20-26 | changing one symbol changes the weight by the difference of the symbols' weights |
| HybridLabels.AdjVal | hybrid-minterms.py:39-41 | a ValueError exactly when some character has no digit |
| HybridLabels.LabelMeasures | hybrid-minterms.py:20-41 | a label has an adjacency value and a weight |
| HybridLabels.PairEntry | hybrid-minterms.py:56-63 | table pairs are of equal weight and merge one weight up; a non-`x` merge absorbs the `1` operand |
| HybridLabels.CheckAdjacent | hybrid-minterms.py:55-76 | the loop gives `AdjacentOf(lx, ly)` |
| HybridLabels.ScanNoPair | hybrid-minterms.py:65-76 | without a table pair, `ret` stays unbound exactly when the rest of the labels agree |
| HybridLabels.AdjacentMeaning | hybrid-minterms.py:55-76 | equal labels leave `ret` unbound; a position is returned exactly when the labels differ there only, by a table pair |
| HybridLabels.AdjacentOk | hybrid-minterms.py:55-76 | two different labels of one width never leave `ret` unbound |
| HybridLabels.MergedWeight | hybrid-minterms.py:218-223 | a merge yields a label of the same width, one weight up from each operand |
| HybridLabels.SimilarMeaning | hybrid-minterms.py:47-53 | a label is similar at `p` exactly when it agrees elsewhere and holds a non-`x` symbol at `p` |
| HybridLoop.NewEntry | hybrid-minterms.py:28-37 | the entry is unmarked, carries the label and weighs at most `2n`; errors are KeyError or ValueError |
| HybridLoop.ParseLines | hybrid-minterms.py:28-37 | `parse_input` never raises |
| HybridLoop.ParseLinesMeaning | hybrid-minterms.py:28-37 | every label line is stored once under the singleton of its id, unmarked |
| HybridLoop.ParseInput | hybrid-minterms.py:28-37 | the loop gives `ParseLines` of the text's lines |
| HybridLoop.RevOfMeaning | hybrid-minterms.py:173 | `rev_dict` lists each label once, maps it to a key carrying it, and starts with the first key's label |
| HybridLoop.ReverseDict | hybrid-minterms.py:173 | the comprehension gives `RevOf` |
| HybridLoop.MaxStep | hybrid-minterms.py:180-183 | `--maxstep - 1` when given; else twice the first label's width; an IndexError without any label |
| HybridLoop.WeighingMeaning | hybrid-minterms.py:191-192 | the selected keys are the unmarked keys of weight `step`, each once |
| HybridLoop.SelectedMeaning | hybrid-minterms.py:191-192 | `selected_minterms` holds exactly the unmarked entries of weight `step`, as they stand |
| HybridLoop.BucketsMeaning | hybrid-minterms.py:198-200 | `adj_vals` lists each value once and every key sits in the bucket of its value |
| HybridLoop.Population | hybrid-minterms.py:198-200 | the loop gives `Buckets` |
| HybridLoop.CrossMeaning | hybrid-minterms.py:212-213 | the nested loops meet exactly the pairs of the two buckets |
| HybridLoop.StepPairsMeaning | hybrid-minterms.py:205-216 | every pair checked joins consecutive sorted buckets |
| HybridLoop.Mark | hybrid-minterms.py:230-231 | marks an existing key; a missing key is a KeyError |
| HybridLoop.MarkFromMeaning | hybrid-minterms.py:226-228 | a KeyError exactly when some id is missing; otherwise exactly those entries are marked |
| HybridLoop.SimilarMarksMeaning | hybrid-minterms.py:47-53 | `get_similar_marks` returns the ids of exactly the similar labels |
| HybridLoop.GetSimilarMarks | hybrid-minterms.py:47-53 | the loop gives `SimilarMarks` |
| HybridLoop.MergePair | hybrid-minterms.py:214-231 | one pair is `TryPair` |
| HybridLoop.MarkEach | hybrid-minterms.py:226-228 | the marking loop is `MarkFrom` |
| HybridLoop.HybridStep | hybrid-minterms.py:190-243 | one iteration is `StepOf` |
| HybridLoop.PairLoop | hybrid-minterms.py:185-243 | the loop is `Steps` from step 0 to `maxstep` |
| HybridLoop.TryPairSafe | hybrid-minterms.py:212-231 | a pair of different adjacency values never raises and keeps the loop invariant |
| HybridLoop.StepSafe | hybrid-minterms.py:186-237 | a step never raises and keeps the invariant |
| HybridLoop.StepsSafe | hybrid-minterms.py:185-243 | the loop never raises and keeps the invariant |
| HybridLoop.LateStepIdle | hybrid-minterms.py:185-243 | past `2n` a step selects nothing and ends the loop |
| HybridLoop.BoundBeyondWeights | hybrid-minterms.py:180-183 | any bound at least `2n` gives the result of the default bound |
| HybridCover.IdsOfMeaning | hybrid-minterms.py:156-166 | the ids are those of the strings, and exist exactly when every string has one |
| HybridCover.InitialMeaning | hybrid-minterms.py:156-166 | the entry is total exactly for labels over `0` and `2`, and then covers the ids of its totalizations |
| HybridCover.InitFromMeaning | hybrid-minterms.py:156-166 | over labels the loop never raises and gives every key its entry |
| HybridCover.InitMinterms | hybrid-minterms.py:156-166 | the loop gives `InitMintermsOf` |
| HybridCover.UnmarkedKeysMeaning | hybrid-minterms.py:248 | exactly the unmarked keys are kept |
| HybridCover.Unmarked | hybrid-minterms.py:248 | `unmarked` is a well-formed dictionary |
| HybridCover.ExtendCover | hybrid-minterms.py:256-259 | the loop gives `ExtCoverOf` |
| HybridCover.ExtFromMeaning | hybrid-minterms.py:254-261 | when every id has an initial entry the loop never raises and extends every key |
| HybridCover.ExtendedCovers | hybrid-minterms.py:254-261 | the loop gives `ExtendedOf` |
| HybridCover.CoverersMeaning | hybrid-minterms.py:274-282 | the coverers are exactly the primes meeting the minterm in one id, with their labels |
| HybridCover.CoverDictMeaning | hybrid-minterms.py:274-282 | `cover_dict` lists each covered minterm once with all its coverers |
| HybridCover.BuildCoverDict | hybrid-minterms.py:274-282 | the loops give `CoverDictOf` |
| HybridEssential.MarkUsed | hybrid-minterms.py:320-321 | as written, a KeyError exactly when an id of the cover has no row; otherwise exactly those rows become used |
| HybridEssential.MarkCovered | hybrid-minterms.py:320-321 | the loop gives `MarkUsed` |
| HybridEssential.PassCount | hybrid-minterms.py:296-333 | a pass counts one essential per minterm with a single coverer |
| HybridEssential.PassIdle | hybrid-minterms.py:296-333 | a pass meeting no single coverer changes nothing |
| HybridEssential.PassUses | hybrid-minterms.py:296-333 | after a pass every single-coverer minterm is used |
| HybridEssential.PassProgress | hybrid-minterms.py:296-333 | a pass that counts an essential uses up an unused minterm |
| HybridEssential.ExtractKeeps | hybrid-minterms.py:296-333 | the extraction changes only flags and, guarded, cannot fail |
| HybridEssential.ExtractEnds | hybrid-minterms.py:296-333 | full coverage uses every minterm; otherwise the last pass found no essential |
| HybridEssential.ExtractCovering | hybrid-minterms.py:296-333 | every used minterm is covered by an essential prime |
| HybridEssential.ExtractAgrees | hybrid-minterms.py:320-321 | an extraction that succeeds as written equals the guarded one |
| HybridEssential.RunPass | hybrid-minterms.py:313-321 | one pass is `PassFrom` |
| HybridEssential.ExtractEssentials | hybrid-minterms.py:296-333 | the loop is `Extract` |
| HybridPetrick.PrimeLeftMeaning | hybrid-minterms.py:349 | `prime_left` keeps, in order and unchanged, exactly the primes not flagged essential |
| HybridPetrick.FirstId | hybrid-minterms.py:361-363 | `list(k)[0]` is an IndexError exactly for the empty set |
| HybridPetrick.FirstIdLeast | hybrid-minterms.py:361-363 | the first id is the least |
| HybridPetrick.MinIdsFails | hybrid-minterms.py:361-363 | an IndexError exactly when some minterm is empty |
| HybridPetrick.MinIdsCollects | hybrid-minterms.py:361-363 | over singletons the loop collects exactly their ids |
| HybridPetrick.MinIds | hybrid-minterms.py:361-363 | the loop gives `MinIdsFrom` |
| HybridPetrick.LabelCoverMeaning | hybrid-minterms.py:364-368 | each label once, with the non-empty uncovered part of its prime's cover; every such prime listed |
| HybridPetrick.LabelCover | hybrid-minterms.py:364-368 | the loop gives `LabelCoverOf` |
| HybridPetrick.WriteMincoverFacts | hybrid-minterms.py:78-85 | the loops give `MincoverFacts` |
| HybridPetrick.MincoverFactsLines | hybrid-minterms.py:78-85 | one line of facts per label |
| HybridMain.ParseShape | hybrid-minterms.py:28-37 | the parsed table lists each key once under the singleton of its label's id |
| HybridMain.ParseHolds | hybrid-minterms.py:28-37 | every input line's label is stored |
| HybridMain.InitShape | hybrid-minterms.py:156-166 | `init_minterms` never raises and has the table's keys in order |
| HybridMain.PrimesOf | hybrid-minterms.py:156-261 | parsing, `init_minterms` and the primes give well-shaped tables |
| HybridMain.FindPrimes | hybrid-minterms.py:156-261 | the stages' loops give `PrimesOf` |
| HybridMain.Conclude | hybrid-minterms.py:342-370 | what follows the extraction is `Finish` |
| HybridMain.HybridMinterms | hybrid-minterms.py:124-370 | `main` up to the solver is `Run` |
| HybridMain.PrimesSafe | hybrid-minterms.py:156-261 | over one width, given `--maxstep` or a line, the primes are found |
| HybridMain.RunSafe | hybrid-minterms.py:124-370 | guarded, a run over one width never raises |
| HybridMain.RunNoInput | hybrid-minterms.py:180-183 | without `--maxstep` and without a line, the run raises an IndexError |
| HybridMain.RunAgrees | hybrid-minterms.py:320-321 | a run that succeeds as written equals the guarded run |
| HybridMain.FullCovers | hybrid-minterms.py:344-347 | with full coverage every covered initial minterm lies in an essential's cover |
| HybridFinding.RunAsWritten | hybrid-minterms.py:320-321 | as written, the input `02` raises a KeyError |
| HybridFinding.ExtractAsWritten | hybrid-minterms.py:320-321 | the essential `02` marks the missing row `frozenset([1])` |
| HybridFinding.ExtractGuarded | hybrid-minterms.py:296-333 | guarded, extraction reaches full coverage after one pass |
| HybridFinding.RunGuarded | hybrid-minterms.py:296-347 | guarded, `02` is essential and covers the input |
| Minterms.AtomName | minterms.py:7-11 | `chr` of the wrapped code point; a ValueError past the last code point (and for surrogates) |
| Minterms.AtomNameLetters | minterms.py:7-11 | from a lowercase start the first 26 names are the letters, wrapping after `z` |
| Minterms.AtomNameInjective | minterms.py:7-11 | the first 26 names are different |
| Minterms.LineIdInjective | helper/minterms_old.py:18-24 | lines of one width with the same id are the same line |
| Minterms.WriteLineFacts | minterms.py:13-23 | the body of the loop gives `LineFacts` |
| Minterms.InputToAsp | helper/minterms_old.py:14-25 | `input_to_asp` gives `AspFacts` |
| Minterms.AspFactsLines | minterms.py:13-23 | one line of facts per input line, none for other lines; never fails within 26 positions |
| Minterms.CurrentNamesLetters | minterms.py:7-23 | the first 26 positions are named by single lowercase letters |
| Minterms.WriteValues | minterms.py:39-46 | the inner loop writes the values in sorted attribute order |
| Minterms.ImplicatesDictStr | minterms.py:39-46 | `implicates_dict_str` gives `DictStr` |
| Minterms.DictStrLines | helper/minterms_old.py:41-54 | one line per key |
| Minterms.ImplicateTerms | minterms.py:48-70 | one term per implicate |
| Minterms.WriteImplicateTerm | minterms.py:48-70 | the inner loop gives `ImplicateTerm` |
| Minterms.ImplicatesDictRules | minterms.py:48-70 | the terms joined by line breaks |
| Minterms.OldTermIsLabelTerm | helper/minterms_old.py:56-78 | an implicate of one-symbol values is written as the rule `labels_to_rules` writes for the label it spells |
| Sampler.TernaryRoundTrip | random_sampler.py:4-11 | `ternary(n)` reads back as `n` in base 3, with no leading zero unless `0` |
| Sampler.Ternary | random_sampler.py:4-11 | the loop gives `TernaryText` |
| Sampler.ZeroPad | random_sampler.py:35 | padding to the width with leading zeros and keeping the digits |
| Sampler.ZeroPadReads | random_sampler.py:35 | padding does not change the value |
| Sampler.SampleLineText | random_sampler.py:35 | a line is `ternary(m)` padded to `atoms`, then a line break |
| Sampler.SampleLineShape | random_sampler.py:35 | a line is base-3 digits and a line break |
| Sampler.SampleLineReads | random_sampler.py:35 | a line reads back, in base 3, as its minterm |
| Sampler.SampleLineWidth | random_sampler.py:30-35 | a minterm of the drawn range takes exactly `atoms` digits |
| Sampler.SampleLineInjective | random_sampler.py:30-35 | different minterms give different lines |
| Sampler.WriteSample | random_sampler.py:33-35 | the loop writes `SampleText` |
| Sampler.SampleTextLines | random_sampler.py:33-35 | one line per minterm |
| Ordering.Ascending | minish_hat.py:581 | a set listed once each, increasing |
| Ordering.AscendingInjective | minish_hat.py:581 | the listing determines the set |
| Ordering.SortedStrings | minish_hat.py:12 | `sorted` of a set of strings holds its elements |
| Ordering.SortedStringsIncreasing | minish_hat.py:12 | `sorted` lists the strings increasing, each once |
| Text.LStrip | hybrid-minterms.py:28-37 | drops exactly the leading spaces |
| Text.RStrip | hybrid-minterms.py:28-37 | drops exactly the trailing spaces |
| Text.StripShape | hybrid-minterms.py:28-37 | `strip` cuts spaces from both ends only, and is idempotent |
| Text.Find | helper/input-parse.py:44-81 | the first occurrence of the separator, if any |
| Text.JoinSplit | hybrid-minterms.py:28-37 | joining the pieces of a split gives the string back |
| Text.SplitJoin | minish_hat.py:188-204 | splitting a join on a separator no piece holds gives the pieces back |
| Text.ReplaceCount | helper/input-parse.py:44-81 | removing the occurrences shortens by the length of `sub` per occurrence `count` finds |
| RuleParser.HeadRole | minish-hat.py:252-288 | no `not` is positive head; an odd count negative head; an even one negative body |
| RuleParser.BodyRole | minish-hat.py:252-288 | the body role mirrors the head role |
| RuleParser.Literal | helper/input-parse.py:44-81 | the role comes from the count of `not`, and the atom is the stripped rest |
| RuleParser.LiteralRoundTrip | minish-hat.py:252-288 | `k` times `not ` before an atom reads back as the atom, in the role of `k`'s parity |
| RuleParser.ResolveMeaning | minish-hat.py:289-305 | a KeyError exactly when a conflicting atom is missing from a set; otherwise the conflicts are removed from all five sets |
| RuleParser.ResolveConflicts | helper/input-parse.py:82-98 | the loop gives `Resolve` |
| RuleParser.ReadBody | minish-hat.py:252-288 | the loop gives `BodyPieces` |
| RuleParser.ReadLine | minish-hat.py:241-315 | the line gives `ParseLine` |
| RuleParser.ReadHeadPiece | minish-hat.py:252-315 | one head piece gives `LineRound` |
| RuleParser.MatchesRuleLineIff | minish-hat.py:246 | the greedy match accepts exactly the lines of the rule pattern |
| RuleParser.ParsedNumbering | helper/input-parse.py:99-108 | rules are numbered 1, 2, ... and every atom of a rule has a role |
| RuleParser.ParsedLabelWidth | minish-hat.py:317-320 | every parsed rule writes a label as wide as the atoms, with the as-written first test and with the corrected one |
| RuleParser.ReadProgram | helper/input-parse.py:36-108 | the program is `ParseLines` of its lines |
| RuleParser.ReadProgramLine | helper/input-parse.py:36-108 | one line is `ParseStep` |
| RuleParser.RuleLabels | minish-hat.py:317-320 | one label per rule, in rule order, written by this script's own `rule_to_label` with its first test as written |
| RuleParser.RuleLabelSymbols | minish-hat.py:9-25 | each symbol of a rule's label says which role its atom has: `x` not mentioned; `1` positive head while the negative head is not empty; `z` positive head otherwise; `o`, `2`, `0` negative head, positive body, negative body alone |
| RuleParser.RuleLabelsHeadsBoth | minish-hat.py:15 | the rule `a; not b.` gets the label `1o`, not `zo` |
| RuleParser.ReadInput | minish-hat.py:241-320 | the input gives `InputLabels`: the label lines, then the as-written labels of the rules |
| RuleParser.ReadLines | minish-hat.py:241-315 | the label lines and the parsed rules, or the KeyError |
| RuleParser.WriteRuleLabels | minish-hat.py:317-320 | the loop gives `RuleLabels`, calling `rule_to_label` with the as-written test |
| RuleParser.RuleLabelWidths | minish-hat.py:317-320 | every label read from a rule line is as wide as the atoms |
| Rules.RuleToLabel | minish_hat.py:10-26 | the label is `LabelOf` over the sorted atoms |
| Rules.LabelOfLength | minish_hat.py:10-26 | one symbol per atom |
| Rules.LabelOfAt | minish_hat.py:10-26 | each position holds the symbol of its atom's role |
| Rules.Names | minish_hat.py:206-234 | an IndexError exactly when the atom list is shorter than the label |
| Rules.LabelToRuleDict | minish_hat.py:206-234 | an IndexError exactly when the atom list is too short; otherwise the roles of each position |
| Rules.RolesAt | minish_hat.py:206-234 | distinct names carry exactly their positions' roles |
| Rules.RuleLabelRoundTrip | minish_hat.py:10-26 | reading a label into roles and writing it back gives the label |
| Rules.RuleLabelAsWrittenBreaks | minish-hat.py:9-25 | with the test `atom in phead and nhead`, `zo` over `a`, `b` comes back as `1o` |
| RuleText.LiteralName | minish-hat.py:185-210 | `atomset[idx]`, `x<idx>` without atoms, an IndexError past the end |
| RuleText.LabelNames | minish-hat.py:185-210 | the names of the positions, or the IndexError |
| RuleText.WriteLabelTerm | minish-hat.py:185-210 | the inner loop gives the term of the label, or the IndexError |
| RuleText.LabelsToRules | minish-hat.py:185-210 | one term per label, joined by line breaks |
| RuleText.LabelsToRulesLines | minish-hat.py:185-210 | one line per label, line `i` the term of label `i` |
| RuleText.LiteralsEmpty | minish-hat.py:185-210 | no head symbol gives no head literal; no body symbol no body literal |
| RuleText.AllAggregatedTerm | minish-hat.py:185-210 | an all-`x` label is the empty rule `.` |
| RuleText.LiteralsHave | minish-hat.py:185-210 | each position's literal lands in the head or body by its symbol |
| RuleText.RulesToString | minish_hat.py:188-204 | the rule lines joined by line breaks |
| RuleText.WriteRuleString | minish_hat.py:188-204 | one rule's line is `RuleString` |
| RuleText.RulesToStringLines | minish_hat.py:188-204 | one line per rule |
| RuleText.RuleStringShape | minish_hat.py:188-204 | `head :- body.`, a fact `head.`, a constraint `:- body.`, the empty rule `.` |
| RuleText.WriteRoleFacts | minish_hat.py:262-275 | one fact per atom of the role, sorted |
| RuleText.RulesToAsp | minish_hat.py:262-275 | the `program` line, then the lines of the rules |
| RuleText.RulesToAspLines | minish_hat.py:262-275 | the `program` line and one line per rule |

## Left out

- The ASP programs and the clingo solver they run are left out: `solve`,
  `solve_optimal`, `solve_iter`, the Petrick cover choice, the
  literal-minimising second pass and the `asprin` subprocess. The model stops
  at the facts handed to the solver.
- Solver symbols are left out: `implicates_to_dict` and `symbols_to_facts`
  read clingo symbols. The writers that follow them are modelled over
  dictionaries of strings.
- Command-line parsing, file reading and writing, timing, console output,
  `cover_table` and `check_simpler` of `minish_hat.py` are left out. Input
  text is a parameter.
- `random.sample` is left out: the drawn sample is a parameter of
  `Sampler.WriteSample`.
- `minish_batch.py`, `helper/dupe_remover.py` and
  `helper/steppedpairmaking.py` are not part of this model.
- `check_partial_adj` of `helper/octal_adj.py` (lines 73-98) is left out:
  every call raises `UnboundLocalError`. The loop guard at line 80 reads `a`
  and `b` before any assignment, and the shifts at lines 91-92 make them
  local names. The function would also return the undefined name
  `adj_pos_count` (line 98).
  `Adjacency.CheckPartialAdjMasked` models the working copy in
  `minish-hat.py`.
- Python's `set` iteration order is hash order; the model iterates sets in
  ascending order. This affects:
  - the `essential_cover & initial_minterms_set` loop and `mincover_facts` in
    `Cover`;
  - `list(k)[0]` in `HybridPetrick.FirstId`;
  - the facts written in `HybridPetrick`;
  - the atom order in `RuleText.RulesToString` and `RuleText.RulesToAsp`,
    which uses `Ordering.SortedStrings`.

  Which element comes first there is unspecified in Python.
- The table and pairing steps require all labels to have one width, as the
  scripts' inputs do. Mixed widths are not modelled.
- Fixpoint.PairLoop: the `while (adj_count + exp_count) > 0` loop runs for
  at most `maxRounds` rounds and then reports `OutOfFuel`. That the loop
  terminates is not proved. Each round is proved to keep the table valid and
  its covers, and a round that merges marks a key.
- Cover.EssentialLoop: the `while True` loop runs for at most `maxPasses`
  passes. That this bound is never reached is proved only where coverers
  determine their minterms (`Cover.HatDetermined`, `minish_hat.py`).
- Expansion.Queued: the source appends each aggregated operand (`k1`, `k2`
  or both) to `delete_list` once per added minterm. The model queues each
  once per pair. `pop(k, None)` makes the duplicates harmless.
- Pairing.MergeIntoKeeps: `minish-ruleset.py` omits `totalcovers` from
  merged entries, and nothing reads that field afterwards. The model gives
  merged entries the union in every variant.
- Minterms.ImplicatesDictStr: the attributes are sorted as text; the source
  sorts clingo symbols, which order names the same way only for plain
  lowercase names.
- Minterms.AtomName: code points `0xD800`–`0xDFFF` give `ValueError` in the
  model, because a Dafny `char` cannot hold a surrogate. Python's `chr`
  returns them.
- RuleParser.MatchesRuleLineIff: `\w` is modelled as ASCII letters, digits
  and `_`; Python's `\w` also matches other Unicode letters.

## Findings

| source | as written | input that shows it | evidently intended | confidence | as-written member | corrected member |
|---|---|---|---|---|---|---|
| minish-hat.py:15 (also helper/input-parse.py:10) | `atom in rulevalues['phead'] and rulevalues['nhead']` tests only that `nhead` is non-empty, so a positive-head atom becomes `1` whenever some atom is in the negative head | the label `zo` over atoms `a`, `b` reads back as `1o` | `atom in rulevalues['nhead']`, as `minish_hat.py:16` writes it, so a label survives the round trip | not executed | Rules.RuleLabelAsWrittenBreaks | Rules.RuleLabelRoundTrip |
| hybrid-minterms.py:320-321 | every id of an essential prime's extended cover is marked in `cover_dict`, which raises a KeyError for an id that is only a totalization and has no row | the input file `02`: prime `02` covers ids 1 and 2, but there is no row for id 1 | mark only the ids `cover_dict` holds | not executed | HybridFinding.RunAsWritten | HybridFinding.RunGuarded |
