# SNP distribution method — a Dafny model of its core

SNP_distribution_method (SDM) orders the fragments (contigs) of a genome
assembly. The aim is to bring the fragments near a causative mutation to
the middle. The variant calls of a mutant bulk are read per fragment, and
each fragment is scored by its homozygous/heterozygous SNP ratio or by its
SNP density. The fragments are bucketed by score and dealt, lowest score
first, alternately onto a left and a right side. The sides are then joined
so that the best-scoring fragments end up in the middle. Around the seam
lies the window of candidate fragments, and from those come the
hypothetical causative positions.

This project models that core in Dafny, one module per source file:

| module | file | what it holds |
|---|---|---|
| `Collections` | `collections.dfy` | Ruby's insertion-ordered `Hash` (`OHash`), a mutable box `Cell` for arguments the Ruby code changes in place, and sequence helpers (`Flatten`, `Uniq`, `RemoveAll`, `MinOf`, `MaxOf`, sorting, `Trunc`) |
| `Text` | `text.dfy` | the parts of Ruby's `String` the core uses: `count`, `split`, `to_i`, `to_s` |
| `Stuff` | `stuff.dfy` | `lib/stuff.rb`: `safe_invert` and `create_hash_number` |
| `Zygosity` | `zygosity.dfy` | the `var_mode` rule shared by `lib/compare_pileup.rb` and `lib/poly_vcf.rb` |
| `Fragments` | `fragments.dfy` | `Fragments.varpos_aggregate` and the per-fragment record |
| `Arrangement` | `arrangement.dfy` | `Fragments.split` and `Fragments.arrange` |
| `Selection` | `selection.dfy` | `Fragments.select_fragments` |
| `RatioFilter` | `ratio_filter.dfy` | `lib/ratio_filter.rb` |
| `RatioFiltering` | `ratio_filtering.dfy` | `lib/ratio_filtering.rb` |
| `SDM` | `sdm.dfy` | `lib/SDM.rb`: `normalise_by_length`, `divide_array`, `sorting`, `calling_SDM` |
| `SdmExamples` | `sdm_examples.dfy` | the fixture of `Test/unit_tests_SDM.rb`, worked through `SDM` |
| `Pileup` | `pileup.dfy` | `lib/pileup.rb`: `count_indels`, `read_base_hash`, `get_nonref_ratio` |
| `PileupCompare` | `compare_pileup.dfy` | `PileupCompare` in `lib/compare_pileup.rb` |
| `Polyploid` | `poly_vcf.dfy` | `lib/poly_vcf.rb`: `get_base_freq`, `push_base_hash` |
| `Vcf` | `vcf.dfy` | `lib/vcf.rb`: `type_per_pos`, `filtering` |
| `SnpDist` | `snp_dist.dfy` | `lib/snp_dist.rb`: `general_positions`, `densities_pos` |
| `Mutation` | `mutation.dfy` | `lib/mutation.rb`: `putative_density`, `get_candidates` |

Each loop in the source is a Dafny `method` with a `while` or `for` loop.
The method is proved equal to a specification function, and lemmas state
what the source promises about that function. The Ruby code changes some
arguments in place (`inhash`, `pos`, `snps_c`, `base_hash`, the array
handed to `count_indels`). Those arguments are `Cell` objects, and the
methods name them in `modifies` and state their new contents. Where a
Ruby call would raise (a method called on `nil`, `Array#*` with a negative
count) the model returns `Raises(message)` of a `Result` datatype. Float
infinities and NaN from a division by zero become `None`, or are kept out
by a precondition that says so.

Behaviour recorded from the code:
- `Ratio_filtering.selected_ratios` (`lib/ratio_filtering.rb:28-57`): when its
  `while` loop does not exit after the first pass, it never exits. The
  second pass repeats the same cut, because `filter` is not recomputed when
  `threshold` is raised. The model returns `Diverges` for that case and
  proves the repetition (`RatioFiltering.PassTwice`).
- `Test/unit_tests_SDM.rb` calls `SDM.split`, `SDM.sort` and `SDM.arrange`,
  which `lib/SDM.rb` does not define. Its expected `perm` (`e d a b c f`)
  is not what `SDM.sorting` computes on that fixture. The model follows the
  code: `SdmExamples.SortingExample` derives `e f g d a b c h i j`, and
  `SdmExamples.HypExample` derives the test's `hyp` of `[1, 2, 3, 4, 5, 6, 7, 10]`.
- `Test/unit_tests_snp_dist.rb:12-15` expects eight positions from seven
  ratios. `general_positions` returns one per ratio, and `SnpDist.GeneralPositions`
  follows the code.

## Model

| member | source | states |
|---|---|---|
| Stuff.SafeInvert | lib/stuff.rb:9-11 | the inverted hash is a well-formed ordered hash: distinct keys, one bucket per key |
| Stuff.SafeInvertPrefix | lib/stuff.rb:10 | one more pair of the `each_with_object` block appends its key to the bucket of its value, opening the bucket if it is missing |
| Stuff.SafeInvertBucket | lib/stuff.rb:9-11 | a value has a bucket exactly when some pair carries it, and that bucket is the pair keys with that value, in input order, never empty |
| Stuff.SafeInvertMember | lib/stuff.rb:9-11 | key `k` is in the bucket of `v` if and only if `(k, v)` is one of the input pairs |
| Stuff.SafeInvertKeys | lib/stuff.rb:9-11 | the buckets come in the order in which their values first occur |
| Stuff.SafeInvertPartition | lib/stuff.rb:9-11 | with distinct keys, every key lies in the bucket of its own value and in no other |
| Stuff.SafeInvertUniform | lib/stuff.rb:9-11 | pairs that all carry one value invert to a single bucket holding every key in order |
| Stuff.SafeInvertConserves | lib/stuff.rb:9-11 | the buckets together hold exactly the input keys, each as often as it occurs |
| Stuff.KeysWithMember | lib/stuff.rb:10 | the keys collected for a value are exactly the keys paired with it |
| Stuff.KeysWithEmpty | lib/stuff.rb:10 | the keys collected for a value are non-empty exactly when the value occurs |
| Stuff.CreateHashNumber | lib/stuff.rb:15-17 | each distinct element is a key, in first-occurrence order, and maps to its positive number of occurrences |
| Stuff.CountOfIsOccurrences | lib/stuff.rb:15-17 | reading the count hash with default 0 (`Hash.new(0)`) gives the number of occurrences of any element, present or not |
| Stuff.CreateHashNumberSum | lib/stuff.rb:15-17 | the counts add up to the length of the array |
| Zygosity.VarMode | lib/compare_pileup.rb:167-177 | `:het` exactly for a ratio in the closed band `[ht_low, ht_high]`, `:hom` exactly above `ht_high`, `''` otherwise (also the rule of lib/poly_vcf.rb:49-57) |
| Zygosity.VarModeMonotone | lib/poly_vcf.rb:49-57 | for a well-formed band, a larger allele fraction never gets a lower zygosity |
| Fragments.Shift | lib/fragments.rb:37 | each position is moved by the cumulative length, and the count is kept |
| Fragments.FragDetailFields | lib/fragments.rb:29-49 | a record holds `adjust` plus the hom and het counts, the positions shifted by the offset, the offset and the length (`nil.to_i` is 0) |
| Fragments.RatioSentinel | lib/fragments.rb:44-48 | the ratio is the `0.0` sentinel exactly when the fragment has no variant at all, and otherwise the positive quotient hm/ht |
| Fragments.Stores | lib/fragments.rb:28-68 | one record is stored per fragment of `frag_order` |
| Fragments.AggregateKeys | lib/fragments.rb:20-70 | the result is keyed by the distinct fragments of `frag_order`, in first-occurrence order |
| Fragments.AggregateRecord | lib/fragments.rb:20-70 | each fragment's record is built from the offset of the lengths of all fragments ordered before its last occurrence |
| Fragments.OffsetSnoc | lib/fragments.rb:50-52 | with `cumulate` the offset grows by each fragment's length; without it, it stays 0 |
| Fragments.StoresSnoc | lib/fragments.rb:28-68 | one pass of the loop appends the record of the next fragment at the current offset |
| Fragments.AggregateSnoc | lib/fragments.rb:28-68 | one pass of the loop stores the next fragment's record into the hash |
| Fragments.Record | lib/fragments.rb:29-49 | the body of the loop builds exactly the record `FragDetail` defines: smoothed counts, shifted positions, offset, length and ratio |
| Fragments.AggregateStep | lib/fragments.rb:28-53 | after storing the next fragment's record at the running offset and advancing the offset, the loop state is that of one more fragment |
| Fragments.AggregateOne | lib/fragments.rb:28-53 | one pass of the loop takes the state after `i` fragments to the state after `i + 1` |
| Fragments.VarposAggregate | lib/fragments.rb:20-70 | the loop over `frag_order` returns the aggregate: records keyed by fragment, positions made cumulative |
| Arrangement.HmPairs | lib/fragments.rb:92-93 | one pair (fragment, `:hm`) per fragment of the bucket |
| Arrangement.HmPairsKeys | lib/fragments.rb:92-100 | the pairs list the bucket's fragments in bucket order |
| Arrangement.HmPairsSnoc | lib/fragments.rb:92-100 | reading one more fragment appends its pair |
| Arrangement.HmPairsAt | lib/fragments.rb:92-93 | the `i`-th pair is the `i`-th fragment with its `:hm` count |
| Arrangement.SafeInvertSnoc | lib/fragments.rb:94-99 | the grouping step of `split` is the step of `safe_invert`: append to the existing group, or open one |
| Arrangement.GroupByHm | lib/fragments.rb:91-100 | the first loop of `split` groups the bucket's fragments by `:hm`, which is `safe_invert` of the (fragment, `:hm`) pairs |
| Arrangement.HmGroups | lib/fragments.rb:88-100 | the `:hm` groups of the minimum bucket form a well-formed hash |
| Arrangement.Rest | lib/fragments.rb:105-106 | an odd group loses its first fragment, an even group is halved whole |
| Arrangement.PlaceGroup | lib/fragments.rb:102-120 | placing a group keeps the keys and flips the toggle `right_or_left` |
| Arrangement.PlaceSingle | lib/fragments.rb:105-113 | a one-fragment group goes to the side the toggle names, and the toggle flips |
| Arrangement.PlaceOne | lib/fragments.rb:102-120 | the body of the second loop of `split` places one group as `PlaceGroup` says |
| Arrangement.PlacedAppendLeft | lib/fragments.rb:109-116 | appending a chunk to `left` adds exactly its fragments to what is placed |
| Arrangement.PlacedAppendRight | lib/fragments.rb:111-117 | appending a chunk to `right` adds exactly its fragments to what is placed |
| Arrangement.PlaceFirstConserves | lib/fragments.rb:105-113 | the odd fragment is placed and the rest still waits: nothing lost, nothing added |
| Arrangement.PlaceHalvesConserves | lib/fragments.rb:115-118 | the two halves together place every remaining fragment of the group |
| Arrangement.PlaceGroupConserves | lib/fragments.rb:101-121 | placing a group places each of its fragments exactly once |
| Arrangement.PlaceGroups | lib/fragments.rb:101-121 | placing the groups one after another keeps the remaining keys |
| Arrangement.PlaceGroupsSnoc | lib/fragments.rb:101-121 | one more pass of the sorted-groups loop places one more group |
| Arrangement.PlaceGroupsConserves | lib/fragments.rb:101-121 | all groups placed: exactly their fragments are added to the sides |
| Arrangement.ReadySubset | lib/fragments.rb:124 | keys left after a deletion still name buckets whose fragments have records |
| Arrangement.SplitTakesMinimum | lib/fragments.rb:88-124 | a split deletes exactly the minimum key: one key fewer, all keys left strictly larger |
| Arrangement.SplitConserves | lib/fragments.rb:87-126 | a split places exactly the fragments of the minimum-key bucket |
| Arrangement.Split | lib/fragments.rb:87-126 | the method computes the split step: the minimum bucket's `:hm` groups placed in ascending `:hm` order, and the minimum key deleted |
| Arrangement.UniformGroup | lib/fragments.rb:91-100 | a bucket whose fragments share one `:hm` count forms a single group in bucket order |
| Arrangement.UniformSplit | lib/fragments.rb:87-126 | a split whose minimum bucket has one `:hm` count places that bucket as one group |
| Arrangement.SingleSplit | lib/fragments.rb:87-126 | a split of a one-fragment bucket sends the fragment to the side the toggle names |
| Arrangement.SplitTimesUnfold | lib/fragments.rb:137-142 | the `(n+1)`-th split is applied to the state after `n` splits |
| Arrangement.SplitReady | lib/fragments.rb:87-126 | a split of ready keys leaves one key fewer, all still ready |
| Arrangement.SplitTimesReady | lib/fragments.rb:137-142 | after `n` splits, `n` keys fewer are left and they are ready |
| Arrangement.SplitTimesLeft | lib/fragments.rb:137-142 | after `n` splits exactly `n` keys are gone |
| Arrangement.SplitTimesStillReady | lib/fragments.rb:137-142 | after `n` splits the remaining keys are still ready |
| Arrangement.RoundStepSplitTimes | lib/fragments.rb:138-141 | a pass after `n` splits does two more splits, or the one that is left |
| Arrangement.RoundReady | lib/fragments.rb:137-142 | while keys remain, a pass of the loop can start and continues the split sequence |
| Arrangement.Round | lib/fragments.rb:138-141 | the body of `iterations.times`: one split, and a second one while keys remain |
| Arrangement.PassCount | lib/fragments.rb:136-142 | `round(k/2)` passes of up to two splits perform exactly `k` splits |
| Arrangement.Bisect | lib/fragments.rb:133-142 | the loop of `arrange` performs exactly one split per key of the ratio hash |
| Arrangement.Arrange | lib/fragments.rb:132-157 | `arrange` answers the outcome of splitting every key: `left` flattened followed by `right` flattened and reversed, or the `nil` error |
| Arrangement.Exchange | lib/fragments.rb:87-126 | what leaves the buckets in a split is what is placed |
| Arrangement.ConservedStep | lib/fragments.rb:87-126 | a split moves the fragments of one bucket onto the sides and loses none |
| Arrangement.SplitTimesConserves | lib/fragments.rb:136-142 | over any number of splits, placed plus still-bucketed fragments are always the whole input |
| Arrangement.OutcomeConserves | lib/fragments.rb:146-156 | with no key left, a successful outcome holds exactly the fragments that were bucketed |
| Arrangement.ArrangeConserves | lib/fragments.rb:132-157 | whenever `arrange` returns, its permutation holds every bucketed fragment exactly as often as the buckets do |
| Arrangement.SingletonRaises | lib/fragments.rb:148 | a single bucket of one fragment makes `(right.flatten!).reverse!` raise on `nil` |
| Arrangement.ArrangeFixedConserves | lib/fragments.rb:144-156 | with the flatten the comments describe, `arrange` never fails and returns a permutation of all bucketed fragments |
| Arrangement.ExampleFirstPlace | Test/unit_tests_fragments.rb:10-18 | placing the bucket of seven: `d` left, `e f g` left, `h i j` right |
| Arrangement.ExampleDropFourth | Test/unit_tests_fragments.rb:17 | deleting the lowest of the four fixture keys leaves the other three in order |
| Arrangement.ExampleDropThird | lib/fragments.rb:88-124 | of the three remaining fixture keys the minimum is the last, and deleting it leaves the other two |
| Arrangement.ExampleSevenPlaced | Test/unit_tests_fragments.rb:15-16 | the bucket of seven as one group: `left` is `['d', %w(e f g)]`, `right` is `[%w(h i j)]` |
| Arrangement.ExampleFirstSplit | Test/unit_tests_fragments.rb:10-18 | the first split of the fixture gives the sides and keys the test expects |
| Arrangement.ExampleSecondSplit | lib/fragments.rb:87-126 | the second split sends `c` right |
| Arrangement.ExampleThirdSplit | lib/fragments.rb:87-126 | the third split sends `a` left |
| Arrangement.ExampleFourthSplit | lib/fragments.rb:87-126 | the fourth split sends `b` right and leaves no key |
| Arrangement.ExampleSplits | lib/fragments.rb:136-142 | the four splits of the fixture in a row |
| Arrangement.ExampleOutcome | lib/fragments.rb:146-156 | flattening the fixture's sides gives `d e f g a b c j i h` |
| Arrangement.ExampleArrange | Test/unit_tests_fragments.rb:20-24 | `arrange` on the fixture returns `d e f g a b c j i h`, as the test expects |
| Selection.CutoffCases | lib/fragments.rb:167-177 | 1.1 without filtering or for polyploids; otherwise a cutoff above 1 with `cutoff * adjust = 1 + adjust` (back cross) or `2 + adjust` (other crosses) |
| Selection.BackCrossLowerCutoff | lib/fragments.rb:170-174 | for the same `adjust` a back cross has the lower cutoff |
| Selection.KeptMember | lib/fragments.rb:179-186 | a fragment is kept exactly when it sits in the bucket of a ratio at or above the cutoff |
| Selection.SelectFragments | lib/fragments.rb:159-195 | the result is `perm` restricted to the kept fragments, in `perm` order |
| Selection.SelectedAre | lib/fragments.rb:188-194 | a fragment occurs in the result as often as in `perm` if its ratio passes the cutoff, and not at all otherwise |
| Selection.SelectionShrinks | lib/fragments.rb:182 | raising the cutoff never adds a fragment to the selection |
| RatioFilter.FilterHash | lib/ratio_filter.rb:12-42 | the call raises `comparison of String with 0 failed` exactly when, filtering under `:bfr_rat`, some record has the `''` `:bfr`, and then the records before it are already marked; otherwise every record gets its `:discard` flag and nothing else changes, and the count returned is the one the warning reports (the source returns the hash, seen through `inhash`) |
| RatioFilter.MarkStep | lib/ratio_filter.rb:14-35 | one pass of the loop marks one more record |
| RatioFilter.MarkedAll | lib/ratio_filter.rb:14-35 | once every key is done without a raise, every record could be compared, the loop's state is the fully marked hash and the count is the number of discards |
| RatioFilter.MarkOne | lib/ratio_filter.rb:14-31 | one pass writes the verdict of the next comparable record into it in place and counts it when discarded |
| RatioFilter.MarkOneStep | lib/ratio_filter.rb:14-31 | marking the next comparable record and counting its discard takes the loop state from `i` to `i + 1` keys |
| RatioFilter.RaiseStep | lib/ratio_filter.rb:25 | reaching a record whose `:bfr` cannot be compared leaves the earlier records marked, and the hash is not comparable |
| RatioFilter.SelectedRatios | lib/ratio_filter.rb:44-66 | the filter's raise is passed on exactly when some record cannot be compared; otherwise the records are marked in place and the kept fragments are bucketed by their `ratio_type` value |
| RatioFilter.BucketSurvivors | lib/ratio_filter.rb:54-64 | the bucketing loop is `safe_invert` of the surviving (fragment, value) pairs |
| RatioFilter.SelectStep | lib/ratio_filter.rb:54-64 | one pass of the bucketing loop: a discarded fragment is skipped, a kept one is appended to its bucket |
| RatioFilter.AggregateComparable | lib/ratio_filter.rb:17-25 | records built by `varpos_aggregate` (lib/fragments.rb:53) always compare under `:ratio`, while the filtering `:bfr_rat` filter raises on them unless there are none |
| RatioFilter.SurvivorsMember | lib/ratio_filter.rb:55 | a fragment survives exactly when the filter's verdict was to keep it |
| RatioFilter.SurvivorsCount | lib/ratio_filter.rb:36-37 | discarded plus surviving fragments account for every key exactly once |
| RatioFilter.SelectedBuckets | lib/ratio_filter.rb:44-66 | fragment `f` is in bucket `k` exactly when the filter kept `f` and `k` is its value; no bucket is empty |
| RatioFilter.SelectedSize | lib/ratio_filter.rb:36-37 | the buckets hold as many fragments as were not discarded |
| RatioFilter.NoFilterDiscardsNothing | lib/ratio_filter.rb:32-33 | without `only_frag_with_vars`, nothing is discarded |
| RatioFilter.DiscardBound | lib/ratio_filter.rb:37 | the reported discard count never exceeds the number of fragments |
| RatioFiltering.GetRatios | lib/ratio_filtering.rb:6-12 | the `:ratio` of each listed fragment, in list order |
| RatioFiltering.RatioPairs | lib/ratio_filtering.rb:16-17 | one (fragment, ratio) pair per fragment, in key order |
| RatioFiltering.RatioHash | lib/ratio_filtering.rb:14-26 | the loop returns `safe_invert` of the (fragment, ratio) pairs |
| RatioFiltering.RatioHashBuckets | lib/ratio_filtering.rb:14-26 | every fragment sits in the bucket of its own ratio and no other; no bucket is empty; buckets come in first-occurrence order |
| RatioFiltering.MaxRatioIs | lib/ratio_filtering.rb:34 | the largest ratio bounds every fragment's ratio and is held by some fragment |
| RatioFiltering.DeletePass | lib/ratio_filtering.rb:41-45 | the deletion loop removes exactly the fragments whose ratio is at or below the cut, in place, leaving the others' records and order unchanged |
| RatioFiltering.SelectedRatios | lib/ratio_filtering.rb:28-57 | a non-positive threshold buckets all fragments; otherwise one pass deletes at or below the cut, and the result is the buckets once at least one fragment in thirty-one has been discarded (remaining at most 30 times the number discarded), else `Diverges` |
| RatioFiltering.PassTwice | lib/ratio_filtering.rb:38-51 | a second pass with the same cut deletes nothing, so a loop that does not exit after its first pass never exits |
| RatioFiltering.PassKeeps | lib/ratio_filtering.rb:41-45 | a pass keeps exactly the fragments above the cut, with their records unchanged |
| RatioFiltering.PassKeepsMaximum | lib/ratio_filtering.rb:32-45 | below a threshold of 100 percent, fragments holding a positive maximum ratio always survive |
| RatioFiltering.ImportantPos | lib/ratio_filtering.rb:59-70 | `pos` keeps exactly the listed fragments, in order, and the answer is their positions concatenated |
| RatioFiltering.ImportantPositions | lib/ratio_filtering.rb:59-70 | a position is answered exactly when a listed fragment holds it |
| RatioFiltering.Tagged | lib/ratio_filtering.rb:88-93 | every position of one fragment is paired with that fragment's ratio |
| RatioFiltering.TaggedSnoc | lib/ratio_filtering.rb:88-93 | one more position stored pairs it with the fragment's ratio |
| RatioFiltering.PosPairsSnoc | lib/ratio_filtering.rb:87-94 | one more fragment stores its tagged positions after the earlier ones |
| RatioFiltering.PosPairsFirsts | lib/ratio_filtering.rb:87-94 | the positions stored are the kept fragments' positions, concatenated in order |
| RatioFiltering.CsvPosRatio | lib/ratio_filtering.rb:75-96 | `pos` loses, in place, the fragments without a ratio; the answer maps each remaining position to its fragment's ratio, a later store overwriting an earlier one |
| RatioFiltering.StorePositions | lib/ratio_filtering.rb:87-94 | the store loop builds the hash of all (position, ratio) stores in order |
| RatioFiltering.StoreFragment | lib/ratio_filtering.rb:88-93 | the inner loop stores every position of one fragment with that fragment's ratio, after the stores before it |
| RatioFiltering.StoreTaggedStep | lib/ratio_filtering.rb:89-92 | one position stored with the ratio extends the stores made so far by exactly that store |
| RatioFiltering.CsvPositions | lib/ratio_filtering.rb:75-96 | a position is mapped exactly when a kept fragment holds it |
| RatioFiltering.CsvLaterWins | lib/ratio_filtering.rb:91 | a position held by several fragments carries the ratio of the last of them |
| SDM.Densities | lib/SDM.rb:10-14 | one (fragment, SNPs per base pair) pair per fragment of the count hash, in key order |
| SDM.NormaliseByLength | lib/SDM.rb:8-17 | the fragments are bucketed by SNP density: `safe_invert` of the density hash |
| SDM.DensitiesAre | lib/SDM.rb:10-14 | the density hash built by the loop, read back in key order, is the list of densities |
| SDM.NormaliseBuckets | lib/SDM.rb:8-17 | each fragment sits in the bucket of its own density and no other; no bucket is empty |
| SDM.Divide | lib/SDM.rb:21-24 | a call deletes every occurrence of the minimum key from the pending keys |
| SDM.DivideArray | lib/SDM.rb:19-56 | the method deals the minimum bucket as `Divide` says: an even bucket halved (first half right); an odd bucket of three or more with its first fragment set aside right; a single fragment to the side `dest` names |
| SDM.StepsUnfold | lib/SDM.rb:65-68 | the call after the first `n` is applied to the state after them |
| SDM.StepsPass | lib/SDM.rb:65-68 | one pass of `sorting` is a call with `dest` 0 followed by one with `dest` 1 |
| SDM.DropMin | lib/SDM.rb:21-24 | deleting the minimum of distinct keys removes one key, the smallest |
| SDM.DropMinsLength | lib/SDM.rb:65-68 | after `n` deletions, `n` fewer distinct keys are left |
| SDM.DropMinsOrder | lib/SDM.rb:65-68 | the keys left are original keys, each larger than every key deleted |
| SDM.StepsKeys | lib/SDM.rb:65-68 | after `n` calls the minimum has been deleted `n` times, whatever the buckets hold |
| SDM.PlacedAppend | lib/SDM.rb:35-36 | appending chunks to the sides adds exactly their fragments |
| SDM.PlacedHalves | lib/SDM.rb:34-36 | the halves of an even bucket go one to each side |
| SDM.PlacedHalvesAside | lib/SDM.rb:41-45 | the halves of the rest go one to each side, and the set-aside fragment follows them on the right |
| SDM.DealEven | lib/SDM.rb:33-36 | an even bucket is placed whole |
| SDM.DealOdd | lib/SDM.rb:40-45 | an odd bucket of three or more is placed whole |
| SDM.DealOne | lib/SDM.rb:47-52 | a single fragment is placed when `dest` is 0 or 1 |
| SDM.DealConserves | lib/SDM.rb:33-54 | with `dest` 0 or 1, every fragment of the bucket is placed and nothing else |
| SDM.DivideConserves | lib/SDM.rb:19-56 | with `dest` 0 or 1, a call places every fragment of the minimum bucket and nothing else |
| SDM.DivideStep | lib/SDM.rb:19-56 | one call moves the minimum bucket from the pending keys onto the sides |
| SDM.FlatReverse | lib/SDM.rb:80-81 | flattening a reversed list of chunks keeps the same fragments |
| SDM.PermPlaced | lib/SDM.rb:80-81 | `perm` holds exactly the fragments placed on either side |
| SDM.Passes | lib/SDM.rb:63-68 | `keys.length / 2` passes of two calls; every fragment is placed or still in the bucket of a key left over |
| SDM.Sorting | lib/SDM.rb:62-119 | `perm` is the right side then the reversed left side, flattened; `mut` is the window around the seam; `perm` misses exactly the bucket of a key left over |
| SDM.SeamInPerm | lib/SDM.rb:80-117 | the chunks next to the seam form a contiguous stretch of `perm` |
| SDM.WindowInPerm | lib/SDM.rb:85-117 | `mut` is a contiguous stretch of `perm` for every cross and contig size |
| SDM.WindowWhole | lib/SDM.rb:92-107 | with a small average contig and a back or out cross, a side too short for the cut makes `mut` all of `perm` |
| SDM.SortingLeavesLargest | lib/SDM.rb:65 | with an odd number of keys, the one key left over is the largest, so its bucket never reaches `perm` |
| SDM.DropMinsLast | lib/SDM.rb:65-68 | deleting the minimum `n - 1` times from `n` distinct keys leaves the largest |
| SDM.SortingOneKeyEmpty | lib/SDM.rb:65 | a single key with a non-empty bucket gives an empty `perm` |
| SDM.SortingFixed | lib/SDM.rb:62-119 | with one call per key, `perm` holds every bucketed fragment exactly as often as the buckets do |
| SDM.FinalFixedIs | lib/SDM.rb:65-68 | the corrected passes differ from the written ones only by a last call for an odd key count |
| SDM.CandidatesValid | lib/SDM.rb:134-138 | the candidate hash is well-formed: distinct candidates, each with its positions |
| SDM.CandidatesSnoc | lib/SDM.rb:134-138 | one pass of `mut.each` stores a candidate that has positions and skips one that has none |
| SDM.OrPos | lib/SDM.rb:134-138 | the loop builds the candidates with positions, in `mut` order, each with its own positions |
| SDM.CallingSdm | lib/SDM.rb:125-145 | both sortings are done, `mut` is the merged windows without duplicates, `or_pos` their positions, `hyp` the sorted and flattened position lists |
| SDM.HypNone | lib/SDM.rb:143 | `hyp` is `nil` exactly when no candidate has positions |
| SDM.HypPositions | lib/SDM.rb:143 | otherwise `hyp` holds every position of every candidate, as often as it occurs |
| SDM.HypSorted | lib/SDM.rb:143 | any ascending arrangement of the position arrays, flattened, is `hyp` |
| SdmExamples.SplitExample | Test/unit_tests_SDM.rb:12-18 | the first call on the test fixture sets `d` aside after the halves `e f g` and `h i j` and deletes the lowest key |
| SdmExamples.SecondCall | lib/SDM.rb:47-52 | the second call (`dest` 1) puts the single fragment `c` on the left |
| SdmExamples.ThirdCall | lib/SDM.rb:47-52 | the third call (`dest` 0) puts `a` on the right |
| SdmExamples.FourthCall | lib/SDM.rb:47-52 | the fourth call (`dest` 1) puts `b` on the left |
| SdmExamples.FinalExample | lib/SDM.rb:65-68 | the two passes on the fixture end in the four calls above |
| SdmExamples.PermExample | lib/SDM.rb:80-81 | the fixture's `perm` is `e f g d a b c h i j` |
| SdmExamples.SortingExample | Test/unit_tests_SDM.rb:20-24 | `sorting` on the fixture with a back cross and contig size 2500: `perm` and `mut` are both `e f g d a b c h i j` |
| SdmExamples.SelectExample | Test/unit_tests_SDM.rb:9 | of the fixture's fragments, `g h i j` have no positions |
| SdmExamples.SelectFirstSix | Test/unit_tests_SDM.rb:9 | the candidates with positions are `e f d a b c`, in `mut` order |
| SdmExamples.CandidatesExample | lib/SDM.rb:134-138 | `or_pos` on the fixture holds the six candidates with their positions |
| SdmExamples.OrPosValidExample | lib/SDM.rb:134-138 | the fixture's `or_pos` is a well-formed hash |
| SdmExamples.ValuesExample | lib/SDM.rb:143 | `or_pos.values` lists the position arrays in `mut` order |
| SdmExamples.SortExample | lib/SDM.rb:143 | `sort` orders the position arrays lexicographically |
| SdmExamples.FlattenExample | lib/SDM.rb:143 | flattening the sorted arrays gives `[1, 2, 3, 4, 5, 6, 7, 10]` |
| SdmExamples.HypExample | Test/unit_tests_SDM.rb:26-31 | `calling_SDM` on the fixture gives `hyp = [1, 2, 3, 4, 5, 6, 7, 10]`, as the test expects |
| Pileup.ReadBaseHash | lib/pileup.rb:23-39 | the count hash is empty exactly when the read bases hold an indel marker |
| Pileup.ReadBaseHashCounts | lib/pileup.rb:33-36 | without an indel, each of A, C, G and T is stored with the count of its upper- and lower-case letter |
| Pileup.ReadBaseHashSum | lib/pileup.rb:33-36 | without an indel, the four counts add up to the number of base letters |
| Pileup.IndelLength | lib/pileup.rb:15 | a piece has a length exactly when it starts with a number followed by a base letter |
| Pileup.SumIndelsRaises | lib/pileup.rb:14-17 | the sum raises exactly when some piece does not start with a number followed by a base |
| Pileup.SumIndelsStop | lib/pileup.rb:15 | the first malformed piece raises the `nil` error |
| Pileup.SumIndelsMessage | lib/pileup.rb:15 | every failure is the `[]` on `nil` error |
| Pileup.CountIndels | lib/pileup.rb:11-19 | the caller's array loses its first piece (`shift`), and the answer is the sum of the indel lengths of the rest, or the error |
| Pileup.NonRefWithoutIndel | lib/pileup.rb:43-59 | without an indel, every base letter counts as non-reference, and the ratio is letters over reference marks plus letters |
| Pileup.NonRefWithIndel | lib/pileup.rb:48-56 | with an indel, the non-reference count is letters plus markers minus the indel lengths, and it fails exactly when the indel sum does |
| Pileup.IndelFitsCount | lib/pileup.rb:15 | a piece that lists its bases has at least as many letters as its length says |
| Pileup.SumIndelsBound | lib/pileup.rb:11-19 | for well-formed pieces the sum succeeds and is at most the number of base letters in them |
| Pileup.NonRefNonNegative | lib/pileup.rb:48-56 | for well-formed indel pieces the non-reference count is never negative |
| Pileup.NonRefRatioBounds | lib/pileup.rb:57 | for well-formed indel pieces the ratio, when defined, lies in `[0, 1]` |
| Pileup.FractionsValid | lib/compare_pileup.rb:156-161 | the fraction hash built over distinct keys is well-formed |
| Pileup.FractionsSnoc | lib/compare_pileup.rb:156-161 | one more key of the loop is stored exactly when it is not skipped and its share is above the noise |
| Pileup.FractionsEnds | lib/compare_pileup.rb:152-162 | the loop starts from the empty hash and ends with the fractions of all keys |
| Pileup.FractionsMember | lib/compare_pileup.rb:156-161 | a key is kept exactly when it is not the skipped key and its share is above the noise, with that share |
| Pileup.SplitExample | lib/pileup.rb:50 | `".,+2ag".split('+')` is `[".,", "2ag"]` |
| Pileup.CountExample | lib/pileup.rb:45-49 | in `".,+2ag"` there are two letters, one `+` and two reference marks |
| Pileup.IndelExample | lib/pileup.rb:15 | the piece `"2ag"` has indel length 2 |
| Pileup.InsertionExample | lib/pileup.rb:43-59 | `".,+2ag"` has non-reference ratio `1/3` |
| PileupCompare.GetVarBaseFrac | lib/compare_pileup.rb:151-163 | below `min_depth` the result is empty; otherwise it holds each key but `:cov` whose share of `:cov` is above the noise, with that share |
| PileupCompare.VarBaseFracMember | lib/compare_pileup.rb:151-163 | the same as an if-and-only-if for any key, `:ref` included |
| PileupCompare.VarBaseFracOrder | lib/compare_pileup.rb:156-161 | the fractions keep the order of the count hash |
| PileupCompare.PushBaseHash | lib/compare_pileup.rb:284-312 | `:ref` is deleted from the caller's hash, and the store gets the verdict's entry or stays as it was; a raising verdict is passed on |
| PileupCompare.VerdictStoresMaximum | lib/compare_pileup.rb:289-309 | nothing is stored for no bases; a stored fraction is the variant's largest, filed under its own mode |
| PileupCompare.VerdictOneBase | lib/compare_pileup.rb:299-309 | with one base, nothing is stored exactly when the background has that base in the same mode; otherwise its fraction is stored, even under the `''` mode |
| PileupCompare.VerdictSeveralBases | lib/compare_pileup.rb:292-298 | with several bases the call raises exactly when the background has no fraction; otherwise nothing is stored exactly when both largest fractions have the same mode |
| PileupCompare.StoredAtMostOne | lib/compare_pileup.rb:298-308 | a push changes at most one entry of the store, for the variant's own fragment and position |
| PileupCompare.WrapperToPushBaseHash | lib/compare_pileup.rb:274-282 | the background's fractions are passed exactly when the background has counts at this fragment and position |
| Polyploid.GetBaseFreq | lib/poly_vcf.rb:33-45 | the loop returns the specified fractions: an error for no counts, empty below `depth`, otherwise the shares above noise of every key but `:ref` |
| Polyploid.BaseFreqMember | lib/poly_vcf.rb:33-45 | it raises exactly for an empty count hash; a key is kept exactly when it is not `:ref` and its share of the total is above the noise, with that share |
| Polyploid.BaseFreqTotal | lib/poly_vcf.rb:33-45 | the fractions are well-formed and add up to at most 1 |
| Polyploid.FractionsTotal | lib/poly_vcf.rb:38-43 | the kept fractions add up to at most the counted share of the coverage |
| Polyploid.PushBaseHashCases | lib/poly_vcf.rb:60-83 | several bases store nothing; one base is pushed with its mode unless the background has it in the same mode |
| Polyploid.EmptyBasesRaise | lib/poly_vcf.rb:66-68 | the call raises exactly when the fraction hash is empty |
| Polyploid.LowCoverageRaises | lib/poly_vcf.rb:36-68 | a count below `depth` gives `{}` from `get_base_freq`, and `push_base_hash` on `{}` raises |
| Polyploid.PushBaseHashFixedSound | lib/poly_vcf.rb:60-83 | the corrected push agrees with the source whenever the source does not raise, appends at most one entry for the variant's own fragment and position, and appends nothing for no bases |
| Vcf.Typed | lib/vcf.rb:27-34 | the `x`-th flag is paired with the `x`-th position, whichever record it comes from |
| Vcf.TypedSnoc | lib/vcf.rb:29-32 | one more flag pairs its field name with the next position |
| Vcf.FlagStored | lib/vcf.rb:29-32 | a flag stores its field name under the next position |
| Vcf.FlagStep | lib/vcf.rb:29-32 | a field valued `'1'` is stored under the next position and advances it |
| Vcf.OtherFieldStep | lib/vcf.rb:29 | a field with any other value is passed over and leaves the position where it is |
| Vcf.StoreFlags | lib/vcf.rb:28-33 | the inner loop stores the flags of one record, each under the next position |
| Vcf.SplitByType | lib/vcf.rb:35-43 | `hm` and `ht` are the positions stored as `HOM` and `HET`, in hash order |
| Vcf.TypePerPos | lib/vcf.rb:24-45 | every flag of every record stores its field name under the next position; then the `HOM` and `HET` lists |
| Vcf.SnpsStored | lib/vcf.rb:27-34 | the `x`-th flag's field name is stored under `vcfs_pos[x]` unless a later flag overwrites that position |
| Vcf.SnpsKeys | lib/vcf.rb:27-34 | a position is stored exactly when some flag takes it; flags beyond the positions land under `nil` |
| Vcf.ZygosityLists | lib/vcf.rb:35-43 | each `HOM` or `HET` position is listed once, in hash order, and no position is in both lists |
| Vcf.LinePosField | lib/vcf.rb:58 | a record whose second tab field is the number `n` is read back as `n` |
| Vcf.DropStep | lib/vcf.rb:50-55 | one parent position is deleted from both the mutant's hash and list when the mutant has it; otherwise nothing changes |
| Vcf.DropEnds | lib/vcf.rb:50-55 | before the loop nothing is deleted; after it, every shared position is |
| Vcf.DropShared | lib/vcf.rb:50-55 | the deletion loop leaves the mutant's hash and list without any position the parent shares |
| Vcf.Filtering | lib/vcf.rb:47-62 | the caller's hash and list lose the shared positions, and the records whose position is still listed are kept in file order |
| Vcf.FilteringKeeps | lib/vcf.rb:47-62 | the mutant keeps exactly its unshared positions with their types; a listed position is never shared; a record is kept exactly when its position is listed |
| Vcf.TestInfoOnes | Test/unit_tests_VCF.rb:10 | of the test INFO column only `HET` is flagged |
| Vcf.TypePerPosExample | Test/unit_tests_VCF.rb:69-74 | the test records give `{5 => HET, 123 => HET}` |
| Vcf.ZygosityListsExample | Test/unit_tests_VCF.rb:69-74 | `hm` is empty and `ht` is `[5, 123]` |
| Vcf.ChildOnlyExample | Test/unit_tests_VCF.rb:76-80 | the shared position 5 leaves the mutant's hash |
| Vcf.KeptPositionsExample | Test/unit_tests_VCF.rb:76-80 | the shared position 5 leaves the mutant's list |
| Vcf.DecimalExample | Test/unit_tests_VCF.rb:13-14 | the positions of the two test records are read back from their second fields |
| Vcf.ShortLinesExample | Test/unit_tests_VCF.rb:76-80 | of the records at 5 and 123, only the one at 123 is kept |
| SnpDist.Multiples | lib/snp_dist.rb:9-17 | one position per fragment |
| SnpDist.GeneralPositions | lib/snp_dist.rb:9-17 | one position per ratio, the `i`-th (from 1) being `i` times the contig size |
| SnpDist.MultiplesIncrease | lib/snp_dist.rb:9-17 | for a positive size the positions are positive and strictly increase |
| SnpDist.DensitiesPos | lib/snp_dist.rb:22-32 | the loop lists each fragment's position `trunc(10 * density)` times, in order |
| SnpDist.ExpandSnoc | lib/snp_dist.rb:25-30 | one density appends its block after the earlier ones |
| SnpDist.ExpandLength | lib/snp_dist.rb:26 | the list holds `trunc(10 * density)` entries per density, none for a density below a tenth |
| SnpDist.ExpandMember | lib/snp_dist.rb:22-32 | with a position per density no entry is `nil`, and a position appears exactly when its density reaches a tenth |
| SnpDist.ExpandSorted | lib/snp_dist.rb:22-32 | over increasing positions the list is sorted and bounded by the last fragment's position |
| SnpDist.DensitiesPosExampleStart | Test/unit_tests_snp_dist.rb:17-21 | the first four densities expand to `10, 20, 30, 30` and five `40`s |
| SnpDist.DensitiesPosExample | Test/unit_tests_snp_dist.rb:17-21 | the test densities expand to the 22 positions the test expects |
| Mutation.PutativeDensity | lib/mutation.rb:12-19 | the loop returns the putative density: an error for a negative count, `nil` for no ratios, else the flattened blocks |
| Mutation.DensityStep | lib/mutation.rb:14-17 | one ratio appends `trunc(10 * ratio)` copies of `i` times the mean |
| Mutation.FlattenStep | lib/mutation.rb:16-18 | the flattened blocks so far, followed by the next, give the density of one more ratio |
| Mutation.PutativeCases | lib/mutation.rb:12-19 | a negative count raises; no ratios give `nil`; otherwise the density, with one entry per tenth of each ratio |
| Mutation.DensityLength | lib/mutation.rb:16 | the density has `trunc(10 * ratio)` entries per ratio |
| Mutation.DensitySorted | lib/mutation.rb:12-19 | for a non-negative mean the density never decreases and stays within the last fragment's end |
| Mutation.DensityMatchesSnpDist | lib/mutation.rb:12-19 | `putative_density` lists what `SNPdist.densities_pos` lists over the multiples of the mean |
| Mutation.DensityMatchesGeneralPositions | lib/snp_dist.rb:9-17 | `SNPdist.general_positions` of the mean gives exactly those multiples |
| Mutation.GetCandidates | lib/mutation.rb:42-50 | the loop returns the fragments of `frags` that have variant positions, once each in first-occurrence order, each with its own list |
| Mutation.CandidateStep | lib/mutation.rb:44-48 | one fragment is stored when it has positions and passed over otherwise |
| Mutation.CandidateFragsMember | lib/mutation.rb:42-50 | a fragment is a candidate exactly when it is in `frags` and has positions, with its own list, in `frags` order |
| Mutation.CandidateFragsMatchSdm | lib/SDM.rb:134-138 | for duplicate-free fragments this is the candidate hash `calling_SDM` builds |
| Text.Split | lib/pileup.rb:50 | `s.split(c)` is a prefix of the pieces between separators |
| Text.DropTrailingEmpty | lib/pileup.rb:50 | only empty pieces are dropped, all of them from the end, and the last piece kept is non-empty |
| Text.JoinPieces | lib/pileup.rb:50 | joining the pieces with the separator gives back the string |
| Text.CountPositive | lib/pileup.rb:28-31 | `s =~ /c/` holds exactly when the count of `c` is positive |
| Text.CountSplit | lib/pileup.rb:50 | splitting drops no character other than separators |
| Text.ToIDecimal | lib/vcf.rb:58 | `n.to_s.to_i == n` for every natural number |

## Left out

- `BamCompare`, `PileupCompare.compare_bulk_pileups`, `filter_vars` and `vars_in_pileup` (lib/compare_pileup.rb), `Polyploid.filter_vars` (lib/poly_vcf.rb), `Pileup.pick_frag_vars` and `get_pileup` (lib/pileup.rb), `Vcf.open_vcf` (lib/vcf.rb): they read BAM, pileup and VCF files through bio-samtools. The model takes their results (count hashes, INFO hashes, positions, record lines) as inputs.
- The `read_bases` attribute of a pileup object is passed as a string.
- `@defaults` in lib/compare_pileup.rb is passed as a `Settings` value. Only the four entries the classification reads are modelled.
- `Mutation.closest_snp` (lib/mutation.rb:25-38) is left out because it calls R. So are `find_peak`, `adjusted_positions` and `density_plots`, which only feed plots.
- `SNPdist.hyp_snps` (lib/snp_dist.rb:34-47) is left out because it draws random numbers.
- The polyploid branch of `varpos_aggregate` (lib/fragments.rb:54-67) and `geom_mean` (lib/fragments.rb:73-79) are left out. `geom_mean` works through floating-point `log` and `exp`. Records carry `bfr` as the `''` placeholder (`None`), so `RatioFilter.FilterHash` under `:bfr_rat` with `only_frag_with_vars` raises on them, as the source does.
- Fragments.VarposAggregate: the auto-vivifying nested hash is modelled as one record per fragment. Keys the loop never writes do not exist.
- Ruby floats are modelled as exact reals. Rounding is not modelled. `to_i` on a float is truncation toward zero (`Trunc`).
- A division by zero gives a float infinity or NaN in Ruby.
  - `NormaliseByLength` excludes fragments of length 0 (and fragments without a length).
  - `Selection.Cutoff` is `None` for `adjust` 0.
  - `Pileup.NonRefRatio` is `None` for a zero denominator.
  - Fragments.FragDetail and Fragments.VarposAggregate require `ratio_adjust > 0`, the only factors the usage text documents. With `ratio_adjust` 0, lib/fragments.rb:47 divides by zero for a fragment with homozygous variants only, and that infinite ratio is not modelled.
- PileupCompare.GetVarBaseFrac requires `:cov` in the count hash and `min_depth > 0`. Without `:cov` the source compares `nil` and raises; that case is not modelled.
- Polyploid.GetBaseFreq requires `depth > 0`.
- PileupCompare.WrapperToPushBaseHash: a fragment missing from the background hash is treated like a missing position. The source evaluates `bg_pileup_hash[frag].key?(pos)`, which needs the background hash to auto-vivify (its callers build it that way).
- `Vcf.push_to_hash` (lib/poly_vcf.rb:69) is not part of this model. Its stores are recorded as a list of `Push(frag, pos, mode)` entries. Likewise `store_hash[mode][frag][pos]` in lib/compare_pileup.rb is a map keyed by `Site(mode, frag, pos)`.
- Text.ToI: `String#to_i` skipping leading whitespace and underscores between digits is not modelled. The strings it reads here are tab-separated numeric fields.
- `warn` and `puts` output is left out (lib/ratio_filter.rb:36-40, lib/ratio_filtering.rb:37,46, lib/poly_vcf.rb:63).
- `calling_SDM`'s `number_of_snps` is computed and never used, so it is left out. `divide_array`'s `cross` parameter is unused.
- SDM.DivideArray requires a non-empty key list, as `sorting` always provides. An empty minimum bucket makes `each_slice(0)` raise; the buckets `safe_invert` builds are never empty, so that case is not modelled.
- `Vcf.filtering`'s `flatten!` on the position list is a no-op, because the list is already flat.
- Vcf.TypePerPosExample and the other VCF examples use INFO columns and record lines of the same shape as the test's, not the full 14-field FORMAT column.
- RatioFiltering.SelectedRatios returns `Diverges` where the source loops forever.

## Findings

| source | as written | input that shows it | evidently intended | confidence | as-written member | corrected member |
|---|---|---|---|---|---|---|
| lib/fragments.rb:148 | `(right.flatten!).reverse!` — `flatten!` answers `nil` when `right` holds no nested group, and `reverse!` then raises | a ratio hash with one bucket holding one fragment (`{1.0 => ['a']}`): `a` goes left, `right` stays `[]` | flatten `right` (as `left`) and reverse it behind `left`, so the call returns every fragment | high (not executed) | Arrangement.SingletonRaises | Arrangement.ArrangeFixedConserves |
| lib/SDM.rb:65 | `(keys.length/2).times` with two `divide_array` calls per pass: for an odd number of keys the last key is never dealt | a hash with one key, `{0.5 => ['a']}`: `perm` is empty | one call per key, so `perm` holds every bucketed fragment | high (not executed) | SDM.SortingLeavesLargest | SDM.SortingFixed |
| lib/poly_vcf.rb:60-68 | `push_base_hash` reads `base_hash.keys[0]` of an empty hash and calls `between?` on `nil` | counts `{A: 3}` with depth 6: `get_base_freq` answers `{}` and `push_base_hash({}, …)` raises | an empty fraction hash stores nothing, as `compare_pileup.rb`'s version does at line 289 | high (not executed) | Polyploid.LowCoverageRaises | Polyploid.PushBaseHashFixedSound |
