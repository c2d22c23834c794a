# Weight banks, canary arithmetic, converter survey and hot loops

A model of the decision-making code in the design and CI scripts, with proofs of what the scripts
claim or spot-check at a few values. Everything is for all inputs: any reference stream, any list of
layers, any tile, bank count and batch, any table of parts, any kernel body.

* `Schedules`, `BankLists`, `Policies`, `Competitive`, `CompetitiveSharp`, `LruStack`,
  `FifoHistory`: the replacement policies of the
  weight banks. A demand schedule may drop sets whenever it likes, but loads what it references and
  nothing else. `Opt` is the least number of misses of any schedule. Belady's MIN attains it whichever
  farthest set it evicts, and LRU and FIFO with k banks are within k/(k-h+1) of it at h banks, with no
  additive constant; at equal banks no smaller factor than k holds, whatever is added to it.
* `TileStream`, `CyclicMisses`, `Pinning`, `PinOnCycle`, `BankFindings`: the tile's reference stream
  and the exact miss count of all four policies on it, from which every comparison the script asserts
  at a few bank counts follows as an if-and-only-if.
* `CanaryArithmetic`: rescaling, activation codes, the converter, the classifier and the three layers,
  up to the sharp margin at which the converter's rounding cannot change the class.
* `AdcSurvey`: the able parts of a table, their k-th best price, and the staircase of cheapest parts.
* `HotLoop`: the choice of a kernel's innermost float loop among its backward branches.
* `Sorting`, `Options`, `Arithmetic`: the stable sort, the optional value and two facts about products
  that the others share.

Bank ids are integers. A bank list is a `seq` the loops reassign, as the scripts do. In MIN, a set that
is never used again has the key `|refs|`, past every position, where the script has infinity; the set
with the largest key is any such set, since Python's choice among equals is the set's iteration order.
MIN's failure with no bank at all (`max` of an empty set) is a missing result. Rates and energies are
exact reals with the script's own tolerances.

Where the code and its words disagree, the model follows the code:

* MIN's docstring calls it the bound any policy is measured against. Pinning with parameter W has a
  victim bank besides its W pinned ones, so it is a W+1-bank policy and can beat MIN at the same W
  (`PinBelowMin`). `MinBoundsPinIff` says exactly when MIN at W still is a bound. At the script's own
  batch of 8 and thresholds of 26 sets and more it is.
* The test at line 167 of the policy script reads like a bypass but never fails (`FarthestIsOptimal`).
* Pinning is said to be bit-identical to LRU below the smallest layer's size. That fails for a period of
  one set, which the victim bank holds; `PinThreshold` has the exact statement.
* The staircase's docstring promises the cheapest part for every rate up to a step's own. The next
  lookup starts a millionth above a step's rate. In between, the step's own part is still able within the
  tolerance of a billionth, so wherever the energy rises the next step's part is not the cheapest there
  (`PreviousStillAble`). A cheaper part can also be stepped over (`StairSkips`). Counting only parts
  whose own rate reaches the rate asked for, `StaircaseCoversIff` says exactly when the promise holds
  over the whole range, and `StaircaseCovers` that it does for a table whose parts are spaced.
  `StairInGapIff` is the statement for one step with the tolerance counted in.
* `hot_loop` says its fallback is for kernels with no float work anywhere. It is taken whenever no
  innermost loop has any, also if an outer one does (`OuterFloatIsNotSeen`).
* One converter step is 512 units of score, but 497 is enough of a lead, and no less is
  (`LeadThreshold`).

## Model

| member | source | states |
|---|---|---|
| `Schedules.OptSpec` | docs/designs/pta_bank_policy.py:110-112 | Opt is attained by some demand schedule and no schedule with as many banks has fewer misses |
| `Schedules.OptMoreBanks` | docs/designs/pta_bank_policy.py:144-146 | more banks never raise the fewest possible misses |
| `Schedules.OptMono` | docs/designs/pta_bank_policy.py:144-146 | holding more sets never raises the fewest misses still to come |
| `Schedules.OptDrop` | docs/designs/pta_bank_policy.py:144-146 | losing one resident set costs at most one miss |
| `Schedules.Exchange` | docs/designs/pta_bank_policy.py:145-146 | of two sets, holding the one needed sooner is never worse |
| `Schedules.OptEvict` | docs/designs/pta_bank_policy.py:162-169 | with every bank taken, evicting any set whose next use is farthest loses nothing |
| `Schedules.OptHit` | docs/designs/pta_bank_policy.py:155-156 | leaving the banks alone on a hit loses nothing |
| `Schedules.OptFill` | docs/designs/pta_bank_policy.py:158-160 | filling a free bank without evicting loses nothing |
| `Policies.MissesLru` | docs/designs/pta_bank_policy.py:114-126 | the loop computes LRU's misses, given by one step of its list |
| `Policies.MissesFifo` | docs/designs/pta_bank_policy.py:129-141 | the loop with its list and its set computes FIFO's misses |
| `Policies.MissesMin` | docs/designs/pta_bank_policy.py:144-170 | the loop returns the optimum for every stream and W >= 1, and fails exactly for W = 0 on a nonempty stream |
| `Policies.IndexUses` | docs/designs/pta_bank_policy.py:147-149 | nxt holds, for every id used, its positions in order |
| `Policies.CountUse` | docs/designs/pta_bank_policy.py:150-154 | pos always counts the uses so far, so it splits each id's positions at the current one |
| `Policies.KeyIsNextUse` | docs/designs/pta_bank_policy.py:162-164 | the key read from nxt and pos is the position of the true next use, or past the end |
| `Policies.ChooseVictim` | docs/designs/pta_bank_policy.py:166 | the victim is held and has the largest key of all held sets |
| `Policies.FarthestIsOptimal` | docs/designs/pta_bank_policy.py:166-169 | the victim's next use lies after the current position, so line 167 never fails, and evicting it keeps the optimum |
| `Policies.Admit` | docs/designs/pta_bank_policy.py:157-169 | serving a miss costs one and leaves banks from which the optimum is still reached |
| `Policies.MinBoundsLru` | docs/designs/pta_bank_policy.py:114-126 | from any bank list, LRU's misses are at least the optimum from that list |
| `Policies.MinBoundsFifo` | docs/designs/pta_bank_policy.py:129-141 | from any bank list, FIFO's misses are at least the optimum from that list |
| `Competitive.LruWithinPhases` | docs/designs/pta_bank_policy.py:114-126 | LRU with k banks misses only at the first use of an id within a phase of k distinct ids |
| `Competitive.FifoWithinPhases` | docs/designs/pta_bank_policy.py:129-141 | FIFO's misses are bounded by first-in-phase uses plus what the phase has already loaded less than it has seen |
| `Competitive.PhasesAgainstOpt` | docs/designs/pta_bank_policy.py:144-170 | for h <= k, (k-h+1) times the first-in-phase uses is at most k times the h-bank optimum plus the potential |
| `Competitive.LruCompetitive` | docs/designs/pta_bank_policy.py:114-170 | (k-h+1)*LRU(k) <= k*MIN(h) for every stream and h <= k, so MIN <= LRU <= k*MIN at equal banks |
| `Competitive.FifoCompetitive` | docs/designs/pta_bank_policy.py:129-170 | the same for FIFO |
| `CompetitiveSharp.OneSetTooMany` | docs/designs/pta_bank_policy.py:114-170 | on a cycle of W+1 sets, over W+1+q*W references, LRU and FIFO miss all of them and MIN W+1+q |
| `CompetitiveSharp.FactorIsSharp` | docs/designs/pta_bank_policy.py:114-170 | for every factor below W and every constant there is a stream on which LRU and FIFO exceed that factor times MIN plus the constant |
| `LruStack.LruIsTopOfStack` | docs/designs/pta_bank_policy.py:115-125 | after any references the W-bank list is the last W of one recency list |
| `LruStack.LruInclusion` | docs/designs/pta_bank_policy.py:115-125 | the W-bank list is a suffix of the V-bank list for every V >= W |
| `LruStack.LruHitIff` | docs/designs/pta_bank_policy.py:118 | an id is resident iff it was used before and fewer than W distinct ids were used since |
| `LruStack.LruMissesExact` | docs/designs/pta_bank_policy.py:114-126 | LRU's misses are the first uses and the reuses at stack distance W or more |
| `LruStack.LruMoreBanks` | docs/designs/pta_bank_policy.py:114-126 | LRU's misses never rise with the number of banks |
| `FifoHistory.FifoHoldsLastLoads` | docs/designs/pta_bank_policy.py:129-141 | after any references FIFO holds the last W sets it loaded, hits change nothing, and the misses are the references not among the last W loads |
| `TileStream.CeilDiv` | docs/designs/pta_bank_policy.py:61-62 | the least integer whose multiple reaches a, for every a and positive b |
| `TileStream.LayerSetsAreTiles` | docs/designs/pta_bank_policy.py:65-67 | a layer's sets are as many as the R x C tiles its kin x nout weights fall in, partial tiles included |
| `TileStream.FixedNetwork` | docs/designs/pta_bank_policy.py:379-380 | the fixed network has 1274 and 26 sets at the 8 x 8 tile, a period of 1300 |
| `TileStream.Bases` | docs/designs/pta_bank_policy.py:78-82 | each layer's base is the number of sets of the layers before it |
| `TileStream.EmitLayer` | docs/designs/pta_bank_policy.py:85-87 | a layer's two loops emit its ids consecutively from its base |
| `TileStream.Stream` | docs/designs/pta_bank_policy.py:70-88 | the four nested loops emit exactly batch turns of 0, 1, ..., P-1 |
| `TileStream.StreamBatched` | docs/designs/pta_bank_policy.py:91-107 | the batched order is 0, 1, ..., P-1 once |
| `CyclicMisses.EveryIdIsLoaded` | docs/designs/pta_bank_policy.py:386-388 | any schedule misses at least once for every id not resident at the start |
| `CyclicMisses.EnoughBanks` | docs/designs/pta_bank_policy.py:386-388 | once the banks reach the number of distinct ids, LRU, FIFO and MIN all miss exactly that often |
| `CyclicMisses.CyclicThrash` | docs/designs/pta_bank_policy.py:367-369 | on a cycle, LRU and FIFO miss every reference below the period |
| `CyclicMisses.CyclicLower` | docs/designs/pta_bank_policy.py:144-170 | no schedule has more than W-1 hits in any P-1 references after the first turn |
| `CyclicMisses.CyclicUpper` | docs/designs/pta_bank_policy.py:144-170 | keeping the next W-1 ids attains that many |
| `CyclicMisses.HitsClosedForm` | docs/designs/pta_bank_policy.py:371-374 | those hits as a quotient and remainder by P-1 |
| `CyclicMisses.MinOnCycle` | docs/designs/pta_bank_policy.py:144-170 | MIN's misses over any length of a cycle, exactly |
| `CyclicMisses.MinOnTurns` | docs/designs/pta_bank_policy.py:371-374 | MIN's misses over batch turns, exactly |
| `Pinning.PinnedLayersSpec` | docs/designs/pta_bank_policy.py:180-192 | the pinned layers fit in W, no further layer fits, and with a layer every (size, index) smaller one is pinned |
| `Pinning.SmallestFirstUnique` | docs/designs/pta_bank_policy.py:180-192 | only one choice of layers is like that |
| `Pinning.SetsOfFacts` | docs/designs/pta_bank_policy.py:183-192 | the pinned ids are as many as the layers' sizes together and lie among the P ids |
| `Pinning.ChoosePinned` | docs/designs/pta_bank_policy.py:180-192 | the sort and the budget loop compute the pinned ids |
| `Pinning.MissesPinSmallest` | docs/designs/pta_bank_policy.py:173-209 | the loop computes pinning's misses |
| `Pinning.PinIsSchedule` | docs/designs/pta_bank_policy.py:193-208 | pinning at most W sets is a demand schedule over W+1 banks, from any state |
| `Pinning.MinBoundsPin` | docs/designs/pta_bank_policy.py:144-209 | MIN with W+1 banks never misses more than pinning with parameter W |
| `PinOnCycle.VictimRepeats` | docs/designs/pta_bank_policy.py:205-208 | on a cycle the victim bank is hit only if a single set is left unpinned |
| `PinOnCycle.PinClosedForm` | docs/designs/pta_bank_policy.py:173-209 | with p of P sets pinned and not exactly one left, batch*P - (batch-1)*p misses |
| `PinOnCycle.PinOneLeft` | docs/designs/pta_bank_policy.py:205-208 | with exactly one set left, P misses whatever the batch |
| `BankFindings.LruFifoOnStream` | docs/designs/pta_bank_policy.py:367-369 | LRU and FIFO on the stream: batch*P below the period, P from there on |
| `BankFindings.MinBetween` | docs/designs/pta_bank_policy.py:371-374 | MIN lies between batch*P - (batch-1)*W and batch*P - (batch-1)*(W-1) |
| `BankFindings.MinBeatsLruIff` | docs/designs/pta_bank_policy.py:371-374 | MIN beats LRU iff 2 <= W < P and the batch is at least 2 |
| `BankFindings.OneForwardPass` | docs/designs/pta_bank_policy.py:357-365 | with a batch of one every policy misses exactly P times |
| `BankFindings.PinnedCount` | docs/designs/pta_bank_policy.py:188-192 | at most W sets are pinned, and all of them iff the period fits |
| `BankFindings.PinsSomethingIff` | docs/designs/pta_bank_policy.py:188-192 | something is pinned iff some nonempty layer fits in W |
| `BankFindings.PinOnStream` | docs/designs/pta_bank_policy.py:173-209 | pinning's misses on the stream in closed form, for every network and budget |
| `BankFindings.PinThreshold` | docs/designs/pta_bank_policy.py:376-384 | below the period, pinning equals LRU until some layer fits and is strictly better from there on |
| `BankFindings.MinBoundsPinIff` | docs/designs/pta_bank_policy.py:145-146 | MIN at W bounds pinning at W iff the period fits, or a budgeted bank stays unpinned, or the batch is at most W (at most one if a single set is left) |
| `BankFindings.PinBelowMin` | docs/designs/pta_bank_policy.py:145-146 | a network where pinning takes 5 misses and MIN 6 at the same W |
| `BankFindings.PolicyRow` | docs/designs/pta_bank_policy.py:229-244 | one row of the table: the stream and all four policies, every entry in closed form |
| `BankFindings.WeightCyclesSpec` | docs/designs/pta_bank_policy.py:265-266 | all misses cost the miss's price each, none the hit's, and one more miss adds the difference |
| `BankFindings.BatchingDividesIff` | docs/designs/pta_bank_policy.py:390-395 | batching divides LRU's misses by exactly the batch iff W < P, or the batch is at most one, or there are no sets |
| `BankFindings.BatchingSavesCycles` | docs/designs/pta_bank_policy.py:280-287 | batched weight cycles never exceed serial ones, and below the period are exactly 1/batch of them |
| `CanaryArithmetic.RescaleRounds` | docs/designs/pta_board_canary_golden.py:86-90 | the ReLU's value over 2^s rounded half up and held at 127, for every shift including none |
| `CanaryArithmetic.RescaleMonotone` | docs/designs/pta_board_canary_golden.py:86-90 | monotone, and in 0..127 |
| `CanaryArithmetic.ActCodeRounds` | docs/designs/pta_board_canary_golden.py:93-95 | the value over 4 rounded half up and held at 31 |
| `CanaryArithmetic.ConverterRounds` | docs/designs/pta_board_canary_golden.py:98-102 | the two floored shifts are one rounding, half up, for all S, H_A and H_W |
| `CanaryArithmetic.ConverterSpec` | docs/designs/pta_board_canary_golden.py:98-102 | the code is that rounding clamped, and held iff clamping changed it |
| `CanaryArithmetic.ConverterMonotone` | docs/designs/pta_board_canary_golden.py:98-102 | monotone, and in -128..127 |
| `CanaryArithmetic.CodeNearSum` | docs/designs/pta_board_canary_golden.py:48-50 | at the board's constants, held iff outside -4112..4079, and otherwise 32*code within (s-16, s+16] |
| `CanaryArithmetic.CodeRounds` | docs/designs/pta_board_canary_golden.py:98-102 | a code is its sum over 32 rounded half up and held at -128..127 |
| `CanaryArithmetic.Classify` | docs/designs/pta_board_canary_golden.py:109-115 | the largest score, the lowest index on a tie; fails iff there are no codes or too few biases |
| `CanaryArithmetic.ClassUnique` | docs/designs/pta_board_canary_golden.py:109-115 | that determines the class |
| `CanaryArithmetic.ClassStable` | docs/designs/pta_board_canary_golden.py:98-115 | an unheld output leading by 497 on the exact sums (496 over later ones) is the class of the codes |
| `CanaryArithmetic.LeadThreshold` | docs/designs/pta_board_canary_golden.py:98-115 | a lead of d always survives the rounding iff d >= 497 |
| `CanaryArithmetic.DotLast` | docs/designs/pta_board_canary_golden.py:105-106 | a sum of products grows by one product per pair, and what one list has beyond the other adds nothing |
| `CanaryArithmetic.PartialSumsFit` | docs/designs/pta_board_canary_golden.py:257-258 | no partial sum of one output of a hidden layer leaves int32 |
| `CanaryArithmetic.ForwardSpec` | docs/designs/pta_board_canary_golden.py:266-271 | every output of every stage from the stage before, with that stage's own weights and biases, by rounding alone |
| `CanaryArithmetic.ForwardSumsFit` | docs/designs/pta_board_canary_golden.py:257-269 | for inputs in 0..127, every partial sum of FC1 and FC2, with and without its bias, is within int32, and every one of FC3 within 63,488 |
| `CanaryArithmetic.EndToEndRanges` | docs/designs/pta_board_canary_golden.py:266-271 | every stage of every vector stays in its declared range, FC3 sums within 63,488 |
| `CanaryArithmetic.HeldCountIsNumber` | docs/designs/pta_board_canary_golden.py:272 | a vector's held count is the number of its outputs that were held |
| `CanaryArithmetic.AllCodesAt` | docs/designs/pta_board_canary_golden.py:273-281 | the codes stand vector after vector, output after output |
| `CanaryArithmetic.TotalHeldZero` | docs/designs/pta_board_canary_golden.py:272-283 | the held count is zero iff no output of any vector was held |
| `CanaryArithmetic.RunVectors` | docs/designs/pta_board_canary_golden.py:260-282 | over the acceptance and calibration vectors: every code in order, each acceptance vector's class, the exact number of held outputs, and the least and greatest acceptance code |
| `CanaryArithmetic.DeclaredClass` | docs/designs/pta_board_canary_golden.py:264-283 | with nothing held and a lead of 497, the network's class is the leader of the exact sums |
| `AdcSurvey.AbleSpec` | docs/designs/pta_adc_survey.py:363-368 | exactly the parts that qualify, as often as listed, cheapest first, ties in table order |
| `AdcSurvey.AbleIff` | docs/designs/pta_adc_survey.py:340-368 | a part is able iff its effective bits, its rate and its year suffice, in figures |
| `AdcSurvey.SampleJIsPower` | docs/designs/pta_adc_survey.py:349-351 | energy a sample times the sample rate is the power |
| `AdcSurvey.PriceRanks` | docs/designs/pta_adc_survey.py:371-375 | the first able part's energy and the fifth's, or the last one's; fails iff no part is able |
| `AdcSurvey.HarderJobCostsMore` | docs/designs/pta_adc_survey.py:714-723 | raising bits or rate never lowers the k-th cheapest energy, for every k that still exists |
| `AdcSurvey.PriceMonotone` | docs/designs/pta_adc_survey.py:371-375 | the best price never falls, nor the fifth-best while five parts, or as many as before, qualify |
| `AdcSurvey.FifthBestIff` | docs/designs/pta_adc_survey.py:371-375 | the fifth-best price does not fall iff five parts still qualify or one costing at least the old price does |
| `AdcSurvey.FifthBestCanFall` | docs/designs/pta_adc_survey.py:371-375 | a table where it falls |
| `AdcSurvey.Staircase` | docs/designs/pta_adc_survey.py:383-392 | the loop ends within the table's length, each step is the first able part at its query rate, and none is able after the last |
| `AdcSurvey.QueryRates` | docs/designs/pta_adc_survey.py:386-392 | the first lookup is at 0.1 GS/s and each later one a millionth above the rate before |
| `AdcSurvey.StairsRise` | docs/designs/pta_adc_survey.py:383-392 | step rates strictly rise and energies never fall |
| `AdcSurvey.StairIsCheapest` | docs/designs/pta_adc_survey.py:384-385 | from its query rate to its own rate a step's part is able and cheapest |
| `AdcSurvey.StairInGapIff` | docs/designs/pta_adc_survey.py:384-392 | below its query rate a step's part is cheapest iff no part fast enough for the rate asked but not for the query rate is cheaper |
| `AdcSurvey.PreviousStillAble` | docs/designs/pta_adc_survey.py:366-368 | just above a step's rate its part still qualifies, so where energies rise the next step's part is not cheapest |
| `AdcSurvey.StaircaseCoversIff` | docs/designs/pta_adc_survey.py:383-392 | at every rate the first step reaching it is able and no dearer than any part whose own rate reaches it, iff every part stepped over behind a step is made good by one the next lookup finds |
| `AdcSurvey.StaircaseCovers` | docs/designs/pta_adc_survey.py:383-392 | that promise holds from the lowest rate kept to the last step's whenever of two parts meeting the bits the faster is fast enough for the lookup past the slower |
| `AdcSurvey.StairSkips` | docs/designs/pta_adc_survey.py:392 | three parts of which the staircase steps over the middle one |
| `HotLoop.IsFloatIff` | ci/check_kernel_loops.py:178-180 | a mnemonic is float work iff it starts with f and is none of the five excluded |
| `HotLoop.StatsOne` | ci/check_kernel_loops.py:177-189 | the figures of one instruction, by its mnemonic |
| `HotLoop.StatsConcat` | ci/check_kernel_loops.py:177-189 | the figures of a stretch of code are the sums of its parts' |
| `HotLoop.LoopBodyConcat` | ci/check_kernel_loops.py:236 | a loop's body is taken piece by piece, in order |
| `HotLoop.LoopBodyOne` | ci/check_kernel_loops.py:236 | an instruction belongs to a loop iff its address lies in the span, both ends included |
| `HotLoop.ContainsIff` | ci/check_kernel_loops.py:228-230 | an edge encloses another iff both its ends do and not both coincide |
| `HotLoop.CollectBackEdges` | ci/check_kernel_loops.py:192-205 | the loop and the sort compute the back edges, shortest first |
| `HotLoop.BackEdgesIff` | ci/check_kernel_loops.py:192-205 | the list holds exactly the spans of the branches whose target lies at or above lo and below the branch |
| `HotLoop.InnermostFirst` | ci/check_kernel_loops.py:193 | no edge contains a later one |
| `HotLoop.BackEdgesSorted` | ci/check_kernel_loops.py:204-205 | spans never fall along the list |
| `HotLoop.InnermostInside` | ci/check_kernel_loops.py:228-230 | every back edge contains, or is, one that contains no other |
| `HotLoop.ShortestIsInnermost` | ci/check_kernel_loops.py:245-247 | the shortest edge contains no other |
| `HotLoop.FindHotLoop` | ci/check_kernel_loops.py:208-247 | always an innermost edge: the first with most float work and then shortest span, or the shortest edge iff no innermost one has float work |
| `HotLoop.OuterFloatIsNotSeen` | ci/check_kernel_loops.py:221-223 | a kernel with float work in its outer loop only, where the fallback is taken |
| `Sorting.SortSorted` | docs/designs/pta_adc_survey.py:366-368 | the sort's result is sorted, for any total preorder |
| `Sorting.SortMultiset` | docs/designs/pta_adc_survey.py:366-368 | the sort permutes |
| `Sorting.SortStable` | docs/designs/pta_adc_survey.py:366-368 | the sort keeps tied entries in order |

## Left out

- The cycles of a shot, the weight share and the printed tables of the policy script: products of the counts modelled here.
- The script's own tiles beyond the first and its figures at them (2.2% saved and the like): instances of the general statements.
- Negative bank counts and tile sizes of zero: no caller passes them, and a zero tile divides by zero.
- AdcSurvey.SampleJ: exact reals, not double rounding; the tolerances 1e-6 and 1e-9 are the script's own.
- The survey's other views (Walden energy, ENOB, least power as published, reading the spreadsheet): single formulas and parsing.
- HotLoop.CollectBackEdges: takes each instruction's branch target as given; the regular expressions over objdump text are not modelled.
- The canary's digests, manifest, freeze checks, file formats and double-precision pass.
- The embedded data tables of the other design scripts, the documentation, ABI and performance checks, the photonic scripts and the C++ headers: finite data, text matching and wrappers.
