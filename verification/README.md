# Double TSP with pickup, delivery and reloading depth — a Dafny model

This project models the heuristic core of `ilps_brkga_dtsppl`. That
program solves the double travelling salesman problem with pickup and
delivery on a single stack, where up to `l` items may be taken off and
put back on each visit (the reloading depth). The model covers:

- the random-key decoder that turns a chromosome into a pickup tour, a
  delivery tour and a count of relocations (`Decoder`, from
  `src/brkga.cpp`);
- the MT19937 random number generator `MTRand` (`MersenneTwister`) and
  the BRKGA population bookkeeping (`Brkga`), both from `src/brkga.h`;
- the subtour search, lazy cuts and tour post-processing around the
  exact TSP solver (`Subtour`, from `src/tsp_solver.h`);
- the Pareto archive `NonDominatedSet` (`src/non_dominated_set.h`);
- the command line of `main` and the parameters of the BRKGA run
  (`Frontend`, from `src/main.cpp`);
- instance reading (`Instance`, from `src/data.cpp`);
- the experiment launcher (`Experiments`, from `src/run_all_experiments.py`).

Shared pieces are the `Pairs` module (lexicographic order on
`pair<int,int>` and the insertion sort that stands for `std::sort`),
`Distances` (square matrices and tour lengths) and `Wrappers` (`Option`,
`Result`).

Modelling choices:

- Random keys are only compared, so the decoder takes them as integers.
- The costs `alpha` and `beta` are reals. The conversion to `int` at
  src/brkga.cpp:120 is written out as truncation toward zero.
- MT19937 works on `bv32`, so every `& 0xffffffff` of the source is the
  width of the type.
- The random generator and the decoder of the genetic algorithm are
  oracles: their draws and fitness values are parameters of
  `Brkga.Evolution`.
- The linear-program solution of the TSP solver is a matrix of reals.
  An edge is used when its value exceeds 0.5.
- File contents become parameters of `Instance.ReadData`: the points read,
  or `None` when a file cannot be opened. The rounded Euclidean metric is
  a parameter too.
- Each lazy cut is built as the source builds it: `addLazy` sits inside
  the outer loop, so cut `i` holds the edges of rows `0..i`
  (`Subtour.LazyCuts`).

`Instance.ReadData` names the delivery area the way src/data.cpp
reads it (`Instance.DeliveryAreaAsWritten`); the corrected
reading is `Instance.DeliveryArea`, and the two agree for pickup file
names holding a single run of digits (see Findings). The launcher writes the solution to
`../solutions/<approach>/<area>_<nn>_<ll>_<hh>`: the approach names the
directory only, and the file name has no `<approach>_` prefix
(`Experiments.PathRoundTrip`).

## Model

| member | source | states |
|---|---|---|
| `Pairs.Sort` | src/brkga.cpp:44-46 | the result is a permutation of the input, with the same multiset of labels |
| `Pairs.SortSorted` | src/brkga.cpp:44-46 | the result of the sort is in lexicographic order |
| `Pairs.InsertSorted` | src/brkga.cpp:44-46 | inserting into a sorted sequence keeps it sorted |
| `Distances.TourLengthReverse` | src/tsp_solver.h:199-208 | on a symmetric matrix, walking a tour backwards costs the same as walking it forwards |
| `Decoder.GroupContents` | src/brkga.cpp:23-33 | a group pairs the keys of its chromosome slice, in order, with consecutive labels starting at its first label |
| `Decoder.PickupBound` | src/brkga.cpp:28-34 | every pickup group read lies inside the first n + (pickup keys) genes |
| `Decoder.DeliveryBound` | src/brkga.cpp:36-42 | every delivery group read lies inside the chromosome |
| `Decoder.PickupGroup` | src/brkga.cpp:28-34 | pickup group k has min(k, l + 1) entries |
| `Decoder.DeliveryGroup` | src/brkga.cpp:36-42 | delivery group k has min(n - k + 1, l + 1) entries |
| `Decoder.BuildGroups` | src/brkga.cpp:20-42 | the 2n + 1 groups are read in order and together use exactly the first ChromosomeSize(n, l) genes |
| `Decoder.AddPickupGroups` | src/brkga.cpp:28-34 | the loop appends pickup groups 1..n, each equal to its slice, and the keys consumed so far are a prefix of the chromosome |
| `Decoder.AddDeliveryGroups` | src/brkga.cpp:36-42 | the loop appends delivery groups 1..n after the pickup groups, which leaves every group well formed and consumes the whole chromosome |
| `Decoder.SortedLabels` | src/brkga.cpp:44-46 | sorting a group permutes its labels |
| `Decoder.SortedGroupLabels` | src/brkga.cpp:44-56 | after sorting, group 0 lists every item 1..n once and each other group lists its positions 0..size-1 once |
| `Decoder.Relocations` | src/brkga.cpp:70-75 | the count is 0 when the sorted labels are the identity; otherwise it is the number of entries after the first misplaced one |
| `Decoder.RelocationsZeroIff` | src/brkga.cpp:70-75 | on a permutation of 0..m-1 the count is zero exactly when nothing is out of place |
| `Decoder.LastLabelForced` | src/brkga.cpp:70-75 | when all but the last label are in place the last is too, so the first mismatch never falls on the last entry |
| `Decoder.Reordered` | src/brkga.cpp:77-80 | pushing the items in reverse sorted order puts the same items back on the stack |
| `Decoder.Rearrange` | src/brkga.cpp:77-80 | the part of the stack below the popped items is untouched and the popped items all come back |
| `Decoder.PickupStep` | src/brkga.cpp:62-80 | a pickup step adds exactly the new item to the stack, leaves the untouched lower part alone and charges the relocations of its labels |
| `Decoder.DeliveryStep` | src/brkga.cpp:87-108 | a delivery step removes exactly one item from the stack, leaves the lower part alone and charges the relocations of its labels |
| `Decoder.SingleLabelSteps` | src/brkga.cpp:64-108 | with a single label (l = 0) a pickup pushes the item, a delivery pops the top and neither relocates anything |
| `Decoder.Truncate` | src/brkga.cpp:120 | the `int` conversion truncates toward zero for both signs |
| `Decoder.LoadOne` | src/brkga.cpp:62-80 | one pickup adds its item to the stack and relocates fewer items than its group holds; its stack and count are those of `Decoder.PickupStep` |
| `Decoder.LoadItems` | src/brkga.cpp:60-81 | after all pickups the stack holds exactly the picked items, with at most n * l relocations, and with l = 0 in pickup order and no relocations; the result is the fold `Decoder.Loaded` of the pickup steps |
| `Decoder.LoadedItems` | src/brkga.cpp:60-81 | after k pickup steps the stack holds the first k items picked, in some order |
| `Decoder.LoadedBound` | src/brkga.cpp:70-75 | after k pickup steps at most k * l items were relocated |
| `Decoder.LoadedInOrder` | src/brkga.cpp:60-81 | with l = 0 the k pickup steps stack the items in loading order and relocate nothing |
| `Decoder.LoadedAll` | src/brkga.cpp:60-81 | after all pickups the stack holds every item, within n * l relocations, in loading order when l = 0 |
| `Decoder.UnloadOne` | src/brkga.cpp:87-108 | one delivery hands over one item of the stack and relocates fewer items than its group holds; its rest, item and count are those of `Decoder.DeliveryStep` |
| `Decoder.UnloadItems` | src/brkga.cpp:85-109 | every loaded item is delivered exactly once, with at most n * l relocations, and with l = 0 in reverse loading order; the result is the fold `Decoder.Unloaded` of the delivery steps |
| `Decoder.UnloadSteps` | src/brkga.cpp:85-109 | the delivery loop ends in the state the fold `Decoder.Unloaded` reaches after n steps |
| `Decoder.UnloadAt` | src/brkga.cpp:85-109 | one pass of the delivery loop takes the fold from k steps to k + 1 |
| `Decoder.UnloadNext` | src/brkga.cpp:87-108 | one delivery applied to a state is the fold's step `Decoder.Deliver` on that state |
| `Decoder.UnloadedItems` | src/brkga.cpp:85-109 | after k delivery steps every loaded item is either still on the stack or delivered, exactly once |
| `Decoder.UnloadedBound` | src/brkga.cpp:94-99 | after k delivery steps at most k * l items were relocated |
| `Decoder.UnloadedPopsOff` | src/brkga.cpp:85-109 | with l = 0 each delivery step takes the top item off the stack, as the reference fold `Decoder.PoppedOff` does |
| `Decoder.PoppedOffInOrder` | src/brkga.cpp:106-108 | taking k items off the top delivers the last k loaded items in reverse and leaves the rest |
| `Decoder.UnloadedInOrder` | src/brkga.cpp:85-109 | with l = 0 the k delivery steps deliver the top k items in reverse loading order and relocate nothing |
| `Decoder.UnloadedAll` | src/brkga.cpp:85-109 | after all deliveries the stack is empty, every loaded item was delivered, within n * l relocations, in reverse loading order when l = 0 |
| `Decoder.DeliverItems` | src/brkga.cpp:89-108 | a step that moves one item off the stack keeps every item on the stack or among the delivered ones |
| `Decoder.DeliverSingle` | src/brkga.cpp:89-108 | a delivery whose group holds one key takes the top item off and relocates nothing |
| `Decoder.MeasureTour` | src/brkga.cpp:112-118 | the summed distance is the length of the tour |
| `Decoder.PickupTour` | src/brkga.cpp:54-58 | the pickup tour starts and ends at the depot 0 and visits every item once in the order of sorted group 0 |
| `Decoder.DeliveryTour` | src/brkga.cpp:83-110 | the delivery tour starts and ends at the depot and visits every item once, in the order `Decoder.Relocated` defines; with l = 0 it is the pickup order reversed |
| `Decoder.Relocate` | src/brkga.cpp:60-109 | the delivered order is a permutation of the items and is the one `Decoder.Relocated` defines step by step, with its relocations, at most 2 n l; with l = 0 nothing is relocated and the order is reversed |
| `Decoder.PlanTours` | src/brkga.cpp:48-110 | both tours are depot-to-depot permutations of the items, the delivery tour and the relocations are those `Decoder.Relocated` defines from the pickup order, bounded by 2 n l, and with l = 0 the delivery order is the reversed pickup order |
| `Decoder.Decode` | src/brkga.cpp:13-120 | the decoded cost is alpha times the length of both tours plus beta times h times the relocations, truncated, on tours that visit every item once; the delivery tour and the relocations are those `Decoder.Relocated` defines |
| `MersenneTwister.Initialize` | src/brkga.h:175-190 | state word 0 is the seed and each later word is Knuth's multiplier recurrence on its predecessor |
| `MersenneTwister.Reload` | src/brkga.h:192-206 | the reloaded state is the next N words of the twisted recurrence over the old state |
| `MersenneTwister.ReloadStep` | src/brkga.h:199-203 | the in-place update reads exactly the words the recurrence needs, old or already replaced |
| `MersenneTwister.Seed` | src/brkga.h:208-213 | seeding initialises the state from the seed, reloads it once and leaves all N words to draw |
| `MersenneTwister.RandInt` | src/brkga.h:292-306 | a draw reloads only when no word is left and returns the tempered next word; the new generator and the word are one step of the stream `Advance`/`Drawn`, defined by the twist recurrence |
| `MersenneTwister.DrawMany` | src/brkga.h:292-306 | drawing c words without a reload returns the next c tempered state words in order |
| `MersenneTwister.Mask` | src/brkga.h:310-317 | the mask is the smallest all-ones word at least n |
| `MersenneTwister.RandIntBelow` | src/brkga.h:308-325 | the value returned is at most n and is the first masked draw of the stream that is at most n: every earlier draw, masked by `Mask(n)`, exceeded n; the generator has advanced by exactly the draws made; when n is itself a mask the first draw is accepted |
| `MersenneTwister.Rejection` | src/brkga.h:320-323 | the do-while loop with any mask stops at the first masked draw at most n, having rejected every earlier one, or reports that all fuel draws were rejected |
| `MersenneTwister.Attempt` | src/brkga.h:321 | one pass draws the next word of the stream, keeps its bits in the mask, and accepts exactly when the result is at most n |
| `MersenneTwister.RejectedAll` | src/brkga.h:320-323 | a run of k rejections means each of the first k masked draws exceeded n |
| `MersenneTwister.AllRejected` | src/brkga.h:320-323 | conversely, first k masked draws that each exceed n are a run of k rejections |
| `MersenneTwister.AndBelow` | src/brkga.h:322 | masking a word never exceeds the mask |
| `MersenneTwister.Save` | src/brkga.h:375-382 | the saved array holds the N state words, in order, followed by `left` |
| `MersenneTwister.Load` | src/brkga.h:384-392 | loading a saved array whose count is at most N gives a valid generator holding those state words and that count |
| `MersenneTwister.SaveLoad` | src/brkga.h:375-392 | loading what was saved gives back the same generator |
| `MersenneTwister.Copy` | src/brkga.h:282-290 | the copy constructor yields an equal generator |
| `MersenneTwister.Assign` | src/brkga.h:412-422 | assignment yields a generator equal to the source, also when both are the same object |
| `Brkga.NewPopulation` | src/brkga.h:524-528 | a population needs p and n non-zero, p is checked first, and a new one holds p chromosomes of n zero keys |
| `Brkga.SlotCount` | src/brkga.h:723 | a fraction of p becomes the integer part of the product |
| `Brkga.NewBrkga` | src/brkga.h:721-735 | the constructor accepts exactly the valid configurations and otherwise reports the first failing check |
| `Brkga.Offspring` | src/brkga.h:948 | elite, offspring and mutant slots add up to the population size |
| `Brkga.SourceRank` | src/brkga.h:899-908 | an inherited key comes from an elite parent when the coin says so and from a non-elite one otherwise |
| `Brkga.OffspringRow` | src/brkga.h:897-915 | each gene of an offspring is the gene of the parent its coin selects |
| `Brkga.Rows` | src/brkga.h:884-921 | the next generation copies the elite in rank order, then mates offspring, then adds the drawn mutants |
| `Brkga.Entries` | src/brkga.h:887-929 | elite rows keep their fitness, every other row gets the decoder's fitness, and each entry names its own row |
| `Brkga.Rank` | src/brkga.h:923-932 | the ranked fitness list is sorted, indexes each row once, keeps every entry, and its best is no worse than the old best |
| `Brkga.Evolution` | src/brkga.h:882-933 | a generation lays out the rows as the source does and never loses the best fitness |
| `Brkga.Elitism` | src/brkga.h:887-894 | any entry kept in a sorted fitness list is no better than its head |
| `Brkga.Evolve` | src/brkga.h:786-795 | zero generations is an error; otherwise every population advances the given number of generations and `previous` is one behind |
| `Brkga.EvolveAll` | src/brkga.h:789-794 | one generation evolves every population and swaps current and previous |
| `Brkga.GetBestFitness` | src/brkga.h:760-768 | the result is the best of the populations' top fitness values |
| `Brkga.GetBestChromosome` | src/brkga.h:770-778 | the result is the top chromosome of the first population with the best top fitness |
| `Brkga.BestAgree` | src/brkga.h:760-778 | the best fitness is the fitness of the best chromosome |
| `Brkga.ExchangeTargetsAsWritten` | src/brkga.h:797-818 | M = 0 or M >= p is an error; the destinations count down from p - 1 in unsigned arithmetic and wrap past 0 when (K - 1) M > p |
| `Brkga.CopyRun` | src/brkga.h:808-817 | copying M members moves the destination down by M |
| `Brkga.ExchangeTargets` | src/brkga.h:799-817 | with the wrap-around rejected, the destinations are distinct, strictly decreasing slots of the population |
| `NonDominatedSet.Relation` | src/non_dominated_set.h:20-41 | the relation is 1 exactly when a dominates b, -1 exactly when b dominates a, and 0 otherwise |
| `NonDominatedSet.RelationAntisymmetric` | src/non_dominated_set.h:20-41 | swapping the arguments negates the relation, and a point is unrelated to itself |
| `NonDominatedSet.ScanAsWrittenShape` | src/non_dominated_set.h:49-63 | as written, an added point ends the list, earlier entries stay, and incomparable points stay |
| `NonDominatedSet.ScanAsWrittenRejects` | src/non_dominated_set.h:49-58 | as written, a dominated or duplicate point leaves the list unchanged |
| `NonDominatedSet.AddAsWrittenRejects` | src/non_dominated_set.h:43-64 | on a valid archive, a point that is dominated or already present is not added |
| `NonDominatedSet.AddAsWrittenKeeps` | src/non_dominated_set.h:43-64 | as written, incomparable points are kept and an added point is appended |
| `NonDominatedSet.AddAsWrittenSkips` | src/non_dominated_set.h:49-61 | the increment after `erase` skips a point: adding (1, 1) to [(2, 3), (3, 2), (0, 5)] erases (2, 3), never examines the dominated (3, 2), which survives, and gives [(3, 2), (0, 5), (1, 1)], which is not mutually non-dominated |
| `NonDominatedSet.AddAsWrittenPastEnd` | src/non_dominated_set.h:49-61 | erasing the last element makes the loop increment past `end()` |
| `NonDominatedSet.Undominated` | src/non_dominated_set.h:49-61 | exactly the archive points that the new point does not dominate remain |
| `NonDominatedSet.ScanSpec` | src/non_dominated_set.h:49-63 | the corrected scan either rejects the point and changes nothing, or drops what it dominates and appends it |
| `NonDominatedSet.AddSpec` | src/non_dominated_set.h:43-64 | the corrected add keeps the archive when the point is dominated or present, and otherwise removes what it dominates and appends it |
| `NonDominatedSet.UndominatedSubsequence` | src/non_dominated_set.h:49-61 | removing points keeps the archive mutually non-dominated |
| `NonDominatedSet.AddPreserves` | src/non_dominated_set.h:43-64 | the corrected add keeps the archive free of duplicates and dominated pairs |
| `NonDominatedSet.ScanAgrees` | src/non_dominated_set.h:49-61 | when the new point dominates nothing, the as-written and corrected scans agree |
| `NonDominatedSet.SaveOrder` | src/non_dominated_set.h:69-74 | the saved list is the archive in ascending lexicographic order |
| `Subtour.NodeCount` | src/tsp_solver.h:42-47 | distinct nodes below n number at most n, and exactly n when every node is there |
| `Subtour.FirstUnseen` | src/tsp_solver.h:44-46 | the result is the first unmarked node, or n when all are marked |
| `Subtour.NextUnseen` | src/tsp_solver.h:52-57 | the result is the first unmarked neighbour over a used edge, or n when there is none |
| `Subtour.WalkComponent` | src/tsp_solver.h:49-67 | from the start node the walk writes, at every step, the least unmarked node joined to the last one by a used edge, and stops exactly where the last node has no unmarked neighbour left |
| `Subtour.RecordComponent` | src/tsp_solver.h:58-63 | a strictly shorter component replaces the best so far; otherwise the best is kept |
| `Subtour.Search` | src/tsp_solver.h:37-68 | the search marks every node, the walk starts at node 0, the array splits into the components the search walks, and the recorded best is the first shortest of them |
| `Subtour.SearchStep` | src/tsp_solver.h:42-68 | one round walks one more component, opened at the least unmarked node, and keeps the marks, the split into components and the best-so-far record |
| `Subtour.WalkRecorded` | src/tsp_solver.h:44-67 | the prefix written so far, followed by a walk opened at the least unmarked node, is again a sequence of components |
| `Subtour.CopyBest` | src/tsp_solver.h:70-73 | the best component moves to the front and the rest of the array is unchanged |
| `Subtour.CopyShortest` | src/tsp_solver.h:70-73 | the front of the array becomes the recorded first shortest component: distinct nodes, consecutive ones joined by used edges |
| `Subtour.FindSubtour` | src/tsp_solver.h:27-76 | the array the search fills is the walk `Subtour.Walked` that the solution determines, split into components: each opens at the least node missing from the earlier ones, steps to the least unwritten neighbour and stops where none is left. The result is the first shortest of them: its nodes are distinct, consecutive ones share a used edge, and no component is shorter |
| `Subtour.Walked` | src/tsp_solver.h:42-68 | the first k nodes the search writes, as a function of the solution alone, are k distinct nodes |
| `Subtour.NextNodeFresh` | src/tsp_solver.h:44-57 | while fewer than n nodes are written, the next node the search writes is a new node |
| `Subtour.ComponentsNext` | src/tsp_solver.h:44-66 | in a walk split into components, every node is the one the search writes after the nodes before it |
| `Subtour.ComponentsWalked` | src/tsp_solver.h:42-68 | a walk of distinct nodes that splits into components is the walk the solution determines |
| `Subtour.InsideOpen` | src/tsp_solver.h:52-58 | inside a walk, every node but the last still has an unwritten neighbour |
| `Subtour.LastSplit` | src/tsp_solver.h:58-66 | a component cannot end strictly inside the walk that runs to the end of the array |
| `Subtour.ComponentsUnique` | src/tsp_solver.h:42-68 | a walk splits into components in one way only, so the component lengths and the shortest one are decided by the solution |
| `Subtour.AddRow` | src/tsp_solver.h:101-103 | the inner loop appends the edges from tour[i] to every later tour node |
| `Subtour.CutLoop` | src/tsp_solver.h:100-105 | cut i has right-hand side len - 1 and the edges of rows 0..i |
| `Subtour.CutStep` | src/tsp_solver.h:100-105 | one outer iteration adds one row and one cut |
| `Subtour.AccumulatedEdges` | src/tsp_solver.h:99-105 | cut i contains every edge between tour positions a <= i < c |
| `Subtour.LazyCuts` | src/tsp_solver.h:97-105 | a full tour adds no cut; a subtour of length len adds len cuts |
| `Subtour.Callback` | src/tsp_solver.h:91-105 | on an integer solution no cut is added exactly when the walk the solution determines is a single component of all n nodes, that is, exactly when that walk never stops before its last node; otherwise there are as many cuts as a shortest component has nodes |
| `Subtour.OneChain` | src/tsp_solver.h:42-68 | the search finds one component of all n nodes exactly when each node of its walk but the last is followed by its least unwalked used neighbour |
| `Subtour.ChainSingle` | src/tsp_solver.h:52-66 | a walk that never stops early is a single component |
| `Subtour.LastOpening` | src/tsp_solver.h:58-66 | with more than one component, the last one opens right after a component whose last node has no unwalked used neighbour |
| `Subtour.ChainOpen` | src/tsp_solver.h:52-58 | inside a walk that never stops early, no prefix is closed |
| `Subtour.SingleComponent` | src/tsp_solver.h:97 | the shortest of components whose lengths sum to n has n nodes exactly when it is the only one |
| `Subtour.SumAtLeast` | src/tsp_solver.h:42-68 | components of at least m nodes each hold at least m nodes per component |
| `Subtour.Orientation` | src/tsp_solver.h:199 | the reversal fixes the first node, orders tour[1] <= tour[n - 1], and gives the same cycle or its reverse |
| `Subtour.CycleCost` | src/tsp_solver.h:203-208 | the summed cost is the length of the closed tour |
| `Subtour.FinishTour` | src/tsp_solver.h:196-208 | a subtour shorter than n fails the assertion; otherwise the result is the closed, oriented tour and its length, which on a symmetric matrix is the length of the tour closed as found |
| `Subtour.OrientationCost` | src/tsp_solver.h:199-208 | on a symmetric matrix, reversing the closed tour to orient it keeps its cost |
| `Frontend.RunChromosomeSize` | src/main.cpp:20-32 | the size computed by `runBRKGA` is the decoder's chromosome size |
| `Frontend.PickupKeysFull` | src/main.cpp:26-28 | when the depth allows every item, pickup groups take k(k + 1)/2 keys |
| `Frontend.DeliveryKeysFull` | src/main.cpp:30-32 | when the depth allows every item, delivery groups take the matching triangular number |
| `Frontend.KeysNoReload` | src/main.cpp:26-32 | with l = 0 every group has a single key |
| `Frontend.ChromosomeSizeForms` | src/main.cpp:20-32 | the size is n(n + 2) with unbounded depth and 3n with l = 0 |
| `Frontend.RunParametersValid` | src/main.cpp:34-39 | the BRKGA parameters of the run always pass the constructor's checks once n >= 1 |
| `Frontend.ExecutionSeeds` | src/main.cpp:49-62 | the ten executions use the first ten of the hundred seeds |
| `Frontend.FirstSeeds` | src/main.cpp:72-76 | the run takes the seeds in execution order |
| `Frontend.BestExecution` | src/main.cpp:108-113 | the kept solution has the least fitness, and ties go to the earliest execution |
| `Frontend.FlagIndex` | src/main.cpp:143-151 | a word is recognised exactly when it is one of the seven flags |
| `Frontend.ScanWord` | src/main.cpp:144-150 | `%s` reads nothing exactly when the argument is all white space, and otherwise a non-empty word without white space |
| `Frontend.ScanWordPadded` | src/main.cpp:144 | the word `%s` reads is the one after the leading white space, up to the next white space, whatever follows |
| `Frontend.ScanWordOfWord` | src/main.cpp:144 | an argument that is a single word is read whole |
| `Frontend.FirstWordApproach` | src/main.cpp:144 | the approach argument "BRKGA x" is read as "BRKGA" |
| `Frontend.Store` | src/main.cpp:143-150 | a flag adds one to the count and changes only its own slot; `--n`, `--l` and `--h` keep their argument, the other flags take the argument's first word, or the buffer's old text when there is none, and the buffer then holds that value |
| `Frontend.StoreFirstWord` | src/main.cpp:144-150 | a `%s` flag stores its argument's first word and leaves it in the shared buffer |
| `Frontend.StoreBlank` | src/main.cpp:144-150 | a `%s` flag with a blank argument stores what the shared buffer already held |
| `Frontend.Scan` | src/main.cpp:142-152 | the scan keeps seven option slots, and a missing value stays missing |
| `Frontend.ScanCount` | src/main.cpp:142-154 | without unknown flags the count is the number of flags seen; one unknown flag drives it below any accepted value |
| `Frontend.RecognisedBound` | src/main.cpp:143 | the flags seen are no more than the remaining words |
| `Frontend.MainAction` | src/main.cpp:136 | fewer than 15 words print the usage |
| `Frontend.Dispatch` | src/main.cpp:158-171 | a solver runs exactly for ILP1, ILP2 or BRKGA, with the options read, and any other approach prints the usage |
| `Frontend.Run` | src/main.cpp:156-171 | `readData` comes first, whatever the approach: the run stops with `EXIT_FAILURE` exactly when the pickup file cannot be opened (src/data.cpp:37-40), and with the success status 0 exactly when the pickup file opens but the delivery file does not (src/data.cpp:89-92); a solver runs exactly when both open and the approach is ILP1, ILP2 or BRKGA |
| `Frontend.MainAccepted` | src/main.cpp:134-156 | once the argument checks pass, `main` reads the data and dispatches on the options scanned; otherwise it prints the usage or reads a null value |
| `Frontend.MainProceeds` | src/main.cpp:134-171 | `main` reaches a solver exactly when there are 15 words or more, all flags are known and present with values, seven are counted, both files open, and the first word of the approach is valid |
| `Frontend.MainReadsFirst` | src/main.cpp:154-171 | an accepted command line with a file that cannot be opened stops in `readData`, even when the approach is unknown: with `EXIT_FAILURE` exactly when the pickup file cannot be opened, and with status 0 exactly when only the delivery file cannot |
| `Frontend.RepeatedFlagAccepted` | src/main.cpp:142-154 | `--n` given twice with `--h` missing still counts seven: the later value wins and `--h` stays unset |
| `Frontend.SharedBuffer` | src/main.cpp:139-145 | after `--approach` with a word and `--pickuparea` with a blank value, both options hold the approach's first word |
| `Frontend.ScanKnown` | src/main.cpp:143-150 | a known flag followed by a value is stored by `Frontend.Store` and the loop moves on two places |
| `Frontend.ScanWordStep` | src/main.cpp:144-150 | a `%s` flag whose value is one word stores that word, which the buffer then holds |
| `Frontend.ScanNumberStep` | src/main.cpp:147-149 | a `%d` flag stores its argument and leaves the buffer alone |
| `Instance.Blank` | src/data.cpp:17-20 | digits stay and every other character becomes a blank |
| `Instance.SkipBlanks` | src/data.cpp:23 | the extraction skips leading blanks |
| `Instance.SplitWord` | src/data.cpp:23 | the extracted word is the longest blank-free prefix |
| `Instance.NextWord` | src/data.cpp:21-23 | extraction fails exactly on all-blank text, and otherwise yields a non-empty word from the text |
| `Instance.SkipBlanksAllBlank` | src/data.cpp:21-23 | nothing remains after skipping blanks exactly when the text is all blanks |
| `Instance.WordsAreDigits` | src/data.cpp:17-24 | every word read from a blanked file name is made of digits |
| `Instance.DeliveryAreaAgrees` | src/data.cpp:26-33 | the as-written delivery name is right whenever the pickup file name holds one run of digits |
| `Instance.DeliveryAreaAsWrittenMisreads` | src/data.cpp:21-33 | for files "R5p2" and "R5d2" the delivery area is named "R2d" instead of "R5d" |
| `Instance.KeepPoints` | src/data.cpp:70-74 | only the first n + 1 points are kept |
| `Instance.Kept` | src/data.cpp:70-74 | the kept points are a prefix of those read, and all of them when there are at most n + 1 |
| `Instance.PointMatrix` | src/data.cpp:76-84 | the distance matrix is filled from the kept points |
| `Instance.FillMatrix` | src/data.cpp:76-84 | every pair of kept points gets its metric value in both orientations and every other entry stays 0 |
| `Instance.FillRow` | src/data.cpp:77-83 | one row pass writes entries i..end of row i and the mirror column |
| `Instance.Store` | src/data.cpp:78 | storing one entry changes that entry only |
| `Instance.MatrixShape` | src/data.cpp:76-84 | with a metric that is zero on equal points, the matrix is symmetric with a zero diagonal |
| `Instance.ReadData` | src/data.cpp:10-117 | an unreadable file is an error, pickup first; otherwise the data hold the parameters, depot 0, the area names (the delivery one as the source reads it, which is the name from the delivery file alone when the pickup file name holds one run of digits) and both matrices of the first n + 1 points |
| `Experiments.ResolveDepth` | src/run_all_experiments.py:9-10 | the depth "INF" becomes n, and a finite depth is passed through |
| `Experiments.ResolvedDepthsDistinct` | src/run_all_experiments.py:18 | for n >= 6 the six depths of the grid stay distinct after resolution |
| `Experiments.Decimal` | src/run_all_experiments.py:11 | the decimal form is digits only, one digit exactly below 10 |
| `Experiments.Pad2` | src/run_all_experiments.py:11 | `%02d` gives exactly two digits below 100 and more above |
| `Experiments.DecimalValue` | src/run_all_experiments.py:11 | reading the decimal form gives back the number |
| `Experiments.LeadingZero` | src/run_all_experiments.py:11 | a leading zero does not change the value |
| `Experiments.Pad2Value` | src/run_all_experiments.py:11 | reading a `%02d` field gives back the number |
| `Experiments.Pad2Examples` | src/run_all_experiments.py:17-19 | 6 is written "06", 20 as "20" and 123 as "123" |
| `Experiments.Field` | src/run_all_experiments.py:11 | splitting at a separator fails exactly when it is absent and otherwise gives the text before and after its first occurrence |
| `Experiments.FieldSep` | src/run_all_experiments.py:11 | splitting a joined text at the separator gives back its parts |
| `Experiments.PathRoundTrip` | src/run_all_experiments.py:11 | the output path reads back into approach, area, n, l and h |
| `Experiments.PathInjective` | src/run_all_experiments.py:11 | two output paths are equal exactly when their parameters are |
| `Experiments.Arguments` | src/run_all_experiments.py:11 | the launcher passes fifteen words |
| `Experiments.WordsJoin` | src/run_all_experiments.py:11 | splitting the joined command at blanks gives back its words |
| `Experiments.CommandAccepted` | src/run_all_experiments.py:11 | every launched command is split back into its words and accepted by `main`, which reads the grid's values and, when both instance files open, runs the named approach |
| `Experiments.ArgumentsShape` | src/run_all_experiments.py:11 | the flags stand at the odd positions in the order `main` lists them and no word contains a blank |
| `Experiments.ArgumentsWords` | src/run_all_experiments.py:11 | the approach, both instance file names and the output path are single words, so `%s` reads them whole |
| `Experiments.ArgumentsNoBlank` | src/run_all_experiments.py:11 | no word of the command contains a blank |
| `Experiments.PathNoBlank` | src/run_all_experiments.py:11 | the output path contains no blank |
| `Experiments.MainOnArguments` | src/main.cpp:142-171 | fifteen words with the seven flags in order, each `%s` value a single word, give `main` the seven values in that order before it reads the data |
| `Experiments.ScanLauncher` | src/main.cpp:142-152 | the argument loop over such words ends with count 7, the seven values in order and the output path in the buffer |
| `Experiments.Grid` | src/run_all_experiments.py:26 | the grid has 3 * 6 * 5 * 6 * 6 = 3240 runs |
| `Experiments.GridComplete` | src/run_all_experiments.py:26-28 | every combination appears, at its position in `itertools.product` order |
| `Experiments.GridOrder` | src/run_all_experiments.py:26 | the relocation cost varies fastest |
| `Experiments.AtAxes` | src/run_all_experiments.py:15-19 | every run draws its values from the five lists |
| `Experiments.ApproachWord` | src/run_all_experiments.py:15 | approach names contain no '/' and no blank |
| `Experiments.AreaWord` | src/run_all_experiments.py:16 | area names contain no '_' and no blank |
| `Experiments.LaunchWritesPath` | src/run_all_experiments.py:11 | the output path is the last word of the launched command |
| `Experiments.AtInjective` | src/run_all_experiments.py:26 | distinct grid positions hold distinct runs |
| `Experiments.GridPathsDistinct` | src/run_all_experiments.py:26-28 | no two runs of the grid write the same solution file |
| `Experiments.PathsDistinctAt` | src/run_all_experiments.py:26-28 | two grid positions with the same output path are the same position |
| `Experiments.ReadsDigitRun` | src/data.cpp:17-24 | a name with one run of digits is read as that run, and nothing is left to read after it |
| `Experiments.DeliveryAreaOfRun` | src/data.cpp:26-33 | with the corrected reading, a delivery file name holding one run of digits d names the area "R" + d + "d", whatever the pickup file name holds |
| `Experiments.AreaNamesOfLaunch` | src/run_all_experiments.py:11 | for the launcher's instance files both area names are read correctly, so the delivery misreading does not arise in the experiments |
| `Experiments.AreasAreDigitRuns` | src/run_all_experiments.py:16 | each area name is "R" followed by digits only |

## Left out

- Keys as reals: the decoder's keys are integers, because the decoder only compares them.
- Decoder.TotalCost: `distance` and `totalCost` are C++ `int` (src/brkga.cpp:112-120). The model uses unbounded integers, so an overflow on very large instances is not modelled. The `double` costs `alpha` and `beta` and the coordinates read from files are exact reals, not floating point.
- `Decoder::decode` with an output file name (src/brkga.cpp:122-201) only writes a solution file. That is I/O and is not modelled.
- The `Data` singleton: the decoder takes n, l, h and both matrices as parameters.
- A negative reloading depth: depths are `nat`. The source accepts any `int` from the command line.
- MersenneTwister.RandIntBelow: the rejection loop has no bound in the source. The model takes a `fuel` bound and returns `None` when the fuel runs out.
- `MTRand::seed(array)`, `seed()` from `/dev/urandom`, `hash` and the clock: these are entropy sources and I/O.
- `rand`, `rand53`, `randExc`, `randNorm`: these are floating point over `randInt`. The genetic algorithm's coins and mutant keys are parameters.
- The stream operators `<<` and `>>` of `MTRand` are I/O.
- `BRKGA::initialize`: random keys, plus a seed chromosome from the exact TSP solver. That is a call into Gurobi.
- OpenMP parallel decoding: its result is the same as decoding in order.
- Brkga.SlotCount: the source computes `unsigned(_pe * p)` in `double`, so the product is rounded before it is truncated; the model truncates the exact real product. The two can differ by one (0.29 * 100 is 28.999… in `double`, giving 28 slots; the model gives 29). The fractions the run uses give the same counts either way: 0.25 is exact in `double`, and the `double` nearest 0.10 is slightly above it, so 0.10 times a population of 200 times the chromosome size rounds to no less than the exact whole number (`Frontend.RunParametersValid`).
- Brkga.Evolution: the coin `rand() < rhoe` arrives as a boolean per gene.
- Brkga.ExchangeTargetsAsWritten: models only the destination slots of `exchangeElite`. The copying of chromosomes and the final re-sort are left out.
- `Population::sortFitness` on doubles is modelled as the lexicographic sort of (integer fitness, index) pairs. Fitness values are truncated integers.
- The Gurobi model in `TSPSolver::solve` is a foreign solver: the variables, the degree-2 constraints and `optimize`. So is the callback plumbing of `Subtourelim::callback`, including the memory that is freed only when a cut is added. Its result arrives as the solution matrix.
- Subtour.FindSubtour: the case where the best component is recorded at index -1 cannot arise for n >= 1. The model requires n >= 1, as every caller passes n + 1 nodes.
- `NonDominatedSet::saveSet` writes a file. Only the sort order it writes in is modelled.
- The ILP formulations (`ilp_formulation_1/2`) are not part of this model.
- The DIMENSION line of the instance files, `sscanf` and the parsing of numbers from text, and the square root of the rounded Euclidean metric: the points and the metric are parameters of `Instance.ReadData`.
- Frontend.MainAction: option values stay strings. The `%d` conversion of `--n`, `--l` and `--h` is not modelled; their slot holds the argument text.
- Frontend.MainAction: a flag in the last position reads past `argv`. It is modelled as the `NullValue` outcome.
- Frontend.MainAction: `parameterStr` starts uninitialised. The model starts the buffer empty, so a blank first `%s` value gives the empty text.
- Frontend.MainAction: `parameterStr` holds 1000 characters. A longer word overflows it in the source; the model does not bound it.
- Frontend.MainAction: which file names can be opened is a parameter (`opens`); what `readData` then builds is `Instance.ReadData`.
- `runBRKGA`'s timing loop and log file: these depend on the clock and on I/O.
- The launcher's process pool, `make` and `os.system`: process control.
- Experiments.WordsJoin: splits the shell command at single blanks. No shell quoting is modelled.

## Findings

| source | as written | input that shows it | evidently intended | confidence | as-written member | corrected member |
|---|---|---|---|---|---|---|
| src/non_dominated_set.h:49-61 | `it = allNDS.erase(it)` is followed by the loop's `++it`, so the element after an erased one is never examined, and erasing the last element increments past `end()` | archive [(2,3), (3,2), (0,5)] with (1,1) added erases (2,3) but keeps the dominated (3,2), giving [(3,2), (0,5), (1,1)]; archive [(1,1)] with (0,0) added increments past the end | every archive point that the new point dominates is removed, and the archive stays mutually non-dominated | not executed | `NonDominatedSet.AddAsWrittenSkips` | `NonDominatedSet.AddPreserves` |
| src/brkga.h:803-816 | `dest` is unsigned, starts at p - 1 and goes down once per copied chromosome, (K - 1) M times, with only M < p checked | K = 3, M = 2, p = 3: the fourth copy targets slot 2^32 - 1 | at most p slots are overwritten, each one inside the population and distinct | not executed | `Brkga.ExchangeTargetsAsWritten` | `Brkga.ExchangeTargets` |
| src/data.cpp:21-33 | `ss.clear()` resets only the stream flags, so the delivery name is read from what is left of the pickup file name followed by the delivery file name | pickup file "R5p2" and delivery file "R5d2" name the delivery area "R2d" | the delivery area is named from the delivery file name alone ("R5d") | not executed | `Instance.DeliveryAreaAsWrittenMisreads` | `Experiments.DeliveryAreaOfRun` |
