# Shortest paths, display widths and iteration counts

This project models three pieces of a small Rust collection of algorithm
examples and proves properties about them:

- **`dejkstras_alg`**, Dijkstra's shortest-path algorithm in its linear-scan
  form. `find_lowest_cost_node` scans the costs map for the cheapest node
  that is not yet processed. The main loop expands that node: it relaxes
  every edge out of it in place in a `costs` map, records parents in a
  `parents` map, and adds the node to a `processed` set.
  - A graph maps a node to the map from each neighbour to an `i32` edge
    weight.
  - The result is the recorded cost of `finish`, or `None`.
- **`is_emoji` and `on_screen_len`**, the display-width helpers used to draw
  the demo's console banner. A character whose code point lies in one of six
  ranges is an emoji and takes two columns; every other character takes one.
  The same two functions appear in `src/lib.rs` and in the example file.
- **`calc_iterations`**, the benchmark helper. It multiplies a divisor by ten
  until the desired total time divided by it no longer exceeds one
  measurement, then returns half the divisor.

Files:

- `graphs.dfy` (module `Graphs`): graphs, the `i32` type, walks, walk
  weights, reachability and potentials.
- `dijkstra.dfy` (module `Dijkstra`): `find_lowest_cost_node`, the
  relaxation loop and `dejkstras_alg`.
  - They are imperative methods over `map`s and a `set`.
  - The HashMap iteration order is modelled by picking the next key
    arbitrarily (`:|`), so every contract holds for every order.
- `dijkstra_examples.dfy` (module `DijkstraExamples`): the unit-test graphs.
  - For three of them the exact answer is proved for any visiting order.
  - The proof uses a potential: a labelling of the nodes that no edge
    undercuts. A potential bounds the weight of every walk from below.
- `formatting.dfy` (module `Formatting`): `is_emoji`, `on_screen_len` and
  the widths the tests expect.
- `benchmarking.dfy` (module `Benchmarking`): `calc_iterations`.
  - A `Duration` is a natural number of nanoseconds.
  - `Duration / u32` is the floor of that number divided by the divisor.
  - `i32` and `u32` are newtypes, so every `i32` sum in `dejkstras_alg` and
    every `u32` product in `calc_iterations` is checked to stay in range.
    The `usize` widths of `on_screen_len` are unbounded naturals.

The main results:

- `DejkstrasAlg` returns `None` exactly in three cases:
  - `start` has no adjacency entry;
  - some node reached from `start` has no entry;
  - `finish` is not reached at all.
- Otherwise it returns the weight of a walk from `start` to `finish`.
- With non-negative weights, that weight is the least weight of any such
  walk.
- These hold under a weight bound that rules out `i32` overflow; on the test
  graphs that bound is trivially met.

## Model

| member | source | states |
|---|---|---|
| Formatting.IsEmoji | src/lib.rs:64-76 | a character is an emoji iff its code point is in 0x24C2..=0x1F251, 0x1F300..=0x1F64F or 0x1F680..=0x1F6FF, which is the union of the six arms (two arms lie inside the 0x24C2 arm, and two others are adjacent); no ASCII character is an emoji |
| Formatting.OnScreenLen | src/lib.rs:78-82 | the fold equals the sum of the per-character widths (2 for an emoji, 1 otherwise), which is the length plus the number of emoji |
| Formatting.Width | src/lib.rs:80 | the closure's increment: 2 for an emoji, else 1 |
| Formatting.FoldWidth | src/lib.rs:81 | the fold from `acc` over `s` lands between `acc` plus the length of `s` and `acc` plus twice that length |
| Formatting.FoldIsSum | src/lib.rs:80-81 | folding widths from an accumulator adds the reference sum of widths to that accumulator |
| Formatting.SumIsLengthPlusEmoji | src/lib.rs:80-81 | the sum of widths is the character count plus the emoji count |
| Formatting.EmojiCountBounds | src/lib.rs:78-82 | the emoji count is at most the length; it is 0 iff no character is an emoji, and equals the length iff every character is |
| Formatting.SumWidthsAppend | src/lib.rs:78-82 | the sum of widths distributes over concatenation |
| Formatting.OnScreenLenEmpty | src/lib.rs:78-82 | the empty string has width 0 |
| Formatting.OnScreenLenAppend | src/lib.rs:78-82 | the width of `s + t` is the width of `s` plus the width of `t` |
| Formatting.OnScreenLenBounds | src/lib.rs:78-82 | the length is at most the width, which is at most twice the length; width equals length iff there is no emoji, and equals twice the length iff all characters are emoji |
| Formatting.OnScreenLenAscii | src/lib.rs:78-82 | an all-ASCII string has its length as its width |
| Formatting.BannerWidth | examples/dejkstras_algorithm.rs:27-32 | ASCII text between two emoji is four columns wider than the text, as in the demo banner |
| Formatting.BannerSymbolsAreEmoji | examples/dejkstras_algorithm.rs:139-144 | the four banner symbols (U+2728, U+2705, U+1F6A7, U+274C) are emoji |
| Formatting.ExampleWidthSymbols | examples/dejkstras_algorithm.rs:149 | the four symbols take 8 columns |
| Formatting.ExampleWidthOneSpace | examples/dejkstras_algorithm.rs:150 | with one space, 9 columns |
| Formatting.ExampleWidthTwoSpaces | examples/dejkstras_algorithm.rs:151 | with two spaces, 10 columns |
| Formatting.ExampleWidthThreeSpaces | examples/dejkstras_algorithm.rs:152 | with three spaces, 11 columns |
| Formatting.ExampleWidthTrailingSpace | examples/dejkstras_algorithm.rs:153 | with a trailing space as well, 12 columns |
| Formatting.ExampleWidthSuccess | examples/dejkstras_algorithm.rs:155-156 | the success banner takes 27 columns |
| Formatting.ExampleWidthFailure | examples/dejkstras_algorithm.rs:158-159 | the failure banner takes 43 columns |
| Benchmarking.CalcIterations | src/lib.rs:37-45 | the loop stops at the least `k` with `desired / 10^k <= one`, and the result is `10^k / 2`; the result is 0 iff `desired <= one` (the body never runs); otherwise it is `5 * 10^j` for some `j <= 8` |
| Benchmarking.IsLeastExponent | src/lib.rs:40 | the loop's exit condition: `desired / 10^k <= one` holds at `k` and fails at every smaller exponent |
| Benchmarking.LeastExponentUnique | src/lib.rs:39-41 | the exponent at which the loop stops is unique |
| Benchmarking.HalfPow10 | src/lib.rs:44 | `10^k / 2` is 0 for `k = 0` and `5 * 10^(k-1)` otherwise |
| Benchmarking.Pow10Monotone | src/lib.rs:40-41 | powers of ten grow with the exponent |
| Graphs.ExtendWalk | examples/dejkstras_algorithm.rs:113-118 | a walk extended by one edge is a walk whose weight grows by that edge's weight (the new cost `cost + neighbors[n]`) |
| Graphs.PrefixWeight | examples/dejkstras_algorithm.rs:90-93 | with non-negative weights a prefix of a walk weighs no more than the walk |
| Graphs.ClosedSetContainsReached | examples/dejkstras_algorithm.rs:109 | a set containing the start's neighbours and closed under edges contains every node reached from the start |
| Graphs.PotentialBound | examples/dejkstras_algorithm.rs:90-93 | if no edge undercuts a potential, every walk weighs at least the potential's difference between its ends |
| Graphs.SubsetCardinality | examples/dejkstras_algorithm.rs:122 | a subset is no larger than its superset (the processed set never outgrows the graph) |
| Dijkstra.Candidate | examples/dejkstras_algorithm.rs:80 | a node the scan may keep: costed, not processed, and strictly below the starting `lowest_cost` of `i32::MAX` |
| Dijkstra.IsLowest | examples/dejkstras_algorithm.rs:75-85 | a candidate whose cost is no more than that of any other candidate |
| Dijkstra.FindLowestCostNode | examples/dejkstras_algorithm.rs:68-88 | a returned node is costed, unprocessed and below `i32::MAX`, and costs no more than every other such node; `None` is returned iff there is no such node |
| Dijkstra.RelaxNeighbors | examples/dejkstras_algorithm.rs:111-120 | the inner loop, in any visiting order, yields exactly the relaxed costs and parents |
| Dijkstra.RelaxedCosts | examples/dejkstras_algorithm.rs:114 | after relaxing, every neighbour has a cost entry (`or_insert`), improved or not, and no other key is added |
| Dijkstra.OldOrMax | examples/dejkstras_algorithm.rs:114 | the value `*costs.entry(n).or_insert(i32::MAX)` reads: the recorded cost, or the sentinel for a new entry |
| Dijkstra.Improves | examples/dejkstras_algorithm.rs:113-115 | the test `new_cost < old_cost`, with `old_cost` the value `or_insert(i32::MAX)` reads |
| Dijkstra.NoOverflow | examples/dejkstras_algorithm.rs:113 | `cost + neighbors[n]` fits an `i32` for every neighbour |
| Dijkstra.RelaxedCostsFacts | examples/dejkstras_algorithm.rs:113-119 | relaxation never raises a cost; each neighbour ends at no more than the path through the expanded node; each cost either stays as it was (or `i32::MAX` for a new entry) or becomes that path's cost; and a cost is lowered iff the path improves on it |
| Dijkstra.RelaxedParents | examples/dejkstras_algorithm.rs:115-118 | after relaxing, no recorded parent is dropped and only neighbours can gain one |
| Dijkstra.RelaxedParentsFacts | examples/dejkstras_algorithm.rs:115-118 | every improved neighbour gets the expanded node as parent; every other recorded parent is unchanged |
| Dijkstra.CostsPendingStep | examples/dejkstras_algorithm.rs:113-119 | one visit of the inner loop, after `or_insert`, records the new cost exactly when it is strictly lower |
| Dijkstra.ParentsPendingStep | examples/dejkstras_algorithm.rs:115-118 | one visit makes the expanded node the parent exactly when the cost is lowered |
| Dijkstra.PendingLookup | examples/dejkstras_algorithm.rs:114 | a neighbour not yet visited has its original entry, or none |
| Dijkstra.ParentSetExactlyWhenLowered | examples/dejkstras_algorithm.rs:115-119 | the expanded node becomes a neighbour's parent exactly when that neighbour's cost is lowered |
| Dijkstra.SelectionBounds | examples/dejkstras_algorithm.rs:113 | under the weight bound, `cost + neighbors[n]` never overflows `i32` and stays within the bound for one more processed node |
| Dijkstra.BelowSentinel | examples/dejkstras_algorithm.rs:80 | under the weight bound no recorded cost reaches `i32::MAX`, so every costed unprocessed node is a candidate |
| Dijkstra.FirstUnprocessed | examples/dejkstras_algorithm.rs:105-123 | a walk to an unprocessed node has a first unprocessed node after the start |
| Dijkstra.SelectedIsOptimal | examples/dejkstras_algorithm.rs:90-93 | with non-negative weights the selected cheapest node's cost is no more than the weight of any walk to it |
| Dijkstra.StepWalks | examples/dejkstras_algorithm.rs:113-118 | after relaxation every cost is still the weight of a walk from the start |
| Dijkstra.StepKeepsProcessed | examples/dejkstras_algorithm.rs:111-122 | with non-negative weights relaxation changes neither a processed cost nor the expanded node's own cost |
| Dijkstra.StepSettled | examples/dejkstras_algorithm.rs:106-123 | with non-negative weights one iteration keeps edges out of the start and out of processed nodes relaxed, and keeps processed costs final, now including the selected node |
| Dijkstra.StepCosts | examples/dejkstras_algorithm.rs:108-120 | one iteration keeps every cost the weight of a walk and within the bound for one more processed node |
| Dijkstra.StepShape | examples/dejkstras_algorithm.rs:109-122 | one iteration keeps the start's and processed nodes' neighbours costed, parents pointing along edges out of processed nodes, and processed nodes costed |
| Dijkstra.CostsPendingStart | examples/dejkstras_algorithm.rs:111 | before the inner loop visits any neighbour the costs are unchanged |
| Dijkstra.ParentsPendingStart | examples/dejkstras_algorithm.rs:111 | before the inner loop visits any neighbour the parents are unchanged |
| Dijkstra.CostsPendingEnd | examples/dejkstras_algorithm.rs:111-120 | once every neighbour is visited the costs are the relaxed costs |
| Dijkstra.ParentsPendingEnd | examples/dejkstras_algorithm.rs:111-120 | once every neighbour is visited the parents are the relaxed parents |
| Dijkstra.PrefixToFirstUnprocessed | examples/dejkstras_algorithm.rs:90-93 | the first unprocessed node on a walk is costed at no more than the walk's prefix up to it |
| Dijkstra.StepStartEdges | examples/dejkstras_algorithm.rs:113-119 | relaxation keeps every start neighbour's cost at most its edge weight |
| Dijkstra.StepEdges | examples/dejkstras_algorithm.rs:113-122 | after expanding a node, every edge out of it and out of earlier processed nodes is relaxed |
| Dijkstra.StepFinal | examples/dejkstras_algorithm.rs:122 | the expanded node's optimal cost joins the final costs, and earlier final costs are kept |
| Dijkstra.StepBound | examples/dejkstras_algorithm.rs:113-119 | relaxation keeps every cost within the bound for one more processed node |
| Dijkstra.StepTargets | examples/dejkstras_algorithm.rs:114 | relaxation adds cost entries only for edge targets |
| Dijkstra.StepFrontier | examples/dejkstras_algorithm.rs:111-122 | every neighbour of the start and of a processed node keeps a cost entry |
| Dijkstra.StepParents | examples/dejkstras_algorithm.rs:115-122 | every parent is still a processed node with an edge to its child |
| Dijkstra.StepPreservesInvariant | examples/dejkstras_algorithm.rs:106-124 | one iteration of the outer loop preserves the loop invariant |
| Dijkstra.InitialInvariant | examples/dejkstras_algorithm.rs:102-105 | seeding the costs from the start's neighbours establishes the loop invariant |
| Dijkstra.MissingEntry | examples/dejkstras_algorithm.rs:109 | a costed node with no adjacency entry is a node reached from the start that has no entry |
| Dijkstra.ExitFacts | examples/dejkstras_algorithm.rs:106-126 | when no candidate is left, every costed node has been processed, every reached node has an entry, and `finish` is costed iff it is reachable (its cost is then a walk weight, and with non-negative weights the least one) |
| Dijkstra.DejkstrasAlg | examples/dejkstras_algorithm.rs:94-127 | `None` iff the start has no entry, or a reached node has no entry, or `finish` is unreachable; a returned cost is the weight of a walk to `finish`; with non-negative weights it is no more than the weight of any such walk |
| DijkstraExamples.ClosedGraph | examples/dejkstras_algorithm.rs:109 | if every neighbour has an entry, every reached node has one |
| DijkstraExamples.BoundedBelow | examples/dejkstras_algorithm.rs:126 | a result that is a walk weight is at least any potential's difference between the ends |
| DijkstraExamples.CertifiedShortest | examples/dejkstras_algorithm.rs:90-93 | with non-negative weights, a walk of weight `w` plus a potential with difference `w` force the result to be exactly `Some(w)` |
| DijkstraExamples.NodeGraphSize | examples/dejkstras_algorithm.rs:165 | a graph over the six test labels plus the extra unknown label `Nowhere` has at most seven entries |
| DijkstraExamples.BookGraph | examples/dejkstras_algorithm.rs:167-171 | the first test graph (also the demo's graph at lines 7-22) |
| DijkstraExamples.SecondGraph | examples/dejkstras_algorithm.rs:175-181 | the second test graph |
| DijkstraExamples.CyclicGraph | examples/dejkstras_algorithm.rs:185-190 | the third test graph, with the cycle a, c, b, a |
| DijkstraExamples.NegativeEdgeGraph | examples/dejkstras_algorithm.rs:196-201 | the fourth test graph, with the edge c to b of weight -1 |
| DijkstraExamples.BookGraphShortest | examples/dejkstras_algorithm.rs:167-173 | on the first test graph (also the demo's) the result is `Some(6)` |
| DijkstraExamples.SecondGraphShortest | examples/dejkstras_algorithm.rs:175-183 | on the second test graph the result is exactly `Some(8)`, which meets the test's `<= Some(8)` |
| DijkstraExamples.CyclicGraphShortest | examples/dejkstras_algorithm.rs:185-192 | on the third test graph, which has a cycle, the result is exactly `Some(60)` |
| DijkstraExamples.NegativeEdgeResult | examples/dejkstras_algorithm.rs:194-203 | on the graph with the edge of weight -1 the result is `Some(c)` with `c >= 4` |
| DijkstraExamples.UnknownStart | examples/dejkstras_algorithm.rs:102 | an unknown start gives `None` |
| DijkstraExamples.BookGraphStartUnreachedFromA | examples/dejkstras_algorithm.rs:167-171 | in the first test graph no walk leads from `a` back to `start` |
| DijkstraExamples.UnreachedFinish | examples/dejkstras_algorithm.rs:126 | a finish that no walk reaches gives `None` |
| DijkstraExamples.MissingEntryGivesNone | examples/dejkstras_algorithm.rs:109 | a reached node with no entry gives `None`, even though `finish` already has a cost |

## Left out

- `bench_once` and `bench_times` (src/lib.rs:7-33): they read the wall clock and run closures, so they have no functional behaviour to state. The `bench` test is left out because it asserts a timing bound.
- `main` (examples/dejkstras_algorithm.rs:5-35): it formats and prints to the console. Only the width of its banner is modelled (`Formatting.BannerWidth` and the example lemmas).
- `new_h_map`, `at_idx` and `_at_idx`: thin wrappers over `HashMap::from` and a range literal. The test graphs are written as map displays instead.
- Test strings in src/lib.rs:93-111: as stored, the literals are not the emoji their expected widths assume. The widths are taken from the example file's tests (examples/dejkstras_algorithm.rs:141-159), which call a function identical to `on_screen_len`.
- Rust's `HashMap` iteration order: the next key is an arbitrary choice, and every contract holds for every order.
- Dijkstra.DejkstrasAlg: `i32` overflow of `cost + neighbors[n]` is excluded by a precondition rather than modelled as a panic. The ghost `bound` must cover every weight's absolute value, and `(|graph| + 1) * bound` must be below `i32::MAX`.
- Dijkstra.DejkstrasAlg: the weight bound also rules out costs equal to `i32::MAX`. The source treats such a cost as "no cost": `find_lowest_cost_node` starts at `lowest_cost = i32::MAX` and keeps a node only when `cost < lowest_cost` (examples/dejkstras_algorithm.rs:75,80), so that node is never expanded. On `{start: {fin: i32::MAX}}` the source returns `Some(i32::MAX)` even though `fin` has no entry. On `{start: {a: i32::MAX}, a: {fin: 1}}` it returns `None` even though `fin` is reachable. The contract promises neither outcome, because no `bound` admits these graphs.
- Formatting.OnScreenLen: the `usize` accumulator is an unbounded natural. An emoji takes two columns and at least three UTF-8 bytes, and every other character one column and at least one byte, so the width never exceeds the string's byte length and cannot overflow in the source either.
- Benchmarking.CalcIterations: `u32` overflow of `div *= 10` is excluded by the precondition `desired / 10^9 <= one`. That condition holds exactly when the loop never needs `10^10`.
- Dijkstra.DejkstrasAlg: with negative weights only the walk-weight property is proved, not optimality. The source documents negative weights as unsupported.
- DijkstraExamples.NegativeEdgeResult: the test's upper bound `<= Some(4)` is not proved, because for negative weights the general contract gives only a lower bound.
- The `parents` map is modelled and kept consistent (every parent is a processed node with an edge to the child), but the source never reads it back.
- The graph is passed as an immutable value, so "the graph is never changed" holds by construction and has no separate lemma.
