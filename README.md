# Verified models of Advent of Code solutions (2024 and 2025)

This project models, in Dafny, the algorithmic core of a collection of
Advent of Code solutions written in Go, and the digit codec of the one
Python machine-learning experiment in the collection (2024 day 17). Each
source file gets one Dafny module. Pure helpers become functions with
their properties proved as lemmas. Code that updates objects or arrays in
place becomes classes and methods, and each method is proved against a
specification function.

| file | module | what it models |
|---|---|---|
| train_codec.dfy | TrainCodec | 2024/day17 training script: padding, one-hot encoding, arg-max decoding, the sample-size check |
| predict_codec.dfy | PredictCodec | 2024/day17 prediction script: the length-20 codec, the batch of one, the interactive input loop |
| dsu.dfy | Dsu | 2025/8 disjoint-set union with path compression and union by rank |
| interval_tree.dfy | Interval | 2025/5 interval search tree: insert, insert without overlap, search |
| graph.dfy | PathGraph | 2025/7 adjacency map and the memoised count of paths to the leaves |
| dial.dfy | Dial | 2025/1 safe dial: moves, part one and part two |
| equation_bits.dfy | Equation | 2025/10 light states and buttons as 16-bit masks |
| button_bfs.dfy | ButtonBfs | 2025/10 breadth-first search for the fewest button presses |
| int_solver.dfy | IntSolver | 2025/10 non-negative integer system solver (branch and bound) |
| opcode.dfy, computer.dfy | Opcode, Computer | 2024/day17 three-register computer and its eight instructions |
| disk_map.dfy | DiskMaps | 2024/day9 disk block map, checksum, free spans and compaction |
| invalid_ids.dfy | InvalidIds | 2025/2 repeated-digit product IDs in a span |
| joltage.dfy | Joltage | 2025/3 battery banks: the best pair and the best twelve |
| line_geometry.dfy | LineGeometry | 2025/9 axis-aligned line predicates |
| pieces.dfy, packing.dfy | Pieces, Packing | 2025/12 polyomino orientations and the backtracking packer |
| keypad.dfy | Keypads | 2024/day21 numeric keypad movements and their permutations |
| simulation.dfy | Simulations | 2024/day20 entities on a grid with add, remove and move and their rollback |
| reports.dfy | Reports | 2024/2 report safety with and without the dampener |
| page_order.dfy | PageOrder | 2024/5 page-ordering rules: checking and reordering updates |
| calibration.dfy | Calibration | 2024/day7 operator search over calibration equations |
| paper_rolls.dfy | PaperRolls | 2025/4 paper-roll heat map and repeated removal |
| wrappers.dfy, decimal.dfy, gomath.dfy | Wrappers, Decimal, GoMath | shared: Result/Option, decimal digit strings, Go's truncating division and strconv |

Modelling conventions:

- Go integers are Dafny `int`. The 64-bit width is written out only where
  the source relies on it (the uint16 masks of 2025/10). `math/big` values
  are exact integers, with `big.Int`'s Euclidean `Div` and `Mod`.
- Go's `/` and `%` truncate toward zero (GoMath.GoDiv, GoMath.GoRem).
- Strings are sequences of characters. Go indexes and measures strings in
  bytes, so the models of byte-indexing code agree with the source on ASCII
  text; the members where this matters are listed under "## Left out".
- A Go panic, a nil result or a returned error becomes an `Err` or a `None`
  on the path where the source produces it.
- Go slices and maps that a method mutates become `seq` or `map` fields
  that the method reassigns. Fixed arrays (the DSU's parent, rank and size
  arrays, the joltage pointers, an update being sorted) stay `array`s.
- Reading the puzzle input, printing and the `main` functions' I/O are
  outside the model. Each solver takes the parsed input as a parameter.
  Where the source's solver builds its answer as text, the model returns that
  text with the number it reports; the 2025/1 solvers, which parse the lines
  themselves, return the number as a `Result<int>` that is an `Err` when a
  line does not parse.

## Model

| member | source | states |
|---|---|---|
| TrainCodec.RJust | 2024/day17/train.py:35 | str.rjust: pads on the left with the fill character up to the width, never truncates; the input is the suffix |
| TrainCodec.OneHot | 2024/day17/train.py:38-40 | a row of ten classes with 1.0 exactly at the digit and 0.0 elsewhere |
| TrainCodec.EncodeDigits | 2024/day17/train.py:38-40 | succeeds exactly on digit strings; row i is the one-hot row of character i |
| TrainCodec.EncodeOutput | 2024/day17/train.py:24-41 | succeeds exactly on digit strings; max(length, 25) rows of ten classes each |
| TrainCodec.ArgMax | 2024/day17/train.py:54 | np.argmax: an index of a largest entry, the first such index |
| TrainCodec.ArgMaxDigits | 2024/day17/train.py:54-56 | the joined per-row arg-max is a digit string |
| TrainCodec.DecodeSequence | 2024/day17/train.py:44-57 | the result is canonical (no leading zero, "0" never ""), has the value of the arg-max digits, and is "0" exactly when every arg-max digit is 0 |
| TrainCodec.ArgMaxOneHot | 2024/day17/train.py:38-40 | the arg-max of a one-hot row is its digit |
| TrainCodec.ArgMaxDigitsOfEncoding | 2024/day17/train.py:38-56 | arg-max decoding of an encoding gives back the digit string |
| TrainCodec.StripZerosPadded | 2024/day17/train.py:35-56 | stripping leading zeros ignores the rjust padding |
| TrainCodec.DecodeEncode | 2024/day17/train.py:24-57 | round trip: decode(encode(s)) is s without leading zeros, or "0" |
| TrainCodec.LongInputNotTruncated | 2024/day17/train.py:35 | a sequence longer than 25 yields one row per character |
| TrainCodec.SampleCount | 2024/day17/train.py:76-83 | no sample size keeps every row; a size above the row count (or negative) is an error; otherwise exactly that many rows |
| TrainCodec.EncodeEach | 2024/day17/train.py:87 | the list comprehension has one encoding per output string, each the one encode_output gives, and fails exactly when some output is not digits |
| TrainCodec.EncodeAll | 2024/day17/train.py:87 | X succeeds exactly when every output is digits and all encode to the same number of rows, as np.array requires to stack them; row counts are then those of the first output |
| PredictCodec.ZFill | 2024/day17/predict.py:23 | str.zfill: a string at least width long comes back unchanged; a shorter one comes back exactly width long, as the original preceded by zeros, the zeros going after a leading '+' or '-' |
| PredictCodec.EncodeSequenceAgrees | 2024/day17/predict.py:11-27 | encode_sequence is the training encoder (zfill and rjust agree on digit strings) |
| PredictCodec.PrepareInput | 2024/day17/predict.py:46-59 | succeeds exactly on digit strings; a batch of one matrix with max(length, 20) rows |
| PredictCodec.PrepareInputRoundTrip | 2024/day17/predict.py:40-59 | decoding the prepared input gives the digits without leading zeros, or "0" |
| PredictCodec.PredictInputFromOutput | 2024/day17/predict.py:62-86 | a successful prediction comes from a digit input and is a canonical digit string |
| PredictCodec.PredictMeaning | 2024/day17/predict.py:62-86 | prediction succeeds exactly when the input is digits and the network returns a non-empty matrix; its value is that of the arg-max digits |
| PredictCodec.IsExitLower | 2024/day17/predict.py:98 | "exit" is recognised in any ASCII letter case |
| PredictCodec.Kept | 2024/day17/predict.py:108-112 | the last 20 characters, or the whole input when it is shorter |
| PredictCodec.FirstExit | 2024/day17/predict.py:94-100 | the index of the first exit line, every line before it is not an exit |
| PredictCodec.Session | 2024/day17/predict.py:94-121 | one reply per line before the first exit line, each the reply to that line; exited iff some line is an exit |
| PredictCodec.RepliesMeaning | 2024/day17/predict.py:94-121 | the reply list answers every line, in order |
| PredictCodec.Respond | 2024/day17/predict.py:102-121 | one iteration of the loop gives the reply the specification assigns to the line |
| PredictCodec.ReplyMeaning | 2024/day17/predict.py:103-119 | non-digit input is rejected without a prediction; accepted input is sent as its last 20 digits and flagged truncated exactly when longer than 20 |
| Dsu.Path | 2025/8/dsu/dsu.go:28-35 | the nodes Find climbs from x lie in the forest and include x |
| Dsu.Compress | 2025/8/dsu/dsu.go:37-38 | pointing a node straight at its root keeps a forest with the same roots and depths |
| Dsu.CompressRoots | 2025/8/dsu/dsu.go:37-38 | path compression leaves the set of roots unchanged |
| Dsu.Relabel | 2025/8/dsu/dsu.go:53-61 | after a link, every element of the losing set has the winner as its root; other roots stay |
| Dsu.Bump | 2025/8/dsu/dsu.go:53-61 | the losing set's elements are one level deeper; all others keep their depth |
| Dsu.LinkForest | 2025/8/dsu/dsu.go:53-61 | linking one root under another keeps an acyclic forest |
| Dsu.LinkRoots | 2025/8/dsu/dsu.go:53-64 | a link removes exactly the losing root, so the number of sets drops by one |
| Dsu.LinkMembers | 2025/8/dsu/dsu.go:53-61 | the winner's set becomes the union of both sets; every other set is unchanged |
| Dsu.LinkSized | 2025/8/dsu/dsu.go:55-61 | adding the loser's size to the winner's keeps every root's size equal to its set's cardinality |
| Dsu.RangeSet | 2025/8/dsu/dsu.go:12 | the set 0..n-1 of elements, of cardinality n |
| Dsu.SizeSumMembers | 2025/8/dsu/dsu.go:85-93 | summing per-root set sizes counts every element below the bound once |
| Dsu.LinkState | 2025/8/dsu/dsu.go:53-64 | a link preserves the structure invariant with the count lowered by one |
| Dsu.CompressState | 2025/8/dsu/dsu.go:37-38 | path compression preserves the structure invariant |
| Dsu.SizesTotal | 2025/8/dsu/dsu.go:85-93 | a root-to-size map over all elements has exactly the roots as keys and sums to n |
| Dsu.IdentityForest | 2025/8/dsu/dsu.go:17-20 | n singleton sets satisfy the invariant with count n |
| Dsu.DSU.constructor | 2025/8/dsu/dsu.go:10-22 | NewDSU: count n, each element its own parent with size 1 and rank 0 |
| Dsu.DSU.Find | 2025/8/dsu/dsu.go:24-41 | returns x's root r with parent[r] = r; every node on x's path now points at r, all others unchanged; no element's root changes |
| Dsu.DSU.Union | 2025/8/dsu/dsu.go:43-65 | afterwards a and b share a root; elements already together change nothing; otherwise the count drops by one and the winner by rank holds the sum of both sizes |
| Dsu.DSU.Link | 2025/8/dsu/dsu.go:53-64 | the loser points at the winner, the winner's size is the sum, the count drops by one and the loser's set is relabelled |
| Dsu.DSU.Same | 2025/8/dsu/dsu.go:67-73 | true exactly when a and b have the same root (hence reflexive, symmetric and transitive) |
| Dsu.DSU.Size | 2025/8/dsu/dsu.go:75-78 | the cardinality of x's set |
| Dsu.DSU.Count | 2025/8/dsu/dsu.go:80-83 | the number of roots |
| Dsu.DSU.SetSizes | 2025/8/dsu/dsu.go:85-93 | one entry per root (Count() entries), each the size of that root's set, summing to n |
| Interval.MaxExactBound | 2025/5/interval/interval.go:47-50 | a node whose Max is exactly the largest End below it is also an upper bound for its subtree |
| Interval.MaxBoundEnds | 2025/5/interval/interval.go:8 | every interval in a subtree ends at or below the subtree's Max |
| Interval.InsertNode | 2025/5/interval/interval.go:22-51 | Insert: an empty tree becomes a leaf with Max = end and no children; otherwise the root keeps its interval and its Max becomes max(Max, end) |
| Interval.InsertIntervals | 2025/5/interval/interval.go:31-45 | the tree's intervals grow by exactly the new one |
| Interval.InsertBounds | 2025/5/interval/interval.go:33-45 | inserting below (above) a bound keeps every start below (at or above) it |
| Interval.InsertStartOrdered | 2025/5/interval/interval.go:33-45 | _insert keeps BST order on Start: smaller starts to the left, the rest to the right |
| Interval.InsertMaxExact | 2025/5/interval/interval.go:47-50 | after Insert every node's Max is the largest End in its subtree |
| Interval.Locate | 2025/5/interval/interval.go:67-79 | the node reported as overlapping is one the new interval is neither wholly left nor wholly right of |
| Interval.Bump | 2025/5/interval/interval.go:93-96 | raising Max values along the descent leaves the stored intervals unchanged |
| Interval.BumpMaxBound | 2025/5/interval/interval.go:93-96 | raising Max along a path keeps every Max an upper bound and never lowers the root's |
| Interval.BumpShape | 2025/5/interval/interval.go:93-96 | raising Max does not change the ordering of the intervals |
| Interval.GraftUnfold | 2025/5/interval/interval.go:67-78 | grafting descends left when the new interval is wholly left of the node, right otherwise |
| Interval.GraftIntervals | 2025/5/interval/interval.go:65-78 | a graft without overlap adds exactly the new interval |
| Interval.GraftCovers | 2025/5/interval/interval.go:65-78 | after a graft the covered values are the old ones plus [start,end] |
| Interval.GraftMaxBound | 2025/5/interval/interval.go:65-96 | a graft keeps Max an upper bound, the root's Max becoming max(Max, end) |
| Interval.GraftBefore | 2025/5/interval/interval.go:67-72 | a graft of an interval below a bound keeps the whole tree below it |
| Interval.GraftAfter | 2025/5/interval/interval.go:73-78 | a graft of an interval above a bound keeps the whole tree above it |
| Interval.GraftSeparated | 2025/5/interval/interval.go:65-78 | a graft keeps the stored intervals pairwise disjoint and ordered |
| Interval.InsertWithoutOverlapCovers | 2025/5/interval/interval.go:55-97 | InsertWithoutOverlap: the covered values become the old ones plus [start,end] |
| Interval.AroundCovers | 2025/5/interval/interval.go:79-90 | on overlap, inserting only the parts left and right of the overlapping node covers exactly the union |
| Interval.OverlapNodeCovered | 2025/5/interval/interval.go:79-90 | the overlapping node's own range is already covered |
| Interval.BumpCovers | 2025/5/interval/interval.go:93-96 | raising Max values does not change what is covered |
| Interval.InsertWithoutOverlapMaxBound | 2025/5/interval/interval.go:55-97 | InsertWithoutOverlap keeps Max an upper bound of every subtree |
| Interval.AroundMaxBound | 2025/5/interval/interval.go:79-90 | the left and right re-insertions keep Max an upper bound |
| Interval.InsertWithoutOverlapSeparated | 2025/5/interval/interval.go:55-97 | InsertWithoutOverlap keeps stored intervals pairwise disjoint: only parts outside the overlapping node are added |
| Interval.AroundSeparated | 2025/5/interval/interval.go:79-90 | the left and right remainders keep the intervals disjoint |
| Interval.GraftProper | 2025/5/interval/interval.go:65-78 | grafting a proper interval (start <= end) keeps every interval proper |
| Interval.BumpProper | 2025/5/interval/interval.go:93-96 | raising Max does not affect properness |
| Interval.InsertWithoutOverlapProper | 2025/5/interval/interval.go:79-90 | the remainders start-1 and end+1 are proper when the inserted interval is |
| Interval.AroundProper | 2025/5/interval/interval.go:82-89 | the left and right remainders are proper intervals |
| Interval.SearchNodes | 2025/5/interval/interval.go:106-120 | every reported node is in the tree and covers the value; an empty tree reports nothing |
| Interval.NoHitsBelowMax | 2025/5/interval/interval.go:115 | a subtree whose Max is below the value holds no hit, so skipping it loses nothing |
| Interval.SearchComplete | 2025/5/interval/interval.go:106-120 | with correct Max values, Search returns exactly the intervals that contain the value, in tree order |
| Interval.NoHitsOutside | 2025/5/interval/interval.go:67-78 | a subtree wholly below or above the value holds no hit |
| Interval.SeparatedHitsAtMostOne | 2025/5/interval/interval.go:53-54 | in a tree built without overlap, at most one interval contains any value |
| Interval.IntervalTree.constructor | 2025/5/interval/interval.go:17-19 | NewIntervalTree: an empty tree |
| Interval.IntervalTree.Insert | 2025/5/interval/interval.go:22-28 | the root becomes the tree with the interval inserted |
| Interval.IntervalTree.InsertWithoutOverlap | 2025/5/interval/interval.go:55-61 | the root becomes the tree with the non-overlapping parts inserted |
| Interval.IntervalTree.Search | 2025/5/interval/interval.go:100-104 | the result is the search of the current tree |
| PathGraph.WithNode | 2025/7/graph/graph.go:43-49 | AddNode is idempotent on an existing node and otherwise adds it with an empty adjacency list, leaving the rest unchanged |
| PathGraph.WithEdge | 2025/7/graph/graph.go:20-40 | AddEdge creates missing endpoints, records b in a's list once (appended only when absent), touches no other list, and keeps lists duplicate-free |
| PathGraph.AddEdgeIdempotent | 2025/7/graph/graph.go:34-37 | adding the same edge twice is the same as adding it once |
| PathGraph.Prefixed | 2025/7/graph/graph.go:91-93 | extends each child path by the node in front |
| PathGraph.PathCountCountsPaths | 2025/7/graph/graph.go:71-97 | the count from a node (0 if unknown, 1 at a leaf, the sum over children otherwise) is the length of the list LeafPaths builds, and every listed path is a path from that node down to a leaf (soundness; completeness and distinctness are LeafPathsExactly) |
| PathGraph.LeafPathsComplete | 2025/7/graph/graph.go:71-97 | every path from n along the edges down to a node without children is in the list: none is missed |
| PathGraph.LeafPathsDistinct | 2025/7/graph/graph.go:90-93 | when no adjacency list repeats a child, no leaf path is listed twice |
| PathGraph.ChildPathsDistinct | 2025/7/graph/graph.go:90-93 | the paths through the first k children are pairwise distinct, since paths through different children differ in their second node |
| PathGraph.LeafPathsExactly | 2025/7/graph/graph.go:71-97 | on a graph AddEdge builds (no repeated child), the count is exactly the number of distinct paths from n to a leaf: the list holds a path if and only if it is a leaf path from n, and holds it once |
| PathGraph.ChildPathsCount | 2025/7/graph/graph.go:90-93 | the running sum over the first k children counts the leaf paths through those children |
| PathGraph.Graph.constructor | 2025/7/graph/graph.go:13-17 | NewGraph: no nodes |
| PathGraph.Graph.AddNode | 2025/7/graph/graph.go:43-49 | the node map becomes WithNode of the old one |
| PathGraph.Graph.AddEdge | 2025/7/graph/graph.go:20-40 | the node map becomes WithEdge of the old one |
| PathGraph.Graph.CountPathsFrom | 2025/7/graph/graph.go:59-69 | returns the number of leaf paths from n (on an acyclic graph) |
| PathGraph.Graph.CountPathsFromMemo | 2025/7/graph/graph.go:71-97 | returns the path count and keeps the memo sound (every cached entry is the true count), only adding entries |
| Dial.MoveRight | 2025/1/main.go:113-118 | fails (the panic) exactly when current or increment exceeds 100 |
| Dial.MoveLeft | 2025/1/main.go:120-125 | fails (the panic) exactly when current or increment exceeds 100 |
| Dial.MoveOnDial | 2025/1/main.go:113-125 | from a dial position both moves succeed, stay in [0,100) and are (current ± increment) mod 100 |
| Dial.MoveRightOnDial | 2025/1/main.go:117 | MoveRight on the dial is (current + increment) mod 100 |
| Dial.MoveLeftOnDial | 2025/1/main.go:124 | MoveLeft on the dial is (current − increment) mod 100 |
| Dial.FullSpin | 2025/1/main_test.go:124-148 | a full spin of 100 either way returns the starting value |
| Dial.Undo | 2025/1/main.go:113-125 | MoveLeft by k undoes MoveRight by k |
| Dial.ParseLine | 2025/1/main.go:54-58 | a line parses exactly when it is non-empty and the rest after the direction is an integer (the empty line's index panic and Atoi's error are errors) |
| Dial.ParseAll | 2025/1/main.go:52-58 | all lines parse, in order, or the input fails |
| Dial.Turn | 2025/1/main.go:59-67 | one rotation (increment reduced mod 100, an unknown direction does nothing) keeps the position within (−100, 100) |
| Dial.Position | 2025/1/main.go:50-67 | the dial after all rotations from 50 stays within (−100, 100) |
| Dial.PositionOnDial | 2025/1/main.go:50-67 | with non-negative increments the dial stays in [0,100) |
| Dial.ParseSnoc | 2025/1/main.go:52-67 | one more parsed line extends the rotations and advances the position by one turn |
| Dial.ParseFails | 2025/1/main.go:55-58 | one unparsable line makes the whole input fail |
| Dial.TurnLine | 2025/1/main.go:53-67 | the loop body of Solve: fails exactly when the line does not parse, otherwise gives the turned position |
| Dial.Solve | 2025/1/main.go:49-75 | returns an error when some line does not parse, and otherwise the number of rotations that end on 0 |
| Dial.ClicksRightClosed | 2025/1/main.go:98-103 | the number of clicks of a right turn that point at 0, in closed form |
| Dial.ClicksLeftClosed | 2025/1/main.go:92-97 | the number of clicks of a left turn that point at 0, in closed form |
| Dial.SpinCountsClicks | 2025/1/main.go:87-108 | the corrected per-turn count equals the number of clicks that point at 0 |
| Dial.SpinRightClicks | 2025/1/main.go:98-108 | the same for right turns |
| Dial.SpinLeftClicks | 2025/1/main.go:92-108 | the same for left turns |
| Dial.SpinTerms | 2025/1/main.go:87-99 | Go's truncating division and remainder agree with Euclidean ones on non-negative increments |
| Dial.SpinAsWrittenOvercounts | 2025/1/main.go:87-108 | as written, a turn from 0 by a multiple of 100 counts one more than the clicks at 0 |
| Dial.TotalCountsClicks | 2025/1/main.go:77-111 | the corrected total counts every click that points at 0 |
| Dial.TotalCountsLandings | 2025/1/main.go:77-111 | Solve2's count is at least Solve's count of landings |
| Dial.Solve2DoubleCounts | 2025/1/main.go:87-108 | the input L50, R100 gives 3 where 2 clicks point at 0 |
| Dial.ExampleLines | 2025/1/main.go:54-55 | "L50" and "R100" parse to their rotations |
| Dial.Solve2 | 2025/1/main.go:77-111 | as written: an error on an unparsable line, otherwise the as-written total |
| Dial.Solve2Corrected | 2025/1/main.go:77-111 | the corrected loop returns the number of clicks at 0 |
| Equation.ShlIsShift | 2025/10/equation/equation.go:60 | the uint16 shift 1 << i for i below 16 is the single bit i |
| Equation.ShlBits | 2025/10/equation/equation.go:60-96 | 1 << i is a single bit inside 16 bits and 0 beyond (uint16 truncation); distinct shifts share no bit |
| Equation.SetBit | 2025/10/equation/equation.go:60-96 | or-ing in 1 << i sets bit i (when i < 16) and no other |
| Equation.XorBit | 2025/10/equation/equation.go:104 | a bit of st ^ b is set exactly when it differs between st and b |
| Equation.Inner | 2025/10/equation/equation.go:54-85 | s[1:len(s)-1] succeeds exactly for length at least 2 (shorter strings panic) and drops the two brackets |
| Equation.NewState | 2025/10/equation/equation.go:51-64 | bit j is set exactly when bracket character j is '#'; returns the content length; strings shorter than 2 are errors |
| Equation.Render | 2025/10/equation/equation.go:68-78 | String(numBits): '[', one '#' or '.' per bit by whether it is set, ']'; a negative length is an error |
| Equation.RenderNewState | 2025/10/equation/equation_test.go:32-58 | String inverts NewState on a well-formed light string of at most 16 lights |
| Equation.NewStateRender | 2025/10/equation/equation.go:51-78 | NewState reads back exactly the bits String wrote |
| Equation.PressButton | 2025/10/equation/equation.go:103-106 | the new state differs from the old by exactly the button: XOR with the button again gives the old state back, and old XOR new is the button |
| Equation.PressFlips | 2025/10/equation/equation.go:103-106 | pressing a button flips exactly the button's bits |
| Equation.PressTwice | 2025/10/equation/equation.go:103-106 | pressing a button twice restores the state |
| Equation.PressCommutes | 2025/10/equation/equation.go:103-106 | presses commute |
| Equation.PressAllInverts | 2025/10/equation/equation_test.go:41 | a button covering every light inverts the rendered state |
| Equation.Split | 2025/10/equation/equation.go:89 | strings.Split by ",": at least one piece, none containing a comma |
| Equation.FirstComma | 2025/10/equation/equation.go:89 | the position of the first comma |
| Equation.JoinSplit | 2025/10/equation/equation.go:89 | the pieces joined with commas give back the string |
| Equation.TrimSpace | 2025/10/equation/equation.go:91 | strings.TrimSpace: the result is no longer than the input and neither starts nor ends with white space (unicode.IsSpace) |
| Equation.TrimSpaceMeans | 2025/10/equation/equation.go:91 | the result is a middle slice s[i..j] of the input and everything cut off before i and after j is white space; with TrimSpace's ends, exactly the leading and trailing white space is removed |
| Equation.DigitRun | 2025/10/equation/equation.go:91 | the longest digit prefix that Sscanf %d reads |
| Equation.NewButton | 2025/10/equation/equation.go:82-100 | bit j is set exactly when j is a listed index; a negative index (a negative shift, which panics) or a string shorter than 2 is an error |
| Equation.ScanIndices | 2025/10/equation/equation.go:88-93 | the loop collects the scanned index of every comma-separated part |
| Equation.MaskOf | 2025/10/equation/equation.go:95-97 | the mask has bit j exactly when j is listed; fails exactly on a negative index |
| ButtonBfs.ReachStep | 2025/10/main.go:112-113 | pressing a button on a state reachable in k presses gives one reachable in k+1 |
| ButtonBfs.ImageCard | 2025/10/main.go:118-125 | a queue without repeats has as many distinct states as entries |
| ButtonBfs.QueueBound | 2025/10/main.go:118-125 | since each state is enqueued at most once, the queue never exceeds the 65536 uint16 states |
| ButtonBfs.FrontierClosedBelow | 2025/10/main.go:106-127 | at every point of the search, every state reachable within the current distance is already visited, and recorded distances are minimal |
| ButtonBfs.Complete | 2025/10/main.go:106-127 | once the frontier has passed distance d, every state reachable in d presses has been visited |
| ButtonBfs.Closed | 2025/10/main.go:107-127 | a visited set that contains 0 and is closed under every press contains every reachable state |
| ButtonBfs.FrontierInit | 2025/10/main.go:95-104 | the start state 0 at distance 0 is a valid initial frontier |
| ButtonBfs.NextShortest | 2025/10/main.go:113-122 | an unvisited successor, and the target when met, lie at the current distance plus one and no closer |
| ButtonBfs.FrontierAppend | 2025/10/main.go:119-125 | enqueueing an unvisited successor with distance + 1 keeps the search invariant |
| ButtonBfs.LayeredAppend | 2025/10/main.go:122-124 | appending a state at the largest distance so far keeps distances shortest and non-decreasing along the queue |
| ButtonBfs.ExpandedAppend | 2025/10/main.go:119-125 | states already expanded stay expanded when the queue grows |
| ButtonBfs.FrontierAdvance | 2025/10/main.go:109-112 | once every button has been tried on the head state, the head can advance |
| ButtonBfs.MinButtonPressesBfs | 2025/10/main.go:84-130 | returns 0 for the all-zero target, otherwise the minimum number of presses whose XOR is the target, or an error exactly when no number of presses reaches it |
| ButtonBfs.Expand | 2025/10/main.go:109-126 | tries every button on the head state: either the target is found at the shortest distance or the head advances with the invariant kept |
| ButtonBfs.Press | 2025/10/main.go:113-125 | one button on the head state: the target ends the search at its shortest distance, an unvisited state is enqueued once |
| ButtonBfs.Exhausted | 2025/10/main.go:107-129 | an exhausted queue without the target means the target is unreachable |
| ButtonBfs.DistinctAppend | 2025/10/main.go:118-125 | enqueueing only unvisited states keeps the queue free of repeats and the visited set its image |
| IntSolver.DotAppend | 2025/10/main.go:499-521 | a row's weighted sum over two column lists is the sum of the two parts |
| IntSolver.DotAgree | 2025/10/main.go:499-521 | the weighted sum only reads the listed columns |
| IntSolver.DotPerm | 2025/10/main.go:493-521 | the weighted sum does not depend on the order of the columns |
| IntSolver.DotOnes | 2025/10/main.go:233-236 | with unit weights the sum over the first k columns is the sum of the first k entries |
| IntSolver.Matrix | 2025/10/main.go:206-221 | A has one row per voltage index and one column per button, A[i][j] = 1 exactly when bit i of button j is set, else 0 |
| IntSolver.BuildSystem | 2025/10/main.go:205-224 | the loops build exactly that matrix and copy the voltages into V |
| IntSolver.RowErrorNone | 2025/10/main.go:437-441 | no row error exactly when every row from i on has length n |
| IntSolver.ShapeErrorNone | 2025/10/main.go:429-441 | the system is accepted exactly when it is non-empty, v has one entry per row and every row has the first row's length |
| IntSolver.CheckShape | 2025/10/main.go:429-441 | returns the empty-system, dimension-mismatch or row-length error the checks describe, in that order |
| IntSolver.UbFoldMin | 2025/10/main.go:446-453 | the running minimum over the first k rows is −1 exactly when column j touches none of them, otherwise the least v[i] over the rows it touches |
| IntSolver.UbIsMin | 2025/10/main.go:443-459 | ub[j] is the minimum v[i] over the rows column j touches, or 0 when it touches none |
| IntSolver.SolutionWithinUb | 2025/10/main.go:443-459 | every non-negative solution keeps x[j] within each v[i] of a row j touches, so the bound loses no solution |
| IntSolver.DotNonNegative | 2025/10/main.go:499-521 | a 0/1-weighted sum of non-negative entries is non-negative |
| IntSolver.UpperBounds | 2025/10/main.go:443-459 | the loop computes ub[j] for every column |
| IntSolver.Degree | 2025/10/main.go:471-477 | a column touches at most as many rows as there are |
| IntSolver.VarInfos | 2025/10/main.go:470-479 | one record per column with its index, bound and degree |
| IntSolver.Insert | 2025/10/main.go:481-491 | inserting into the ordered records adds one element, placed first or behind the old first |
| IntSolver.InsertSorted | 2025/10/main.go:481-491 | inserting keeps the records ordered by ub, then higher degree, then index |
| IntSolver.SortVarsSorted | 2025/10/main.go:481-491 | the variable order is sorted by that comparison |
| IntSolver.InsertPerm | 2025/10/main.go:481-491 | insertion adds exactly the one record |
| IntSolver.SortVarsPerm | 2025/10/main.go:481-491 | sorting is a permutation of the records |
| IntSolver.SortVarsIdxs | 2025/10/main.go:493-497 | the sorted indices are a permutation of the original indices |
| IntSolver.OrderOf | 2025/10/main.go:493-497 | order[d] is the index of the d-th sorted record |
| IntSolver.PermutationOf | 2025/10/main.go:493-497 | a list of n indices with the multiset of 0..n-1 lists every variable once |
| IntSolver.InPermutation | 2025/10/main.go:493-497 | every variable is assigned at some depth |
| IntSolver.RowMaxBound | 2025/10/main.go:499-521 | with every x[j] within ub[j], a row's remaining sum lies between 0 and the precomputed maximum |
| IntSolver.RowMaxRemaining | 2025/10/main.go:499-521 | rowMaxRemainingDFS[d][i] is the sum of ub over the variables at depths d.. that row i touches, 0 at depth n |
| IntSolver.TracksFrame | 2025/10/main.go:524-525 | the row sums depend only on the variables already assigned |
| IntSolver.TracksStep | 2025/10/main.go:575-596 | assigning x_j = xj at depth d and adding it to the rows j touches keeps rowSums and currentSum equal to the partial products |
| IntSolver.TracksSolution | 2025/10/main.go:535-545 | when every row sum matches v at full depth, the assignment is a solution and currentSum is its sum |
| IntSolver.Searcher.constructor | 2025/10/main.go:523-529 | the DFS state starts with zero row sums, zero assignment and no best |
| IntSolver.Searcher.Matches | 2025/10/main.go:536-540 | true exactly when every row sum equals v |
| IntSolver.Searcher.InReach | 2025/10/main.go:551-559 | true exactly when no row overshoots and every row can still reach its target with the remaining variables |
| IntSolver.Searcher.MaxValue | 2025/10/main.go:561-573 | fails exactly when a row j touches has overshot; otherwise maxX is the least of ub[j] and the remaining capacities of the rows j touches |
| IntSolver.Searcher.AddColumn | 2025/10/main.go:582-592 | adds xj to each row j touches; valid exactly when none of them overshoots |
| IntSolver.Searcher.SubColumn | 2025/10/main.go:599-606 | takes xj back out of each row j touches |
| IntSolver.Searcher.Dfs | 2025/10/main.go:533-608 | restores the row sums and the assignments above depth d; every recorded solution solves the system; the best total never grows, and every within-bounds solution that extends the assignments above depth d ends up no better than the best found |
| IntSolver.Searcher.Leaf | 2025/10/main.go:535-546 | at full depth a state whose rows all hit their targets is recorded and kept when it beats the best, so the one solution that extends the full assignment is no better than the best |
| IntSolver.Searcher.Branch | 2025/10/main.go:549-607 | one depth of the search: restores the row sums and the earlier assignments; every value a within-bounds solution can give column order[d] is at most maxX, and each is either tried or skipped because it cannot beat the best, so no such solution beats the best afterwards |
| IntSolver.Searcher.Try | 2025/10/main.go:575-606 | one candidate value: adds it, recurses when valid and undoes the addition; no within-bounds solution with that value at column order[d] beats the best afterwards |
| IntSolver.Searcher.Explore | 2025/10/main.go:594-597 | recurses when the value overshot no row; when it did, no solution takes that value there |
| IntSolver.Searcher.Descend | 2025/10/main.go:594-597 | records x_j and recurses one level deeper, covering every within-bounds solution with that value at column order[d] |
| IntSolver.SplitAt | 2025/10/main.go:524-525 | for any vector agreeing with the assigned columns, each row total and the total are the tracked partial sums plus the unassigned part |
| IntSolver.AtFullDepth | 2025/10/main.go:535-545 | at full depth a solution agreeing with the state makes every row sum match v and has total currentSum |
| IntSolver.OutOfReach | 2025/10/main.go:551-559 | the early feasibility check only prunes states that no within-bounds solution extends |
| IntSolver.WithinCap | 2025/10/main.go:561-573 | every within-bounds solution extending the state gives column order[d] a value no larger than maxX, and has a total at least currentSum plus that value, so the bound check at line 577 skips nothing better |
| IntSolver.Overshoot | 2025/10/main.go:582-592 | a value that overshoots a row the column touches is taken by no solution extending the state |
| IntSolver.TrimCandidate | 2025/10/main.go:443-459 | every solution is matched by one within the bounds ub and with no larger total (columns touching no row drop to 0), so searching only within the bounds loses no optimum |
| IntSolver.StepAgree | 2025/10/main.go:594-597 | assignments made below depth d leave those above it unchanged |
| IntSolver.Prepare | 2025/10/main.go:443-521 | computes the bounds, the sorted variable order (a permutation) and the remaining-capacity table |
| IntSolver.SolveSystem | 2025/10/main.go:422-617 | a malformed system returns its shape error; otherwise the result is an error only when A·x = v has no non-negative integer solution at all, and a returned x is such a solution whose sum is no larger than that of any other solution |
| IntSolver.Search | 2025/10/main.go:523-617 | once the preparation is done: an error exactly when no solution was recorded, and otherwise a recorded solution no worse than any solution within the bounds |
| IntSolver.MinButtonPressesVoltage | 2025/10/main.go:201-239 | a result is the press total of a non-negative press vector whose button sums match the voltages, and no other such vector has fewer presses; with at least one voltage the result is an error only when no press vector matches; an empty voltage list is the empty-system error; every error is wrapped with the "no integer solution" prefix |
| IntSolver.Total | 2025/10/main.go:233-236 | the loop's total is the sum of the presses |
| Opcode.Code | 2024/day17/internal/day17/opcode.go:13-31 | every instruction has a three-bit opcode 0..7 |
| Opcode.GetInstruction | 2024/day17/internal/day17/opcode.go:13-33 | succeeds exactly on 0..7, each mapped to the instruction with that opcode (adv..cdv); anything else is an error |
| Opcode.GetInstructionCode | 2024/day17/internal/day17/opcode.go:13-31 | decoding an instruction's opcode gives the instruction back |
| Opcode.Pow2 | 2024/day17/internal/day17/opcode.go:41 | big.Int Exp(2, y) is at least 1 (it is 1 for y <= 0) and at least 2 for y >= 1 |
| Opcode.XorHalf | 2024/day17/internal/day17/opcode.go:50-79 | bitwise XOR works bit by bit: halving commutes with it and its low bit is the XOR of the low bits |
| Opcode.NatXorTwice | 2024/day17/internal/day17/opcode.go:50-79 | XOR-ing twice with the same non-negative value restores it |
| Opcode.XorTwice | 2024/day17/internal/day17/opcode.go:50-79 | big.Int Xor (two's complement on negatives) applied twice with the same value restores it |
| Opcode.Step | 2024/day17/internal/day17/opcode.go:35-120 | an instruction fails exactly when it uses a combo operand and the operand is outside 0..6 (operand 7 is reserved); otherwise the program is unchanged and output only grows |
| Opcode.DvShareQuotient | 2024/day17/internal/day17/opcode.go:35-120 | adv, bdv and cdv succeed together and store the same quotient A div 2^combo in A, B or C; bdv and cdv leave A unchanged |
| Opcode.AdvShrinks | 2024/day17/internal/day17/opcode.go:35-46 | adv never grows a non-negative A and strictly shrinks a positive A when the shift is positive |
| Opcode.BxlTwice | 2024/day17/internal/day17/opcode.go:48-54 | bxl with the same literal twice restores B |
| Opcode.BxcIgnoresOperand | 2024/day17/internal/day17/opcode.go:76-83 | bxc sets B to B xor C whatever its operand |
| Opcode.BstOutAgree | 2024/day17/internal/day17/opcode.go:56-94 | bst and out succeed together; bst stores combo mod 8 (in 0..7) in B and out emits that same value |
| Opcode.JnzOnlyJumps | 2024/day17/internal/day17/opcode.go:67-74 | jnz changes only the pointer: ip + 2 when A is 0, the operand otherwise |
| Opcode.Run | 2024/day17/internal/day17/opcode_test.go:301-315 | a run that halts leaves the program unchanged, stops with the pointer past the end and only appends output |
| Opcode.ExampleBst | 2024/day17/internal/day17/opcode_test.go:252-261 | with C = 9, the program 2,6 sets B to 1 |
| Opcode.ExampleBxl | 2024/day17/internal/day17/opcode_test.go:262-271 | with B = 29, the program 1,7 sets B to 26 |
| Opcode.ExampleBxc | 2024/day17/internal/day17/opcode_test.go:272-281 | with B = 2024 and C = 43690, the program 4,0 sets B to 44354 |
| Opcode.CountdownRuns | 2024/day17/internal/day17/opcode_test.go:282-291 | the program 0,1,5,4,3,0 from any A halves A until 0, printing each half mod 8 |
| Opcode.CountdownOutput2024 | 2024/day17/internal/day17/opcode_test.go:282-291 | from A = 2024 the printed values are 4,2,5,6,7,7,7,7,3,1,0 |
| Opcode.ExampleCountdown | 2024/day17/internal/day17/opcode_test.go:282-291 | with A = 2024 the program 0,1,5,4,3,0 outputs 4,2,5,6,7,7,7,7,3,1,0 and leaves A = 0 |
| Opcode.ExecAdv | 2024/day17/internal/day17/opcode.go:35-46 | adv on the computer: the state changes as AdvStep says, and nothing changes on error |
| Opcode.ExecBxl | 2024/day17/internal/day17/opcode.go:48-54 | bxl on the computer as BxlStep says |
| Opcode.ExecBst | 2024/day17/internal/day17/opcode.go:56-65 | bst on the computer as BstStep says |
| Opcode.ExecJnz | 2024/day17/internal/day17/opcode.go:67-74 | jnz on the computer as JnzStep says |
| Opcode.ExecBxc | 2024/day17/internal/day17/opcode.go:76-83 | bxc on the computer as BxcStep says |
| Opcode.ExecOut | 2024/day17/internal/day17/opcode.go:85-94 | out on the computer: the value is sent on the output as OutStep says |
| Opcode.ExecBdv | 2024/day17/internal/day17/opcode.go:96-107 | bdv on the computer as BdvStep says |
| Opcode.ExecCdv | 2024/day17/internal/day17/opcode.go:109-120 | cdv on the computer as CdvStep says |
| Opcode.Execute | 2024/day17/internal/day17/opcode.go:13-120 | the decoded instruction's function applied to the computer, as Step says |
| Computer.CheckOpcodesValid | 2024/day17/internal/day17/computer.go:39-43 | the check passes exactly when every opcode is in 0..7 |
| Computer.Combo | 2024/day17/internal/day17/computer.go:48-62 | succeeds exactly for operands 0..6 (7 is reserved, others invalid) |
| Computer.ComboReads | 2024/day17/internal/day17/computer.go:48-62 | operands 0..3 are literal, 4, 5 and 6 read A, B and C |
| Computer.Computer.constructor | 2024/day17/internal/day17/computer.go:22-31 | NewComputer: empty program, ip 0, A = B = C = 0, nothing output |
| Computer.Computer.GetOpcodes | 2024/day17/internal/day17/computer.go:34-36 | returns the program |
| Computer.Computer.SetOpcodes | 2024/day17/internal/day17/computer.go:38-46 | rejects any opcode outside 0..7 before changing anything; otherwise appends to the existing program |
| Computer.Computer.GetComboOperand | 2024/day17/internal/day17/computer.go:48-62 | returns the combo operand of the current state |
| Computer.Computer.GetInstructionPointer | 2024/day17/internal/day17/computer.go:65-67 | returns the instruction pointer |
| Computer.Computer.SetInstructionPointer | 2024/day17/internal/day17/computer.go:69-71 | sets only the pointer, so reading it back gives the value |
| Computer.Computer.GetRegisterA | 2024/day17/internal/day17/computer.go:74-76 | returns A |
| Computer.Computer.GetRegisterB | 2024/day17/internal/day17/computer.go:77-79 | returns B |
| Computer.Computer.GetRegisterC | 2024/day17/internal/day17/computer.go:80-82 | returns C |
| Computer.Computer.SetRegisterA | 2024/day17/internal/day17/computer.go:85-87 | sets only A, so reading it back gives the value |
| Computer.Computer.SetRegisterB | 2024/day17/internal/day17/computer.go:88-90 | sets only B |
| Computer.Computer.SetRegisterC | 2024/day17/internal/day17/computer.go:91-93 | sets only C |
| Computer.Computer.Send | 2024/day17/internal/day17/opcode.go:91 | a value sent on the output channel is appended to the output |
| DiskMaps.ScanRuns | 2024/day9/internal/diskmap.go:235-255 | the scan from any point of the loop yields ascending maximal free runs covering every free block after that point |
| DiskMaps.ScanEnd | 2024/day9/internal/diskmap.go:251-255 | after the last block the open run, if any, is emitted as a maximal run |
| DiskMaps.ScanFree | 2024/day9/internal/diskmap.go:236-241 | a free block starts or extends the current run |
| DiskMaps.ScanTaken | 2024/day9/internal/diskmap.go:242-249 | an occupied block closes the current run, which is then maximal |
| DiskMaps.ClosedRun | 2024/day9/internal/diskmap.go:242-249 | a run closed by an occupied block and preceded by one (or block 0) is maximal and precedes the later runs |
| DiskMaps.RunsMeet | 2024/day9/internal/diskmap.go:221-258 | two maximal free runs that share a block are the same run |
| DiskMaps.FreeSpansAreRuns | 2024/day9/internal/diskmap.go:221-258 | findFreeSpans returns exactly the maximal free runs in [0, maxBlock], in ascending start order, covering every free block |
| DiskMaps.FirstFitIndex | 2024/day9/internal/diskmap.go:171-177 | the index of the first span with room for size blocks, every earlier one too small |
| DiskMaps.MinOf | 2024/day9/internal/diskmap.go:180-186 | the lowest block of the file |
| DiskMaps.Range | 2024/day9/internal/diskmap.go:195-199 | the targets are size consecutive blocks from the span's start |
| DiskMaps.FitIsFree | 2024/day9/internal/diskmap.go:195-199 | the first size blocks of a maximal free run with room are free and on the disk |
| DiskMaps.MaxOf | 2024/day9/internal/diskmap.go:144-149 | the largest element of a non-empty set |
| DiskMaps.MaxBlockOf | 2024/day9/internal/diskmap.go:223-228 | the largest occupied block, or 0 when nothing is occupied |
| DiskMaps.MaxBlockUnique | 2024/day9/internal/diskmap.go:223-228 | the maximum block is uniquely determined |
| DiskMaps.Descending | 2024/day9/internal/diskmap.go:144-149 | the file IDs in visiting order contain only IDs of the set |
| DiskMaps.DescendingMembers | 2024/day9/internal/diskmap.go:144-149 | every file ID is visited exactly once |
| DiskMaps.DescendingOrder | 2024/day9/internal/diskmap.go:144-149 | Compact visits files by strictly decreasing ID |
| DiskMaps.DescendingBelow | 2024/day9/internal/diskmap.go:144-149 | a bound on the set bounds every visited ID |
| DiskMaps.PrependLarger | 2024/day9/internal/diskmap.go:144-149 | putting a larger ID in front keeps the order decreasing |
| DiskMaps.Claim | 2024/day9/internal/diskmap.go:45-51 | after claiming, each listed block belongs to the file and every other block keeps its owner |
| DiskMaps.Release | 2024/day9/internal/diskmap.go:277-279 | after releasing, the listed blocks are free and every other block keeps its owner |
| DiskMaps.ClaimStep | 2024/day9/internal/diskmap.go:45-51 | claiming one more block updates exactly that block |
| DiskMaps.ReleaseStep | 2024/day9/internal/diskmap.go:277-279 | releasing one more block frees exactly that block |
| DiskMaps.FirstClash | 2024/day9/internal/diskmap.go:45-48 | the position of the first block AddFile finds already owned, every earlier one free |
| DiskMaps.ClashFrom | 2024/day9/internal/diskmap.go:45-48 | the same search from position i |
| DiskMaps.NoClash | 2024/day9/internal/diskmap.go:45-51 | AddFile meets no clash exactly when the blocks are pairwise distinct and none is owned |
| DiskMaps.AddedConsistent | 2024/day9/internal/diskmap.go:35-53 | adding a new file whose blocks are free and distinct keeps the three maps consistent |
| DiskMaps.MovedConsistent | 2024/day9/internal/diskmap.go:262-290 | moving a file to as many distinct free blocks keeps the three maps consistent |
| DiskMaps.AnyFile | 2024/day9/internal/diskmap.go:91 | picks some file of a non-empty map |
| DiskMaps.ChecksumAny | 2024/day9/internal/diskmap.go:88-101 | the checksum does not depend on the order files are visited: any file can be taken out first |
| DiskMaps.TargetsFree | 2024/day9/internal/diskmap.go:195-205 | the blocks Compact picks from a free span with room are distinct and unowned, so moveFile cannot refuse them |
| DiskMaps.CompactStep | 2024/day9/internal/diskmap.go:152-206 | one file's turn of Compact keeps the maps consistent and every file size |
| DiskMaps.CompactAll | 2024/day9/internal/diskmap.go:152-206 | the whole pass keeps the maps consistent, every file present and every file's block count (its size) |
| DiskMaps.CompactAllNext | 2024/day9/internal/diskmap.go:152-206 | the pass over the first i+1 files is one more step after the first i |
| DiskMaps.CompactStepMoves | 2024/day9/internal/diskmap.go:152-206 | a file moves exactly when it is not empty and the leftmost free run with room lies left of its lowest block, and then it moves to that run's first blocks |
| DiskMaps.StepMovesToRoom | 2024/day9/internal/diskmap.go:165-205 | when a file moves, it moves into the leftmost fitting run left of its lowest block |
| DiskMaps.RoomMakesStep | 2024/day9/internal/diskmap.go:165-205 | when such a run exists, the file moves |
| DiskMaps.FirstFitRoom | 2024/day9/internal/diskmap.go:171-177 | the first span with room among ascending maximal runs is the leftmost run with room |
| DiskMaps.RoomIsFirstFit | 2024/day9/internal/diskmap.go:171-177 | conversely, the leftmost run with room is the span the search finds |
| DiskMaps.EarlierStart | 2024/day9/internal/diskmap.go:158-163 | in ascending spans an earlier position means a smaller start and the other way round |
| DiskMaps.DiskMap.constructor | 2024/day9/internal/diskmap.go:26-32 | NewDiskMap: empty maps, checksum 0, consistent |
| DiskMaps.DiskMap.AddFile | 2024/day9/internal/diskmap.go:35-53 | an existing ID fails and changes nothing; otherwise the file is recorded and its blocks claimed up to the first owned one, failing exactly when some block clashes; success keeps the maps consistent |
| DiskMaps.DiskMap.MoveFile | 2024/day9/internal/diskmap.go:262-290 | succeeds exactly when the file exists and every target is free; failure changes nothing; success frees the old blocks and assigns the new ones |
| DiskMaps.DiskMap.UpdateChecksum | 2024/day9/internal/diskmap.go:88-101 | stores and returns the sum of fileID × block over every file's blocks; nothing else changes |
| DiskMaps.DiskMap.MaxBlock | 2024/day9/internal/diskmap.go:223-228 | the largest occupied block (0 when none) |
| DiskMaps.DiskMap.FindFreeSpans | 2024/day9/internal/diskmap.go:221-258 | the free spans of the current disk up to its maximum block |
| DiskMaps.DiskMap.CompactOne | 2024/day9/internal/diskmap.go:152-206 | one iteration of Compact's loop is one CompactStep |
| DiskMaps.DiskMap.Compact | 2024/day9/internal/diskmap.go:138-212 | an empty disk is left alone; otherwise files are compacted by decreasing ID and the checksum is updated; consistency and every file's size are preserved |
| DiskMaps.ClaimBlocks | 2024/day9/internal/diskmap.go:45-51 | the ownership map after the claiming loop, which stops at the first clash |
| DiskMaps.FindFit | 2024/day9/internal/diskmap.go:171-177 | the first span with room, if any |
| DiskMaps.SmallestBlock | 2024/day9/internal/diskmap.go:180-186 | the file's lowest block |
| DiskMaps.Consecutive | 2024/day9/internal/diskmap.go:195-199 | the size consecutive target blocks |
| DiskMaps.Largest | 2024/day9/internal/diskmap.go:223-228 | the largest element of a non-empty set |
| DiskMaps.SortedDescending | 2024/day9/internal/diskmap.go:144-149 | the file IDs sorted in decreasing order |
| InvalidIds.StripPadding | 2025/2/main.go:63-74 | succeeds (does not panic) exactly when strconv.Atoi accepts the string |
| InvalidIds.StripPaddingDigits | 2025/2/main_test.go:177-213 | on a digit string in int64 range the result is the digits without leading zeros, "0" for all zeros, and canonical |
| InvalidIds.StripPaddingTwice | 2025/2/main.go:63-74 | stripping an already stripped ID changes nothing |
| InvalidIds.Repeat | 2025/2/main.go:217-225 | a block written k times has k times its length |
| InvalidIds.RepeatAt | 2025/2/main.go:217-225 | character i of a repeated block is the block's character i mod its length |
| InvalidIds.RepeatsWithBlock | 2025/2/main.go:217-225 | a string of length divisible by size with r[i] = r[i mod size] is its first block repeated |
| InvalidIds.BlockRepeatsWith | 2025/2/main.go:217-225 | a repeated block satisfies r[i] = r[i mod size] |
| InvalidIds.IsRepeatedPattern | 2025/2/main.go:218-225 | true exactly when r[i] = r[i mod size] for every i |
| InvalidIds.IsAllZeros | 2025/2/main.go:208-215 | true exactly when the string is non-empty and every character is '0' |
| InvalidIds.IsInvalidId | 2025/2/main.go:176-206 | true exactly when the length is at least 2, the ID is not all zeros, and some chunk size at most half the length divides it and repeats to form the whole |
| InvalidIds.InvalidRepeats | 2025/2/main.go:189-205 | an invalid ID is some block repeated at least twice |
| InvalidIds.RepetitionInvalid | 2025/2/main.go:189-205 | a block repeated at least twice that is not all zeros is invalid |
| InvalidIds.InvalidIsRepetition | 2025/2/main.go:176-206 | invalid exactly when not all zeros and a repetition of a shorter block (so false below length 2 and for all zeros) |
| InvalidIds.ValsAppend | 2025/2/main.go:269-283 | the values of a list grow by the appended entry's value |
| InvalidIds.InvalidAtLeastTen | 2025/2/main.go:179-181 | an invalid number has at least two digits |
| InvalidIds.InvalidsBelowListed | 2025/2/main.go:155-160 | every ID the loop collects is canonical, invalid, and in range |
| InvalidIds.InvalidsBelowAscending | 2025/2/main.go:155-160 | the collected IDs strictly increase |
| InvalidIds.InvalidsBelowHas | 2025/2/main.go:155-160 | every invalid number of the range is collected |
| InvalidIds.InvalidsInMeans | 2025/2/main.go:151-174 | CheckSpan2's result is ascending (hence unique), lies in [start, end], is at least 10, and holds every invalid ID of the span |
| InvalidIds.LimitedMeans | 2025/2/main.go:255-267 | limitMinMax keeps exactly the entries with value in [sNum, eNum] and at least 10 |
| InvalidIds.LimitedAll | 2025/2/main.go:255-267 | a list already in range is returned unchanged |
| InvalidIds.LimitMinMax | 2025/2/main.go:255-267 | the loop computes the limited list |
| InvalidIds.DedupedMeans | 2025/2/main.go:269-283 | dedupeRuneSlices keeps the same set of values, takes only entries of the input, and no two kept entries have the same value |
| InvalidIds.DedupedAscending | 2025/2/main.go:269-283 | an ascending list has nothing to remove |
| InvalidIds.DedupeRuneSlices | 2025/2/main.go:269-283 | the loop computes the deduplicated list |
| InvalidIds.CleanupKeeps | 2025/2/main.go:162-173 | limiting, deduplicating and sorting the collected IDs leaves them unchanged |
| InvalidIds.CheckSpan2 | 2025/2/main.go:151-174 | returns exactly the invalid IDs of the span in ascending order |
| InvalidIds.ShiftedIsProduct | 2025/2/main.go:135 | writing h's digits after x is x × 10^k + h |
| InvalidIds.DoubleValue | 2025/2/main.go:135 | "%d%d" of h and h is the numeral of h × 10^digits(h) + h |
| InvalidIds.DoubleBounds | 2025/2/main.go:101-104 | a doubled number has an even number of digits, twice those of its half |
| InvalidIds.DoubledIsInvalid | 2025/2/main.go:135 | every doubled number is an invalid ID in the sense of IsInvalidId |
| InvalidIds.DoubleMono | 2025/2/main.go:134-137 | doubling is strictly increasing in the half |
| InvalidIds.SelSame | 2025/2/main.go:139-145 | the filter only depends on which doubled values lie in range |
| InvalidIds.SelDropFront | 2025/2/main.go:134-145 | halves whose doubles are out of range can be dropped from the front |
| InvalidIds.SelDropBack | 2025/2/main.go:134-145 | halves whose doubles are out of range can be dropped from the back |
| InvalidIds.SelSound | 2025/2/main.go:134-145 | every kept entry is some half written twice, with value in [sNum, eNum] |
| InvalidIds.SelComplete | 2025/2/main.go:134-145 | every half in range whose double is in range is kept |
| InvalidIds.SelAscending | 2025/2/main.go:134-145 | the kept entries strictly increase |
| InvalidIds.DoublesInMeans | 2025/2/main_test.go:110-142 | the doubled IDs of a span: exactly the numbers XX in [start, end], ascending |
| InvalidIds.NextEvenFacts | 2025/2/main.go:107-110 | the raised start is at least the start, at least 10, and has an even digit count |
| InvalidIds.NextEvenCmp | 2025/2/main.go:107-110 | raising the start loses no number with an even digit count |
| InvalidIds.PrevEvenFacts | 2025/2/main.go:114-117 | the lowered end is at most the end; it is −1 exactly when the end has one digit, and otherwise has an even digit count and is at least 10 |
| InvalidIds.PrevEvenCmp | 2025/2/main.go:114-117 | lowering the end loses no number with an even digit count |
| InvalidIds.SplitHalves | 2025/2/main.go:120-129 | the left half of an even-length numeral is a numeral and bounds the number |
| InvalidIds.HalfAbove | 2025/2/main.go:121-128 | a double at or above the start has a half at least the start's left half |
| InvalidIds.HalfBelow | 2025/2/main.go:124-129 | a double at or below the end has a half at most the end's left half |
| InvalidIds.OddNoDouble | 2025/2/main.go:101-104 | no doubled number lies between two numbers with the same odd digit count |
| InvalidIds.OddSpan | 2025/2/main.go:101-104 | a span whose ends share an odd length has no doubled IDs |
| InvalidIds.DoubleInMoved | 2025/2/main.go:106-118 | a doubled number lies in the moved span exactly when it lies in [start, end] |
| InvalidIds.HalvesOutside | 2025/2/main.go:120-137 | the half of every doubled number in the span lies between the two left halves |
| InvalidIds.HalvesCover | 2025/2/main.go:120-145 | enumerating the halves between the left halves and filtering gives the doubled IDs of the span |
| InvalidIds.LeftHalves | 2025/2/main.go:106-145 | the left halves exist unless the end has one digit (the panic), and then the enumeration gives the doubled IDs of the span |
| InvalidIds.IncStep | 2025/2/main.go:108-110 | each increment keeps the raising loop below its result |
| InvalidIds.DecStep | 2025/2/main.go:115-117 | each decrement keeps the lowering loop above its result |
| InvalidIds.RaiseToEvenLength | 2025/2/main.go:106-111 | the loop stops at the first number from the start with an even digit count |
| InvalidIds.LowerToEvenLength | 2025/2/main.go:113-118 | the loop stops at the last number down from the end with an even digit count (−1 after a one-digit end) |
| InvalidIds.PossibleDoubles | 2025/2/main.go:133-137 | one candidate per half from sLeft to eLeft, each the half written twice |
| InvalidIds.KeepDoubles | 2025/2/main.go:139-145 | keeps exactly the candidates with value in [sNum, eNum] |
| InvalidIds.CheckSpan | 2025/2/main.go:100-148 | panics (None) exactly when the end has one digit and the start does not; otherwise returns exactly the doubled numbers XX inside [start, end], ascending |
| Joltage.ParseLine | 2025/3/main.go:48-58 | succeeds exactly when every character is a decimal digit (the source panics otherwise), and then yields one digit value per character |
| Joltage.DigitsToInt | 2025/3/main.go:172-178 | folds the digits base 10, most significant first |
| Joltage.ValueParsed | 2025/3/main.go:172-178 | folding the parsed digits of a numeral gives its decimal value |
| Joltage.ValueBound | 2025/3/main.go:172-178 | the fold of k single digits lies in [0, 10^k) |
| Joltage.MaxOf | 2025/3/main.go:93-94 | the largest entry: it occurs and no entry exceeds it |
| Joltage.BestPairAbove | 2025/3/main.go:78-109 | no pair of positions a < b beats the best pair's two-digit joltage |
| Joltage.BestPairAttained | 2025/3/main.go:78-109 | the best pair's joltage is reached by some positions a < b |
| Joltage.ValuePair | 2025/3/main.go:172-178 | the fold of two digits is 10 × first + second |
| Joltage.PairOrder | 2025/3/main.go:93-101 | a larger tens digit, or an equal one with a larger units digit, gives the larger joltage |
| Joltage.FindLargestPair | 2025/3/main.go:78-109 | nothing for fewer than two batteries; otherwise two batteries in bank order whose joltage is at least that of every pair, i.e. the maximum |
| Joltage.TotalPairsBound | 2025/3/main.go:60-67 | part one's total lies in [0, 99 × banks] |
| Joltage.Solve1 | 2025/3/main.go:60-67 | the total is the sum of every bank's largest two-battery joltage, printed in decimal |
| Joltage.LeftMaxIsMax | 2025/3/main.go:132-134 | the position a scan that moves only on a strictly larger digit settles on holds a largest digit of its window, and every earlier position in the window holds a smaller one |
| Joltage.LeftMaxAt | 2025/3/main.go:132-134 | the same fact for one position of the window |
| Joltage.GreedyPicked | 2025/3/main.go:111-164 | the reference choice of k batteries (the first largest digit that leaves room for k − 1 more, then the same after it) lists positions in increasing order, so its digits are a subsequence of the bank |
| Joltage.ValueHead | 2025/3/main.go:172-178 | the leading digit of a fold weighs 10 to the number of digits after it |
| Joltage.AscendingRoom | 2025/3/main.go:149 | k increasing positions below n start no later than n − k |
| Joltage.AscendingTail | 2025/3/main.go:149 | the positions after the first of an increasing list are increasing and lie after it |
| Joltage.LexValue | 2025/3/main.go:172-178 | for digit strings of equal length the lexicographic order is the order of their folded values |
| Joltage.FoldCompare | 2025/3/main.go:172-178 | a smaller leading digit, or an equal one and a smaller rest, folds to no more |
| Joltage.LeadWins | 2025/3/main.go:172-178 | a smaller leading digit loses whatever the other digits are |
| Joltage.GreedyBest | 2025/3/main.go:111-164 | no k batteries taken in bank order from a position on spell digits lexicographically after the reference choice |
| Joltage.LexStep | 2025/3/main.go:111-164 | a competitor with a smaller first digit, or an equal one and a rest no later than the reference rest, is no later than the reference choice |
| Joltage.ChosenTail | 2025/3/main.go:160-163 | the digits after the first position are the digits at the remaining positions |
| Joltage.GreedyUnfold | 2025/3/main.go:111-164 | the reference choice is its first position followed by the reference choice after it |
| Joltage.ChosenCons | 2025/3/main.go:160-163 | the reference digits are the first chosen digit followed by the reference digits after it |
| Joltage.WipePointers | 2025/3/main.go:166-170 | every pointer from start on becomes -1 and the rest keep their values |
| Joltage.KeepMax | 2025/3/main.go:126-156 | scanning one more position leaves a window's first largest digit in place unless that position enters the window with a larger digit |
| Joltage.TakeMax | 2025/3/main.go:126-156 | a position that enters an empty window, or beats the window's largest digit, becomes the window's first largest digit |
| Joltage.Restarted | 2025/3/main.go:132-134 | moving pointer 0 to a larger digit and wiping the rest restarts the tracking with one pointer |
| Joltage.Shifted | 2025/3/main.go:143-153 | placing the position into pointer j, after the earlier pointers kept their digits, and wiping the pointers after it keeps the tracking invariant |
| Joltage.WindowsTail | 2025/3/main.go:111-164 | when every pointer holds the first largest digit of its window, so do the pointers after the first, for the bank after it |
| Joltage.GreedyMatches | 2025/3/main.go:111-164 | pointers that each hold the first largest digit of their final window are exactly the reference choice |
| Joltage.KeptFirst | 2025/3/main.go:132-135 | pointer 0 keeps its digit when the scan does not move it |
| Joltage.KeptStep | 2025/3/main.go:137-154 | a later pointer keeps its digit when the position does not beat it or comes too late for it |
| Joltage.KeptAll | 2025/3/main.go:137-154 | when no pointer takes the position, the slice still tracks the scan one position later |
| Joltage.Place | 2025/3/main.go:143-153 | pointer j takes the position, the pointers after it are wiped, and the tracking invariant holds one position later |
| Joltage.UpdateLater | 2025/3/main.go:135-155 | one pass over the later pointers: the position goes into the first unassigned pointer, or the first holding a smaller digit with enough of the bank left to refill the rest; afterwards the tracking invariant holds one position later and pointer 0 is unchanged |
| Joltage.Restart | 2025/3/main.go:132-134 | pointer 0 takes the position and the tracking invariant restarts with one pointer |
| Joltage.ScanStep | 2025/3/main.go:126-156 | one iteration of the scan keeps the tracking invariant and enough room to assign every pointer |
| Joltage.ScanFrom | 2025/3/main.go:126-156 | after the scan every pointer is assigned and tracks its final window |
| Joltage.Started | 2025/3/main.go:118-123 | the initial pointers (0, then -1 eleven times) track the one-position prefix |
| Joltage.Finished | 2025/3/main.go:126-156 | at the end of the scan the pointers are the reference choice |
| Joltage.ScanPointers | 2025/3/main.go:118-156 | the pointer slice after the scan is the reference choice of twelve positions |
| Joltage.BestTwelveLargest | 2025/3/main.go:111-164 | the reference twelve are batteries in bank order, and on a bank of digits no twelve batteries in bank order fold to a larger joltage |
| Joltage.BestTwelveLead | 2025/3/main.go:132-134 | the first of the reference twelve is the largest digit that leaves room for eleven more, and the twelve are digits when the bank is |
| Joltage.ChosenBank | 2025/3/main.go:160-163 | digits read from a bank of digits are digits |
| Joltage.TwelveLargest | 2025/3/main.go:111-164 | any one twelve-battery choice in bank order folds to no more than the reference twelve |
| Joltage.FindLargestTwelve | 2025/3/main.go:111-164 | nothing for fewer than twelve batteries; otherwise the reference twelve: batteries in bank order, the first the largest digit leaving room for eleven more, and on a bank of digits a joltage no other twelve batteries in bank order exceed |
| Joltage.TwelveJoltageBound | 2025/3/main.go:69-76 | one bank's part-two joltage has at most twelve digits |
| Joltage.TotalTwelveBound | 2025/3/main.go:69-76 | part two's total lies in [0, banks × (10^12 − 1)] |
| Joltage.Solve2 | 2025/3/main.go:69-76 | the total is the sum of every bank's largest twelve-battery joltage, within [0, banks × (10^12 − 1)], printed in decimal |
| LineGeometry.Validate | 2025/9/geometry/line.go:23-40 | the nil-point error exactly when an endpoint is missing, not-axis-aligned exactly when both coordinates differ, zero-length exactly when the endpoints coincide, and no error exactly when the endpoints differ in one coordinate only |
| LineGeometry.NewLine | 2025/9/geometry/line.go:12-18 | a line is built, with the given endpoints, exactly when it is valid (the source panics otherwise) |
| LineGeometry.IsVerticalRaw | 2025/9/geometry/line.go:73-75 | isVertical and IsVerticalUnsafe (line 225): on a valid line, vertical exactly when the Y coordinates differ |
| LineGeometry.IsHorizontalRaw | 2025/9/geometry/line.go:85-87 | isHorizontal and IsHorizontalUnsafe (line 226): on a valid line, horizontal exactly when the X coordinates differ |
| LineGeometry.LengthRaw | 2025/9/geometry/line.go:54-63 | length, which only Length calls and only after validation: on a valid line one more than the Manhattan distance of the endpoints, so at least 2 |
| LineGeometry.AreCollinearRaw | 2025/9/geometry/line.go:97-108 | areCollinear: two valid lines are collinear exactly when all four endpoints share an X or all four share a Y |
| LineGeometry.DoesOverlapRaw | 2025/9/geometry/line.go:122-153 | doesOverlap and DoesOverlapUnsafe (line 230): only collinear lines overlap, and two valid lines overlap exactly when the common part of their spans has positive length |
| LineGeometry.DoesCrossRaw | 2025/9/geometry/line.go:168-201 | doesCross and DoesCrossUnsafe (line 227): two valid lines cross exactly when one is vertical, the other horizontal, and they meet strictly inside both |
| LineGeometry.OneOrientation | 2025/9/geometry/line.go:72-94 | a valid line is either vertical or horizontal, never both |
| LineGeometry.LengthIsDistance | 2025/9/geometry/line.go:53-70 | the inclusive length is the Manhattan distance of the endpoints plus one, at least 2, and does not depend on the endpoints' order |
| LineGeometry.CellsMeans | 2025/9/geometry/line.go:53-70 | the grid cells on a valid line are exactly the points between its endpoints on its axis, and there are as many as its length |
| LineGeometry.ColumnPointsHas | 2025/9/geometry/line.go:56-57 | a column of points holds exactly the points with that X and Y in range |
| LineGeometry.ColumnPointsCount | 2025/9/geometry/line.go:56-57 | a column from lo to hi holds hi − lo + 1 points |
| LineGeometry.RowPointsHas | 2025/9/geometry/line.go:58-59 | a row of points holds exactly the points with that Y and X in range |
| LineGeometry.RowPointsCount | 2025/9/geometry/line.go:58-59 | a row from lo to hi holds hi − lo + 1 points |
| LineGeometry.CollinearMeans | 2025/9/geometry/line.go:96-108 | two valid lines are collinear exactly when all four endpoints share an X or all four share a Y; the relation is symmetric |
| LineGeometry.OverlapMeans | 2025/9/geometry/line.go:121-153 | two valid lines overlap exactly when they are collinear and their spans share a part of positive length; the relation is symmetric |
| LineGeometry.TouchingDoNotOverlap | 2025/9/geometry/line.go:151-152 | collinear lines meeting only end to end do not overlap |
| LineGeometry.CrossMeans | 2025/9/geometry/line.go:167-201 | two valid lines cross exactly when one is vertical, the other horizontal, and they meet strictly inside both; the relation is symmetric |
| LineGeometry.Length | 2025/9/geometry/line.go:65-70 | fails (the panic) exactly on an invalid line, and is otherwise the Manhattan distance plus one |
| LineGeometry.IsVertical | 2025/9/geometry/line.go:77-82 | fails exactly on an invalid line; otherwise true exactly when the X coordinates agree and the Y coordinates differ |
| LineGeometry.IsHorizontal | 2025/9/geometry/line.go:89-94 | fails exactly on an invalid line; otherwise true exactly when the Y coordinates agree and the X coordinates differ |
| LineGeometry.AreCollinear | 2025/9/geometry/line.go:110-119 | fails exactly when either line is invalid; otherwise the unchecked collinearity |
| LineGeometry.DoesOverlap | 2025/9/geometry/line.go:155-165 | fails exactly when either line is invalid; otherwise the unchecked overlap |
| LineGeometry.DoesCross | 2025/9/geometry/line.go:203-213 | fails exactly when either line is invalid; otherwise the unchecked crossing |
| Pieces.LowestMeans | 2025/12/packing/piece.go:37-52 | the running minimum is a lower bound of the coordinates and is one of them |
| Pieces.HighestMeans | 2025/12/packing/piece.go:37-52 | the running maximum is an upper bound of the coordinates and is one of them |
| Pieces.LowestIs | 2025/12/packing/piece.go:37-52 | a coordinate that is a lower bound is the minimum |
| Pieces.HighestIs | 2025/12/packing/piece.go:37-52 | a coordinate that is an upper bound is the maximum |
| Pieces.MakeNormal | 2025/12/packing/piece.go:26-69 | a new piece keeps its id and cell count; no cells give the empty piece; otherwise its cells are the input moved so the minimum X and Y become 0, its width and height are the coordinate ranges plus one, and its cells fit the box and touch its top, left, right and bottom edges |
| Pieces.Extremes | 2025/12/packing/piece.go:37-52 | the loop finds the minimum and maximum X and Y of the cells |
| Pieces.Normalise | 2025/12/packing/piece.go:56-60 | every cell is moved by the minima |
| Pieces.NewPiece | 2025/12/packing/piece.go:26-69 | builds the normalised piece described by MakeNormal |
| Pieces.RotatedShape | 2025/12/packing/piece.go:71-82 | rotating a normal piece maps (x, y) to (y, width − 1 − x) with no further shift, swaps width and height, keeps id and area, and gives a normal piece |
| Pieces.FlippedShape | 2025/12/packing/piece.go:84-94 | mirroring a normal piece maps (x, y) to (width − 1 − x, y) with no further shift, keeps the box, and gives a normal piece |
| Pieces.HalfTurn | 2025/12/packing/piece.go:71-82 | two rotations map (x, y) to (width − 1 − x, height − 1 − y) |
| Pieces.FourTurns | 2025/12/packing/piece.go:71-82 | four rotations give back the piece |
| Pieces.HalfTurnedTwice | 2025/12/packing/piece.go:71-82 | two half turns give back the cells |
| Pieces.TwoFlips | 2025/12/packing/piece.go:84-94 | two mirrorings give back the piece |
| Pieces.Rotate90 | 2025/12/packing/piece.go:72-82 | computes the rotated piece |
| Pieces.FlipHorizontal | 2025/12/packing/piece.go:85-94 | computes the mirrored piece |
| Pieces.Insert | 2025/12/packing/piece.go:104-109 | inserting a cell adds exactly that cell to the multiset |
| Pieces.InsertSorted | 2025/12/packing/piece.go:104-109 | inserting into a list sorted by Y then X keeps it sorted |
| Pieces.SortCells | 2025/12/packing/piece.go:104-109 | sorting permutes the cells |
| Pieces.SortCellsSorted | 2025/12/packing/piece.go:104-109 | the sorted cells are ordered by Y then X |
| Pieces.SortedUnique | 2025/12/packing/piece.go:104-109 | two sorted lists with the same multiset are equal, so the sort's result is determined by the cells alone |
| Pieces.Entry | 2025/12/packing/piece.go:117 | one "x,y" entry has at least three characters |
| Pieces.KeyOrderFree | 2025/12/packing/piece.go:97-121 | the key depends only on the multiset of cells, and is empty exactly for no cells |
| Pieces.WriteKey | 2025/12/packing/piece.go:111-120 | writes the sorted cells as "x0,y0;x1,y1;…" |
| Pieces.PieceKey | 2025/12/packing/piece.go:97-121 | computes the key of the sorted copy of the cells |
| Pieces.Candidates | 2025/12/packing/piece.go:124-138 | the four rotations followed by their four mirror images: eight pieces |
| Pieces.Dedupe | 2025/12/packing/piece.go:141-149 | keeping first occurrences by key never lengthens the list |
| Pieces.DedupeFrom | 2025/12/packing/piece.go:141-149 | every kept piece comes from the input |
| Pieces.DedupeFresh | 2025/12/packing/piece.go:141-149 | no kept piece has a key seen before |
| Pieces.DedupeDistinct | 2025/12/packing/piece.go:141-149 | kept pieces have pairwise distinct keys |
| Pieces.DedupeComplete | 2025/12/packing/piece.go:141-149 | every input key not seen before is represented among the kept pieces |
| Pieces.DedupeStep | 2025/12/packing/piece.go:143-148 | one step of the loop: keep and record an unseen key, skip a seen one |
| Pieces.OrientationsMeans | 2025/12/packing/piece.go:123-151 | AllOrientations returns one to eight shapes with distinct keys, starting with the piece itself; each is a candidate and every candidate's key is among them |
| Pieces.OrientationSteps | 2025/12/packing/piece.go:71-94 | rotating or mirroring an orientation of a piece gives an orientation of it |
| Pieces.CandidateShape | 2025/12/packing/piece.go:124-138 | every candidate of a normal piece is an orientation of it: same id and area, same or swapped box |
| Pieces.RotationOrientation | 2025/12/packing/piece.go:127-129 | any number of rotations gives an orientation |
| Pieces.DedupeByKey | 2025/12/packing/piece.go:141-149 | the loop keeps the first piece of every key |
| Pieces.AppendFlips | 2025/12/packing/piece.go:133-138 | the list is the rotations followed by each rotation mirrored |
| Pieces.AllOrientations | 2025/12/packing/piece.go:124-151 | returns the candidates deduplicated by key |
| Packing.Marked | 2025/12/packing/packing.go:193-195 | marking cells on a board grid keeps its shape |
| Packing.MarkedAt | 2025/12/packing/packing.go:193-204 | after marking, a cell holds the new value exactly when it is among the marked cells, and its old value otherwise |
| Packing.ClearAfterMark | 2025/12/packing/packing.go:192-206 | undoPlacement after applyPlacement of a placement that fits restores the grid |
| Packing.CountBackUp | 2025/12/packing/packing.go:196-205 | decrementing then incrementing a piece's remaining count restores the counts |
| Packing.Cover | 2025/12/packing/packing.go:153-156 | an orientation at (x, y) covers one board cell per piece cell |
| Packing.Row | 2025/12/packing/packing.go:151-162 | one row of positions gives one placement per X |
| Packing.OnBoardJoin | 2025/12/packing/packing.go:143-168 | joining two lists of on-board placements gives on-board placements |
| Packing.RowOnBoard | 2025/12/packing/packing.go:150-162 | every placement of a row lies on the board |
| Packing.RowsOnBoard | 2025/12/packing/packing.go:150-163 | every placement of the rows 0..h−height lies on the board |
| Packing.OrientationPlacementsOnBoard | 2025/12/packing/packing.go:148-164 | every placement of every normal orientation lies on the board |
| Packing.OrientationsNormal | 2025/12/packing/packing.go:148 | every orientation of a normal piece is normal |
| Packing.AllPlacementsOnBoard | 2025/12/packing/packing.go:143-168 | every precomputed placement lies on the board |
| Packing.CoversAt | 2025/12/packing/packing.go:153-156 | computes the covered cells, each piece cell moved by (x, y) |
| Packing.PlaceRow | 2025/12/packing/packing.go:151-162 | the inner loop over X computes one row of placements |
| Packing.PlaceOrientation | 2025/12/packing/packing.go:150-163 | the loops over Y and X compute every position of one orientation |
| Packing.PlacePiece | 2025/12/packing/packing.go:148-164 | the loop over orientations concatenates their positions, tagged with the piece's id |
| Packing.PrecomputePlacements | 2025/12/packing/packing.go:143-168 | the loop over pieces computes the full placement list |
| Packing.EmptyGrid | 2025/12/packing/packing.go:20-27 | a height × width grid with every cell free |
| Packing.IndexSound | 2025/12/packing/packing.go:37-40 | every index listed under a piece id points at a placement of that piece |
| Packing.IndexComplete | 2025/12/packing/packing.go:37-40 | every placement's index is listed under its piece id |
| Packing.IndexAscending | 2025/12/packing/packing.go:37-40 | the indices under a piece id are in ascending order |
| Packing.IndexByPieceOk | 2025/12/packing/packing.go:37-40 | every listed index is a position in the placement list |
| Packing.IndexPlacements | 2025/12/packing/packing.go:37-40 | the loop computes the index |
| Packing.PositiveIds | 2025/12/packing/packing.go:44-48 | lists each piece id with a positive count once, and no other |
| Packing.InsertByChoices | 2025/12/packing/packing.go:49-53 | inserting an id adds exactly that id |
| Packing.InsertedAfterHead | 2025/12/packing/packing.go:49-53 | inserting behind the head keeps the head's count of placements the smallest |
| Packing.InsertByChoicesSorted | 2025/12/packing/packing.go:49-53 | insertion keeps the ids ordered by increasing number of placements |
| Packing.SortByChoices | 2025/12/packing/packing.go:49-53 | sorting permutes the ids |
| Packing.SortByChoicesSorted | 2025/12/packing/packing.go:49-53 | the sorted ids are ordered by increasing number of placements |
| Packing.OrderPieces | 2025/12/packing/packing.go:42-53 | the piece order is a permutation of the ids, fewest placements first |
| Packing.MarkedJoin | 2025/12/packing/packing.go:193-195 | marking two lists of cells in turn marks their concatenation |
| Packing.CopiesFrom | 2025/12/packing/packing.go:192-197 | a piece with a copy placed has a placement in the list |
| Packing.BooksAfterApply | 2025/12/packing/packing.go:109 | applying a fitting placement of a piece with copies left keeps the grid and counts in step with the placements applied, disjoint and on the board |
| Packing.BooksPacking | 2025/12/packing/packing.go:61-70 | when nothing remains, the placements applied are a packing: from the precomputed list, on the board, pairwise disjoint, exactly the required number of copies of each piece |
| Packing.SearchState.constructor | 2025/12/packing/packing.go:17-34 | a fresh search: empty grid, the board's counts, nothing placed |
| Packing.HasRemaining | 2025/12/packing/packing.go:170-175 | true exactly when the placement's piece has at least one copy left |
| Packing.IsValidPlacement | 2025/12/packing/packing.go:178-189 | true exactly when every covered cell is on the board and free |
| Packing.ApplyPlacement | 2025/12/packing/packing.go:192-198 | marks the covered cells occupied and takes one copy off the piece's count, nothing else |
| Packing.UndoPlacement | 2025/12/packing/packing.go:201-206 | frees the covered cells and puts one copy back on the piece's count, nothing else |
| Packing.NothingRemains | 2025/12/packing/packing.go:64-69 | true exactly when no remaining count is positive |
| Packing.BacktrackByPieceType | 2025/12/packing/packing.go:61-82 | success leaves a state where nothing remains, consistent with the placements applied; failure leaves grid, counts and placements as they were |
| Packing.PlaceCopiesOfPiece | 2025/12/packing/packing.go:85-122 | success leaves nothing remaining; failure undoes every placement it tried, leaving the state as it was |
| Packing.TryPlacement | 2025/12/packing/packing.go:109-118 | applying one placement, recursing and undoing on failure: the same success and failure guarantees |
| Packing.ApplyRecorded | 2025/12/packing/packing.go:109 | applyPlacement on the search state keeps its bookkeeping, recording the placement |
| Packing.UndoRecorded | 2025/12/packing/packing.go:118 | undoPlacement restores the grid, counts and placements from before the apply |
| Packing.SolveWithBacktracking | 2025/12/packing/packing.go:15-57 | true only when the board has a packing: placements from the precomputed list, on the board, disjoint, with exactly the required copies of each piece |
| Keypads.Position | 2024/day21/internal/day21/numericKeypad.go:33-71 | every character maps to a key position on the pad (an unknown one to the zero-initialised (0, 0)) |
| Keypads.PositionOfKey | 2024/day21/internal/day21/numericKeypad.go:33-71 | a character is a key of the pad exactly when the pad shows it at its position |
| Keypads.KeyAtPosition | 2024/day21/internal/day21/numericKeypad.go:33-71 | every position on the pad holds a key whose position it is, so the table is a bijection between the eleven keys and the eleven cells |
| Keypads.NetCons | 2024/day21/internal/day21/numericKeypad.go:190-198 | the net displacement of a move string is its first move's plus the rest's |
| Keypads.MovesCount | 2024/day21/internal/day21/numericKeypad.go:190-198 | a move string consists of its arrows only |
| Keypads.ShortestRearranged | 2024/day21/internal/day21/numericKeypad.go:251-291 | given one shortest move string for a displacement, another string is shortest for it exactly when it is a rearrangement of the same moves |
| Keypads.EndSnoc | 2024/day21/internal/day21/numericKeypad.go:215-224 | one more move steps from where the string ended |
| Keypads.EndNet | 2024/day21/internal/day21/numericKeypad.go:215-224 | a walk ends at its start plus the string's net displacement |
| Keypads.StepOffset | 2024/day21/internal/day21/numericKeypad.go:190-198 | a step adds that arrow's unit offset |
| Keypads.WalkableTravel | 2024/day21/internal/day21/numericKeypad.go:176-210 | a walk that validateMove accepts arrives where it ends, never leaving the pad |
| Keypads.WalkableSnoc | 2024/day21/internal/day21/numericKeypad.go:215-242 | a valid walk extended by a move that stays on the pad is valid |
| Keypads.WalkablePress | 2024/day21/internal/day21/numericKeypad.go:225-233 | a valid walk of arrows followed by the final press is valid |
| Keypads.RouteArrives | 2024/day21/internal/day21/numericKeypad.go:176-210 | a route from p to q replayed by Move arrives at q |
| Keypads.Swap | 2024/day21/internal/day21/numericKeypad.go:288 | swapping two runes keeps the length |
| Keypads.SwapTwice | 2024/day21/internal/day21/numericKeypad.go:288-290 | swapping back restores the runes |
| Keypads.SwapMultiset | 2024/day21/internal/day21/numericKeypad.go:288 | swapping from start on keeps the prefix and the multiset of the rest |
| Keypads.PermSplit | 2024/day21/internal/day21/numericKeypad.go:287-291 | splitting a string at position k |
| Keypads.SwapSound | 2024/day21/internal/day21/numericKeypad.go:287-291 | a permutation of the swapped runes from start + 1 is a permutation of the runes from start |
| Keypads.SwapComplete | 2024/day21/internal/day21/numericKeypad.go:287-291 | a permutation whose rune at start is the i-th is a permutation of the swapped runes from start + 1 |
| Keypads.PermHead | 2024/day21/internal/day21/numericKeypad.go:287-291 | every permutation's rune at start comes from some position from start on |
| Keypads.PermLast | 2024/day21/internal/day21/numericKeypad.go:283-285 | with one rune left to place, the only permutation is the runes themselves |
| Keypads.PermuteLast | 2024/day21/internal/day21/numericKeypad.go:283-285 | the base case appends exactly the current arrangement |
| Keypads.CoversAll | 2024/day21/internal/day21/numericKeypad.go:287-291 | once every position has been tried, every permutation is among the appended strings |
| Keypads.PermuteStep | 2024/day21/internal/day21/numericKeypad.go:287-291 | one turn of the loop keeps the appended strings permutations and covers the permutations starting with the i-th rune |
| Keypads.Permute | 2024/day21/internal/day21/numericKeypad.go:282-292 | leaves the runes as they were, only appends, appends permutations of the runes that fix the prefix, and appends every such permutation |
| Keypads.PermuteEach | 2024/day21/internal/day21/numericKeypad.go:287-291 | the loop over i: same guarantees as permute |
| Keypads.PermuteTurn | 2024/day21/internal/day21/numericKeypad.go:288-290 | swap, recurse and swap back: runes unchanged, one more starting rune covered |
| Keypads.SwapRunes | 2024/day21/internal/day21/numericKeypad.go:288 | exchanges two runes in place |
| Keypads.Enumerate | 2024/day21/internal/day21/numericKeypad.go:266-273 | lists every key of the set exactly once |
| Keypads.PermutateSubstring | 2024/day21/internal/day21/numericKeypad.go:251-280 | empty for an empty input, ["A"] for "A", empty for any other single character; otherwise exactly the distinct rearrangements of the input's moves followed by the final character, each once |
| Keypads.ArrangementsListed | 2024/day21/internal/day21/numericKeypad.go:265-279 | deduplicating the permutations and appending the press gives each rearrangement exactly once |
| Keypads.RouteArrangements | 2024/day21/internal/day21/numericKeypad.go:90-96 | a rearrangement of a shortest movement that stays on the pad is exactly a route between the two keys |
| Keypads.NumericKeypad.constructor | 2024/day21/internal/day21/numericKeypad.go:26-31 | the pointer starts over the A key |
| Keypads.NumericKeypad.CalculateMovement | 2024/day21/internal/day21/numericKeypad.go:104-154 | moves the pointer onto the key; empty exactly when already there; otherwise a shortest move string to the key, ending with the press, that never crosses the gap |
| Keypads.NumericKeypad.Horizontal | 2024/day21/internal/day21/numericKeypad.go:107-127 | the two horizontal loops bring the pointer to the key's column, moving up one row only at the gap, on a shortest walk |
| Keypads.NumericKeypad.RightTo | 2024/day21/internal/day21/numericKeypad.go:107-110 | moves right until the key's column, on a shortest walk |
| Keypads.NumericKeypad.LeftTo | 2024/day21/internal/day21/numericKeypad.go:111-127 | moves left until the key's column, stepping up instead of entering the gap, on a shortest walk |
| Keypads.NumericKeypad.Vertical | 2024/day21/internal/day21/numericKeypad.go:128-148 | the two vertical loops bring the pointer onto the key, on a shortest walk |
| Keypads.NumericKeypad.DownTo | 2024/day21/internal/day21/numericKeypad.go:128-144 | moves down until the key's row, stepping right instead of entering the gap, on a shortest walk |
| Keypads.NumericKeypad.UpTo | 2024/day21/internal/day21/numericKeypad.go:145-148 | moves up until the key's row, on a shortest walk |
| Keypads.NumericKeypad.ValidateMove | 2024/day21/internal/day21/numericKeypad.go:212-245 | true exactly when the walk from the pointer stays on the pad and a press appears only as the last character |
| Keypads.NumericKeypad.CalculateMovements | 2024/day21/internal/day21/numericKeypad.go:77-99 | leaves the pointer where it was and returns exactly the routes to the key (none when already there), each once, and at least one from any key to a different key |
| Keypads.NumericKeypad.MoveTo | 2024/day21/internal/day21/numericKeypad.go:189-210 | a press leaves the pointer; any other character steps it, panicking (None) exactly when it leaves the pad or enters the gap |
| Keypads.NumericKeypad.Move | 2024/day21/internal/day21/numericKeypad.go:176-187 | replays the string, ending where the trip ends; it panics (None) exactly when the trip crashes |
| Keypads.Detour | 2024/day21/internal/day21/numericKeypad.go:115-126 | at the gap, going up then left instead of left keeps the walk shortest |
| Keypads.Advance | 2024/day21/internal/day21/numericKeypad.go:107-148 | a step that stays on the pad and brings the pointer one closer keeps the walk shortest |
| Simulations.TurnLeft | 2024/day20/internal/simulation/simulation.go:76-89 | a cardinal direction turns to a cardinal one; any other direction is returned unchanged |
| Simulations.TurnRight | 2024/day20/internal/simulation/simulation.go:91-104 | a cardinal direction turns to a cardinal one; any other direction is returned unchanged |
| Simulations.TurnsInverse | 2024/day20/internal/simulation/simulation.go:76-104 | turning left undoes turning right and the other way round |
| Simulations.TurnsRotate | 2024/day20/internal/simulation/simulation.go:91-112 | on a cardinal direction, a right turn is (−vy, vx) and a left turn (vy, −vx): quarter turns in screen coordinates |
| Simulations.FourTurns | 2024/day20/internal/simulation/simulation.go:91-104 | four right turns give back the direction |
| Simulations.Neighbors | 2024/day20/internal/simulation/simulation.go:30-39 | the four coordinates at distance one, north, east, south and west, and no others |
| Simulations.DirectionTo | 2024/day20/internal/simulation/simulation.go:42-55 | zero exactly from a coordinate to itself, otherwise a cardinal direction whose step gets one closer |
| Simulations.DirectionToStep | 2024/day20/internal/simulation/simulation.go:23-55 | the direction to the coordinate one cardinal step away is that step |
| Simulations.WithoutMultiset | 2024/day20/internal/simulation/simulation.go:181-186 | removing an ID takes one copy of it out of the list, and changes nothing when it is absent |
| Simulations.WithoutAt | 2024/day20/internal/simulation/simulation.go:184 | removing the first occurrence at position i cuts exactly that position |
| Simulations.WithoutAppended | 2024/day20/internal/simulation/simulation.go:174-184 | removing a just-appended new ID gives back the list |
| Simulations.CleanEdits | 2024/day20/internal/simulation/simulation.go:160-189 | adding a fresh non-zero ID or removing one keeps a cell's list free of the zero ID and of duplicates |
| Simulations.WithoutClean | 2024/day20/internal/simulation/simulation.go:178-189 | removal keeps a cell's list clean, leaves the ID absent, and adds nothing |
| Simulations.Cell.constructor | 2024/day20/internal/simulation/simulation.go:141-145 | a new cell holds no IDs |
| Simulations.Cell.GetEntityIds | 2024/day20/internal/simulation/simulation.go:151-158 | returns the cell's IDs |
| Simulations.Cell.AddId | 2024/day20/internal/simulation/simulation.go:160-176 | succeeds exactly for a non-zero ID not yet in the cell, appending it; otherwise nothing changes |
| Simulations.Cell.RemoveId | 2024/day20/internal/simulation/simulation.go:178-189 | succeeds exactly when the ID is in the cell, cutting its first occurrence; otherwise nothing changes |
| Simulations.IndexInRange | 2024/day20/internal/simulation/simulation.go:249-251 | the index of an on-map coordinate lies in [0, width × height) |
| Simulations.IndexInjective | 2024/day20/internal/simulation/simulation.go:249-251 | distinct on-map coordinates have distinct indices |
| Simulations.RowsApart | 2024/day20/internal/simulation/simulation.go:249-251 | rows start width apart |
| Simulations.IndexOnto | 2024/day20/internal/simulation/simulation.go:249-251 | every index in range is the index of an on-map coordinate |
| Simulations.IndicesSnoc | 2024/day20/internal/simulation/simulation.go:273-285 | one more coordinate adds its index |
| Simulations.IndicesDrop | 2024/day20/internal/simulation/simulation.go:287-292 | dropping a coordinate not repeated later drops its index |
| Simulations.IndexListed | 2024/day20/internal/simulation/simulation.go:249-251 | an on-map coordinate's index is among the indices exactly when the coordinate is listed |
| Simulations.AddableDistinct | 2024/day20/internal/simulation/simulation.go:273-285 | an addable list repeats no coordinate |
| Simulations.AddThenRemove | 2024/day20/internal/simulation/simulation.go:269-327 | removing an entity from the cells it was just added to restores the map |
| Simulations.RemoveThenAdd | 2024/day20/internal/simulation/simulation.go:316-322 | adding an entity back to the cells it was removed from restores each cell's members, up to order |
| Simulations.AllCleanEdits | 2024/day20/internal/simulation/simulation.go:160-189 | removals, and additions of a non-zero ID absent from the cells, keep every cell clean |
| Simulations.SpatialMap.Contents | 2024/day20/internal/simulation/simulation.go:223-228 | one ID list per cell, in index order |
| Simulations.SpatialMap.constructor | 2024/day20/internal/simulation/simulation.go:230-239 | a width × height map of new, empty cells |
| Simulations.SpatialMap.GetCell | 2024/day20/internal/simulation/simulation.go:253-267 | the cell at a coordinate exactly when the coordinate is on the map (an error otherwise), holding that coordinate's IDs |
| Simulations.SpatialMap.GetNeighbors | 2024/day20/internal/simulation/simulation.go:329-345 | exactly the on-map neighbours, each once, at most four |
| Simulations.SpatialMap.AddEntity | 2024/day20/internal/simulation/simulation.go:269-297 | succeeds exactly when every coordinate is on the map, unrepeated, and its cell accepts the non-zero ID; then the ID is appended to those cells; on failure the rollback restores the map |
| Simulations.SpatialMap.AddEach | 2024/day20/internal/simulation/simulation.go:273-285 | the loop adds the ID to a prefix of the coordinates and stops at the first that does not accept it |
| Simulations.SpatialMap.AddNext | 2024/day20/internal/simulation/simulation.go:274-284 | one turn of the loop: add to the next cell or stop with nothing changed |
| Simulations.SpatialMap.TakeBack | 2024/day20/internal/simulation/simulation.go:286-293 | the rollback removes the ID from every modified cell, restoring the map, and never fails |
| Simulations.SpatialMap.TakeNext | 2024/day20/internal/simulation/simulation.go:287-291 | one turn of the rollback: removal from a modified cell succeeds |
| Simulations.SpatialMap.RemoveEntity | 2024/day20/internal/simulation/simulation.go:299-327 | succeeds exactly when every coordinate is on the map, unrepeated, and its cell holds the ID; then the ID is cut from those cells; on failure the rollback restores each cell's members, up to order |
| Simulations.SpatialMap.RemoveEach | 2024/day20/internal/simulation/simulation.go:303-315 | the loop removes the ID from a prefix of the coordinates and stops at the first that does not hold it |
| Simulations.SpatialMap.RemoveNext | 2024/day20/internal/simulation/simulation.go:304-314 | one turn of the loop: remove from the next cell or stop with nothing changed |
| Simulations.SpatialMap.PutBack | 2024/day20/internal/simulation/simulation.go:316-323 | the rollback appends the ID again to every modified cell and never fails |
| Simulations.SpatialMap.PutNext | 2024/day20/internal/simulation/simulation.go:317-321 | one turn of the rollback: adding to a modified cell succeeds |
| Simulations.SpatialMap.AddToCell | 2024/day20/internal/simulation/simulation.go:160-176 | addEntityId on one cell of the map, nothing else changes |
| Simulations.SpatialMap.RemoveFromCell | 2024/day20/internal/simulation/simulation.go:178-189 | removeEntityId on one cell of the map, nothing else changes |
| Simulations.RemovedAddable | 2024/day20/internal/simulation/simulation.go:628-637 | after a successful removal the entity can be re-added to the same cells, so MoveEntity's rollback succeeds |
| Simulations.WrapIsModulus | 2024/day20/internal/simulation/simulation.go:604-605 | ((v % n) + n) % n with Go's truncating % is the mathematical remainder, in [0, n) |
| Simulations.ModulusOf | 2024/day20/internal/simulation/simulation.go:604-605 | the remainder of q·n + m is m |
| Simulations.Targets | 2024/day20/internal/simulation/simulation.go:597-608 | one target per current coordinate |
| Simulations.WrappedTargetsOnMap | 2024/day20/internal/simulation/simulation.go:602-606 | with wrapping, every target is on the map |
| Simulations.ShiftAll | 2024/day20/internal/simulation/simulation.go:597-608 | each coordinate moved by the direction, wrapped when asked |
| Simulations.ValidateAll | 2024/day20/internal/simulation/simulation.go:520-524 | true exactly when every coordinate is on the map; otherwise some coordinate is off it |
| Simulations.SwapRemove | 2024/day20/internal/simulation/simulation.go:570-577 | moving the last entity into the removed one's slot and deleting the ID keeps the index map exact |
| Simulations.SwapRemoveMultiset | 2024/day20/internal/simulation/simulation.go:570-577 | the swap-and-truncate removes exactly the one entity |
| Simulations.Entity.constructor | 2024/day20/internal/simulation/simulation.go:396-407 | a new entity has the given ID and type, stands at the origin and has the zero direction |
| Simulations.Simulation.constructor | 2024/day20/internal/simulation/simulation.go:482-488 | an empty map of the given size and no entities |
| Simulations.Simulation.GetEntity | 2024/day20/internal/simulation/simulation.go:494-501 | the entity exactly when its ID is indexed, and it carries that ID |
| Simulations.Simulation.AddEntity | 2024/day20/internal/simulation/simulation.go:514-547 | succeeds exactly when the map accepts the ID on the coordinates; then the entity takes the coordinates and direction, is appended and indexed, and the map lists it on those cells; on failure nothing changes |
| Simulations.Simulation.Append | 2024/day20/internal/simulation/simulation.go:537-544 | the entity takes its coordinates and direction and is appended at the next index |
| Simulations.Simulation.RemoveEntity | 2024/day20/internal/simulation/simulation.go:549-580 | fails with nothing changed for an unknown ID; otherwise succeeds exactly when the map gives the ID up from the entity's cells, then the last entity moves into its slot, the ID leaves the index, and exactly that entity is gone; on failure the list and index stay and the map keeps its members |
| Simulations.Simulation.MoveEntity | 2024/day20/internal/simulation/simulation.go:583-648 | fails with nothing changed for an unknown ID or an off-map target; otherwise succeeds exactly when the entity leaves its cells and the targets accept it, then the entity stands on its targets and the map lists it there; on failure it keeps its coordinates and the map its members; no direction and no other entity changes |
| Simulations.Simulation.Plan | 2024/day20/internal/simulation/simulation.go:589-622 | finds the entity and its targets and checks them, changing nothing |
| Simulations.Simulation.MoveTo | 2024/day20/internal/simulation/simulation.go:624-647 | moves one entity's cells on the map and its coordinates, or restores the map on failure |
| Simulations.Simulation.SetCoords | 2024/day20/internal/simulation/simulation.go:645 | sets one entity's coordinates, nothing else |
| Simulations.Simulation.Relocate | 2024/day20/internal/simulation/simulation.go:627-642 | removal then addition: succeeds exactly when both do; on failure the rollback restores each cell's members |
| Simulations.Simulation.SetEntityDirection | 2024/day20/internal/simulation/simulation.go:650-665 | succeeds exactly for an indexed ID, setting that entity's direction and nothing else |
| Simulations.Simulation.Forget | 2024/day20/internal/simulation/simulation.go:570-577 | the swap-and-truncate: the ID leaves the index and exactly its entity leaves the list |
| Simulations.AddStep | 2024/day20/internal/simulation/simulation.go:279-284 | one more successful addition extends the added prefix |
| Simulations.RemoveStep | 2024/day20/internal/simulation/simulation.go:309-314 | one more successful removal extends the removed prefix |
| Simulations.AddOne | 2024/day20/internal/simulation/simulation.go:174 | appending to one more slot |
| Simulations.RemoveOne | 2024/day20/internal/simulation/simulation.go:184 | cutting from one more slot |
| Simulations.TakeOne | 2024/day20/internal/simulation/simulation.go:288 | taking the ID back out of one slot |
| Reports.StepsInAt | 2024/2/main.go:165-201 | every adjacent difference r[k+1] − r[k] lies in [lo, hi] |
| Reports.RisesSome | 2024/2/main.go:169-186 | the increasing flag after n steps is set exactly when some step among them rises |
| Reports.FallsSome | 2024/2/main.go:169-186 | the decreasing flag after n steps is set exactly when some step among them falls |
| Reports.GapsAll | 2024/2/main.go:188-199 | rule two holds over n steps exactly when every difference among them is between 1 and 3 in size |
| Reports.ValidateReport | 2024/2/main.go:165-201 | the verdict is true exactly when the report rises by 1 to 3 at every step or falls by 1 to 3 at every step |
| Reports.BothStay | 2024/2/main.go:182-185 | once both flags are set they stay set, so the early exit of rule one loses nothing |
| Reports.GapsFail | 2024/2/main.go:195-198 | once a difference breaks rule two, the rule stays broken, so the early exit loses nothing |
| Reports.SafeByRules | 2024/2/main.go:165-201 | the two rules together (not both directions; all gaps in 1..3) hold exactly when the report is safe |
| Reports.RulesSafe | 2024/2/main.go:165-201 | the two rules imply the report is monotone with gaps 1..3 |
| Reports.RisingRules | 2024/2/main.go:165-201 | a report that rises (or falls) by 1 to 3 at every step meets both rules |
| Reports.ShortSafe | 2024/2/main.go:171-193 | reports of at most one level are valid |
| Reports.Without | 2024/2/main.go:145-146 | removing one level shortens the report by one |
| Reports.SafeWithoutSome | 2024/2/main.go:144-155 | the removal loop over the first k positions finds a safe report exactly when some removal among them is safe |
| Reports.SafeWithoutGrows | 2024/2/main.go:144-155 | trying more removals never loses a safe one |
| Reports.DampenedMeans | 2024/2/main.go:133-163 | a report counts for part two exactly when it is safe or some one-level removal of it is safe |
| Reports.Solve1 | 2024/2/main.go:115-131 | counts the safe reports (at most one per report) and prints "Safe Reports: n" |
| Reports.DampenedReport | 2024/2/main.go:137-159 | the verdict with the dampener: the report or some one-level removal is safe |
| Reports.Solve2 | 2024/2/main.go:133-163 | counts the dampened-safe reports (at most one per report) and prints "Actually Safe Reports: n" |
| Reports.DampenerCountsMore | 2024/2/main.go:115-163 | part two's count is at least part one's |
| Reports.CountsAppend | 2024/2/main.go:119-160 | one more report adds one to each count exactly when it passes that part's check |
| Reports.DampenedBy | 2024/2/main.go:144-146 | the list of one-level removals decides the dampened verdict |
| Reports.ExampleVerdicts | 2024/2/main_test.go:9-17 | of the six example reports, the first and last are safe and the others are not |
| Reports.ExampleDampenedRising | 2024/2/main_test.go:13-15 | the example's second report stays unsafe with the dampener and its fourth becomes safe |
| Reports.ExampleDampenedFalling | 2024/2/main_test.go:14-16 | the example's third report stays unsafe with the dampener and its fifth becomes safe |
| Reports.ExampleCounts | 2024/2/main_test.go:55-60 | the example gives 2 safe reports, and 4 with the dampener |
| PageOrder.Applicable | 2024/5/main.go:165-170 | a page without rules has no applicable rule values |
| PageOrder.Contains | 2024/5/main.go:237-244 | true exactly when the value occurs among the seen pages |
| PageOrder.SeenIn | 2024/5/main.go:237-244 | scanning the first n pages finds the value exactly when it is among them |
| PageOrder.AnySeenSome | 2024/5/main.go:175-179 | checking the first k rule values flags the update exactly when one of them has been seen |
| PageOrder.PageInvalid | 2024/5/main.go:161-179 | a page one of whose rule values occurs at or before it (the page is added to the seen pages before the check) makes the update invalid |
| PageOrder.ValidMeans | 2024/5/main.go:157-180 | the check over the first n pages passes exactly when none of those pages has a rule value seen up to and including itself |
| PageOrder.CheckUpdate | 2024/5/main.go:158-180 | the verdict is true exactly when no page has one of its rule values at or before it |
| PageOrder.Solve1 | 2024/5/main.go:151-189 | sums the middle page of every valid update and prints "Result 1: n" |
| PageOrder.MovedAt | 2024/5/main.go:298-318 | after moving element i to index j, index j holds the moved element, the elements between shift by one toward i's old place, and the rest stay |
| PageOrder.MovedPermutes | 2024/5/main.go:298-318 | moving an element keeps the same elements |
| PageOrder.Splice | 2024/5/main.go:298-318 | inserting an element into a list adds exactly that element |
| PageOrder.MovedInPlace | 2024/5/main.go:303-305 | moving an element to its own index changes nothing |
| PageOrder.Move | 2024/5/main.go:298-318 | rearranges the slice in place into the moved sequence |
| PageOrder.OrderedPrefix | 2024/5/main.go:253-290 | a prefix of an ordered update is ordered |
| PageOrder.OrderedExtend | 2024/5/main.go:253-290 | a page none of whose rule values precedes it extends an ordered prefix |
| PageOrder.ValidOrdered | 2024/5/main.go:253-290 | a valid update is ordered in sortUpdate's sense |
| PageOrder.MovedPrefix | 2024/5/main.go:282 | moving page i back to j keeps the pages before j and puts page i at j |
| PageOrder.ScannedAfterMove | 2024/5/main.go:271-288 | moving the page to the first earlier index holding a rule value keeps the elements and what the walk knows about the pages before it |
| PageOrder.SortUpdate | 2024/5/main.go:246-296 | the update stays a permutation of itself, and when the walk finishes every page is in order |
| PageOrder.SortCopy | 2024/5/main.go:223 | sorting a copy: a permutation of the update, in order when the walk finishes |
| PageOrder.Invalid | 2024/5/main.go:198-226 | the invalid updates, each one of the updates |
| PageOrder.Solve2 | 2024/5/main.go:191-235 | when every walk finishes: one sorted update per invalid update, each a permutation of it with every page in order, and the sum of their middle pages printed as "Result 2: n" |
| PageOrder.ValidMiddleSumAppend | 2024/5/main.go:157-186 | one more update adds its middle page exactly when it is valid |
| PageOrder.ExampleRuleValues | 2024/5/main_test.go:12-32 | the rule values of every page of the example, in input order |
| PageOrder.ExampleValid | 2024/5/main_test.go:34-36 | the first three example updates are valid |
| PageOrder.ExampleValidFirst | 2024/5/main_test.go:34 | the first example update is valid |
| PageOrder.ExampleValidSecond | 2024/5/main_test.go:35 | the second example update is valid |
| PageOrder.ExampleInvalid | 2024/5/main_test.go:37-39 | the last three example updates are invalid |
| PageOrder.ExampleSolve1 | 2024/5/main_test.go:77-82 | the example's part one result is 143 |
| Calibration.ReadDigitsVal | 2024/day7/internal/Equation.go:102 | SetString reads a digit string as its decimal value |
| Calibration.ReadDigitsBad | 2024/day7/internal/Equation.go:102 | a non-digit character makes SetString fail |
| Calibration.ParseDigits | 2024/day7/internal/Equation.go:102 | SetString of an unsigned numeral is its value |
| Calibration.ParseMinus | 2024/day7/internal/Equation.go:102 | SetString of "-" and a numeral is the negated value |
| Calibration.ParseInnerMinus | 2024/day7/internal/Equation.go:101-104 | a minus sign after the first character makes SetString fail |
| Calibration.JoinedNegative | 2024/day7/internal/Equation.go:100-104 | concatenating a negative number fails ("%s%d" puts a minus sign inside the text) |
| Calibration.JoinedValue | 2024/day7/internal/Equation.go:101 | the digits of x followed by those of b read as x × 10^digits(b) + b |
| Calibration.JoinedNatural | 2024/day7/internal/Equation.go:100-104 | concatenating two non-negative numbers gives a × 10^digits(b) + b |
| Calibration.SignedText | 2024/day7/internal/Equation.go:101 | a negative running result prints as "-" and its magnitude |
| Calibration.JoinedSignedText | 2024/day7/internal/Equation.go:100-104 | concatenating b onto a negative result reads back the negated digits |
| Calibration.NegatedShift | 2024/day7/internal/Equation.go:100-104 | the negated digits of the magnitude and b are −(|a| × 10^digits(b) + b) |
| Calibration.ConcatText | 2024/day7/internal/Equation.go:100-104 | the text round trip of the Or operator equals the arithmetic concatenation: None for a negative b, otherwise b's digits appended with a's sign kept |
| Calibration.FirstBad | 2024/day7/internal/Equation.go:20-35 | no unknown operator exactly when every character is one of the three operators; otherwise an unknown one that occurs |
| Calibration.Check | 2024/day7/internal/Equation.go:71-124 | a count other than numbers − 1 is an error; true only when the count fits, every operator is known, and the left-to-right value equals the total |
| Calibration.Zeros | 2024/day7/internal/Equation.go:138-147 | k zero characters |
| Calibration.Fixed3 | 2024/day7/internal/Equation.go:136-150 | k base-3 digits, each an operator character |
| Calibration.Digits3Short | 2024/day7/internal/Equation.go:141-144 | a number below 3^k has at most k base-3 digits |
| Calibration.Fixed3Zero | 2024/day7/internal/Equation.go:137-138 | zero is written as k zeros |
| Calibration.FixedPadded | 2024/day7/internal/Equation.go:146-148 | left-padding the digits with zeros gives the fixed-width numeral |
| Calibration.Base3Fixed | 2024/day7/internal/Equation.go:136-150 | for n below 3^length, toBase3 gives the length-digit base-3 numeral of n |
| Calibration.Fixed3Val | 2024/day7/internal/Equation.go:159-165 | every operator string of length k is toBase3 of its value, which is below 3^k, so the loop enumerates every operator string |
| Calibration.ZeroPad | 2024/day7/internal/Equation.go:137-147 | fmt's "%0*s": a string already as wide as the width is unchanged; a shorter one gets zeros on the left up to a positive width, or spaces on the right up to the magnitude of a negative width |
| Calibration.ToBase3 | 2024/day7/internal/Equation.go:136-150 | the loop computes toBase3 for every n and length, the negative widths included |
| Calibration.Equation.constructor | 2024/day7/internal/Equation.go:223-225 | a new equation with its total and numbers, no operators, neither valid nor solved |
| Calibration.Equation.Validate | 2024/day7/internal/Equation.go:71-124 | returns the Check verdict; a match records the operators and marks the equation valid; otherwise nothing changes |
| Calibration.Equation.Solve | 2024/day7/internal/Equation.go:152-200 | an error for a single number; otherwise, unless a concatenation fails, true exactly when some operator string makes the equation hold, with solved set to the answer and the matching operators recorded; no error when every number after the first is non-negative |
| Calibration.TriedMore | 2024/day7/internal/Equation.go:168-195 | a failed operator string extends the tried prefix |
| Calibration.NotWitness | 2024/day7/internal/Equation.go:168-199 | after all 3^k strings failed, no operator string gives the total |
| Calibration.NoneSolvable | 2024/day7/internal/Equation.go:197-199 | after all strings failed, the equation has no solution |
| Calibration.FoundSolvable | 2024/day7/internal/Equation.go:191-194 | a matching operator string makes the equation solvable |
| Calibration.NoError | 2024/day7/internal/Equation.go:100-104 | a Validate error on well-formed operators needs a negative number after the first |
| Calibration.CheckValue | 2024/day7/internal/Equation.go:112-123 | with a value, Validate answers whether it equals the total |
| Calibration.CheckFails | 2024/day7/internal/Equation.go:102-104 | a failed concatenation is Validate's big.Int error |
| Calibration.EvalStep | 2024/day7/internal/Equation.go:94-110 | each operator applies to the running result and the next number |
| Calibration.FailStays | 2024/day7/internal/Equation.go:102-104 | once a concatenation fails, the whole evaluation fails |
| Calibration.NoFailure | 2024/day7/internal/Equation.go:94-110 | with no negative number after the first, evaluation never fails |
| Calibration.ExampleChecks | 2024/day7/main_test.go:30-33 | 190 = 10 × 19 holds; 156 = 15 ‖ 6 holds and 156 = 15 + 6 does not |
| PaperRolls.DeltaIndex | 2025/4/main.go:148-152 | the position of an offset in the delta table, or past its end when the offset is not there |
| PaperRolls.IndexOfDelta | 2025/4/main.go:148-152 | the eight offsets are distinct |
| PaperRolls.AroundFrom | 2025/4/main.go:154-162 | the first i deltas give at most i coordinates, each inside [0, max] and from among those deltas |
| PaperRolls.AroundHas | 2025/4/main.go:154-162 | every in-range coordinate from the first i deltas is kept |
| PaperRolls.AroundDistinct | 2025/4/main.go:154-162 | no coordinate is kept twice |
| PaperRolls.DistinctAppend | 2025/4/main.go:160 | appending a new coordinate keeps the list free of repeats |
| PaperRolls.DeltaOf | 2025/4/main.go:148-152 | every adjacent coordinate's offset is in the table |
| PaperRolls.AroundMeans | 2025/4/main.go:144-165 | at most eight distinct coordinates: exactly the in-range ones at king-move distance one |
| PaperRolls.Nearby | 2025/4/main.go:144-165 | the loop returns exactly the in-range neighbours, each once, at most eight |
| PaperRolls.Partial | 2025/4/main.go:167-187 | the heatmap after any number of cells keeps the grid's shape |
| PaperRolls.Spread | 2025/4/main.go:181-183 | incrementing a list of cells keeps the shape |
| PaperRolls.SpreadMore | 2025/4/main.go:181-183 | one more neighbour adds one increment |
| PaperRolls.SpreadAt | 2025/4/main.go:181-183 | incrementing distinct cells raises exactly the listed ones by one |
| PaperRolls.SameMaps | 2025/4/main.go:167-187 | two heatmaps with the same shape and entries are equal |
| PaperRolls.PartialAt | 2025/4/main.go:175-186 | each entry of the partial heatmap counts the paper neighbours among the cells visited so far |
| PaperRolls.SpreadStep | 2025/4/main.go:178-184 | a paper cell raises exactly its neighbours, advancing the partial heatmap by one cell |
| PaperRolls.SpreadCell | 2025/4/main.go:178-184 | the same, entry by entry |
| PaperRolls.EmptyStep | 2025/4/main.go:178 | a cell without paper leaves the heatmap as it is |
| PaperRolls.RowDone | 2025/4/main.go:175-176 | finishing a row is starting the next |
| PaperRolls.Zeros | 2025/4/main.go:169-172 | a zero heatmap of the grid's shape |
| PaperRolls.Started | 2025/4/main.go:169-172 | the heatmap starts at zero |
| PaperRolls.Finished | 2025/4/main.go:167-187 | after every cell, each entry is the number of paper rolls among that cell's neighbours |
| PaperRolls.NearbyIn | 2025/4/main.go:180-182 | neighbours in range index the heatmap safely |
| PaperRolls.SpreadRoll | 2025/4/main.go:179-183 | the inner loop raises each neighbour of a paper cell by one |
| PaperRolls.CalculateHeatmap | 2025/4/main.go:167-188 | each entry is the number of paper rolls adjacent to that cell |
| PaperRolls.Solve1 | 2025/4/main.go:54-71 | counts the rolls with fewer than four paper neighbours, at most the number of rolls, and prints it |
| PaperRolls.Pass | 2025/4/main.go:84-92 | one pass keeps the grid's shape |
| PaperRolls.PassOnlyTakes | 2025/4/main.go:84-92 | a pass only turns accessible paper into '.', and a cell is '.' after it exactly when it was empty or accessible paper |
| PaperRolls.RowTaken | 2025/4/main.go:85-91 | what a row loses in a pass is its accessible rolls |
| PaperRolls.GridTaken | 2025/4/main.go:84-92 | what the grid loses in a pass is its accessible rolls |
| PaperRolls.TakenPaper | 2025/4/main.go:84-92 | rolls after a pass plus rolls removed equals rolls before |
| PaperRolls.ClearedCoversFirst | 2025/4/main.go:73-101 | the repeated passes remove at least what the first pass removes and at most every roll |
| PaperRolls.PassUpTo | 2025/4/main.go:84-92 | the pass up to a cell keeps the grid's shape |
| PaperRolls.SameGrids | 2025/4/main.go:84-92 | grids with the same shape and cells are equal |
| PaperRolls.PassStart | 2025/4/main.go:84 | before any cell the grid is unchanged |
| PaperRolls.PassEnd | 2025/4/main.go:84-92 | after every cell the grid is the pass |
| PaperRolls.PassRow | 2025/4/main.go:84-85 | finishing a row is starting the next |
| PaperRolls.PassCell | 2025/4/main.go:86-90 | a cell is still as it was when the pass reaches it; an accessible roll becomes '.', any other cell stays |
| PaperRolls.PassShape | 2025/4/main.go:84-92 | a pass keeps the grid rectangular with the same width |
| PaperRolls.RemovePass | 2025/4/main.go:82-95 | the pass loop computes the pass, adds the rolls it removes to the total, and reports whether it removed any |
| PaperRolls.Solve2 | 2025/4/main.go:73-101 | the total of rolls removed by repeated passes until none is accessible: at least part one's count, at most every roll, printed |

## Left out

- Input reading, output writing, console printing and every `main`: these are I/O. Each solver takes its parsed input as a parameter. Parsing that only splits text (ParseInput of 2024/2, ParseLines of 2024/5, ParseInput of 2025/4) is not part of this model.
- Solve1 and Solve2 of 2025/2 and Solve1 of 2025/10 read from a channel that a reader goroutine fills, and only add up per-item results. The per-item operations (CheckSpan, CheckSpan2, minButtonPressesBFS) are modelled; the channel plumbing is not.
- 2024/day17 scripts: building, training, loading and running the Keras network, the sklearn split, pandas, plotting, the random choice of samples and the division of the targets by the largest 64-bit integer are library calls or floating point. The prediction model treats the trained network as a function parameter. The two scripts use different widths, 25 in training and 20 in prediction. Each module keeps its own script's width, and the difference is left as it is in the source.
- PredictCodec.IsDigitInput: accepts only the ASCII digits '0' to '9'. Python's str.isdigit also accepts other Unicode digits, such as Arabic-Indic digits (which int() then reads) or superscripts (on which int() raises); those inputs are not modelled.
- TrainCodec.EncodeDigits: int() is modelled on the ASCII digits only, for the same reason; a non-ASCII decimal digit is reported as an error here although Python would read it.
- TrainCodec.EncodeAll: follows NumPy 1.24 and later, where np.array raises on a ragged list; older NumPy versions build an object array and fail later in training, which is not modelled.
- Equation.Inner: indexes characters where Go's s[1:len(s)-1] indexes bytes, so it agrees with the source only on ASCII input. For example, the two-byte string "é" gives "" in the source but an error here.
- Equation.NewState: reads characters where Go's range loop reports byte offsets and len(s) counts bytes, so it agrees with the source only on ASCII input. For example, on "[é#]" the source sets bit 2 and returns 3, while the model sets bit 1 and returns 2.
- Equation.NewButton: measures the string in characters where Go measures bytes, so it agrees with the source only on ASCII input. For example, on "é" the source strips to "" and sets bit 0, while the model reports a string shorter than 2.
- Dial.ParseLine: takes the first character as the direction where Go's line[0] and line[1:] take one byte, so it agrees with the source only on ASCII input. For example, on "é5" the source's Atoi fails on the trailing byte of é, while the model reads increment 5.
- Equation.TrimSpace: works on characters, so strings.TrimSpace's handling of invalid UTF-8 bytes is not modelled.
- Interval: node pointers are a tree value, so sharing and in-place mutation of nodes are not captured.
- PathGraph.Graph.CountPathsFrom: requires an acyclic graph, witnessed by a ghost rank that drops along every edge. On a cycle the source recurses without end.
- 2025/10: NewEquation parses with a regular expression and is not part of this model. `TargetVoltage`, which main.go reads from the equation, is a parameter. solveIntegerSystemGaussian works on floats and is not modelled. The maps of the breadth-first search are sequences, so Go's map order plays no part.
- Opcode.Run: the run loop of 2024/day17/main.go runs concurrently and is not modelled. Run takes a fuel bound and reports an error when the fuel runs out.
- DiskMaps: the getters (GetFileId, GetFileSize, GetFileBlocks, GetChecksum) and String are not modelled. big.Int checksums are exact integers. Map iteration order is a free choice, and sort calls are their sorted results. Compact's error return cannot happen from a consistent disk, so it is not modelled. Slice aliasing between the maps is not modelled.
- DiskMaps.DiskMap.AddFile: the model keeps the source's partial update when a later block is taken. Consistency is promised only when AddFile succeeds.
- InvalidIds: IDs are unbounded integers; Go's 64-bit `int` overflow on very long IDs is not modelled. sortRuneSlicesByIntValue is not modelled because the list it sorts is already ascending (InvalidIds.DedupedAscending). StrToArrRune, ArrRuneToInt, IntToArrRune, StrToInt and ArrRuneToStr are the decimal conversions of the shared Decimal and GoMath modules.
- LineGeometry: String is formatting. The *Unsafe variants are the unchecked functions IsVerticalRaw, IsHorizontalRaw, DoesCrossRaw and DoesOverlapRaw, defined on any line whose endpoints are present.
- LineGeometry.LengthRaw: decides the axis with the unchecked test, where the source's length calls the validating IsVertical. The two differ only on an invalid line, which length never sees because Length validates first.
- Pieces: NewPoint is the Point constructor. pieceKey is proved independent of cell order, but its injectivity on shapes is not proved. packing/problem.go is not part of this model.
- Packing.SolveWithBacktracking: only soundness is proved, so a true result comes with a packing. Completeness (false only when no packing exists) is not proved. sort.Slice is modelled as a sort by number of choices.
- Keypads: the mutex, the accessors GetCurrentPosition, SetCurrentPosition and ResetPosition, and validateMove's console message are not modelled. Keys are `char`, not Go runes or bytes.
- Simulations.Simulation.AddEntity: the source does not check for an existing entity ID, so the class invariant is promised only when the ID is new or the call fails.
- Simulations: Clone and clone, the copying getters GetEntities, GetMap, GetWidth and GetHeight, IsEmpty, String, the mutexes, and the entity type string are not modelled. UUID generation and its error are not modelled; an entity's ID is a parameter. MoveEntity's console message and second lookup are not modelled.
- PageOrder.Solve1: requires every update to be non-empty. An empty update breaks no rule, so the source takes its middle page and panics with an index out of range (2024/5/main.go:183); that panic is not modelled.
- PageOrder.SortUpdate: the source loops forever on rules with a two-page cycle. The model runs at most `fuel` rounds and reports whether it finished, so PageOrder.Solve2 states its result only for updates it finished. The example total of part two (123) is therefore not proved; part one's 143 is.
- Calibration: String, the getters, convertOperatorsToSymbols (symbols for printing) and the DEBUG printing are not modelled. The count 3^(n-1) that the source computes with math.Pow on floats is an exact power of three.
- PaperRolls: PrintGrid and PrintHeatmap are output. The worked example (13 and 43) is not proved.
- PaperRolls.Solve1: requires a rectangular grid, as the puzzle input is. The source allocates every heatmap row with the first row's width (2025/4/main.go:171), so a row longer than the first makes it index out of range. A row shorter than the first runs in the source, and that case is not modelled.
- PaperRolls.Solve2: requires a rectangular grid for the same reason as Solve1.

## Findings

| source | as written | input that shows it | evidently intended | confidence | as-written member | corrected member |
|---|---|---|---|---|---|---|
| 2025/1/main.go:87-108 | a turn that starts on 0 and moves a whole multiple of 100 counts its full turns and then counts the landing on 0 again | the lines L50 then R100: the dial points at 0 twice, and Solve2 counts 3 | count every click that leaves the dial on 0 exactly once | not executed | Dial.Solve2DoubleCounts | Dial.Solve2Corrected |
