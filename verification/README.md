# Disjoint sets and puzzle arithmetic, modelled in Dafny

This project models the pure core of a collection of Advent of Code
solutions written in Rust. The main part is the disjoint-set structure
`FindUnion`, in its current form (`aoc2025/src/find_union.rs`) and an
earlier form (`2024/Test0/src/find_union.rs`). The model covers the element
to node-id registry, path compression, union by rank, and the partition
queries built on them.

- `Wrappers`: `Option` and `Result`, used wherever the Rust code panics
  or returns an error, so that error paths are part of each contract.
- `Arith`: powers, Rust's truncating `/` and `%`, bitwise xor on
  naturals, and decimal digit counts.
- `Forest`: parent and rank tables over dense node ids. It defines the
  root of a node, the path compression of `_find_root` and the rank
  linking of `join`.
- `FindUnion`: the structure itself. Every mutating operation takes the
  old value and returns the new value together with its answer.
- `FindUnion2024`: the earlier `ensure` and `join`, which answer nothing.
- `Seqs`: distinct sequences, their element sets, reversal and sums.

The Rust structure keeps four hash maps. Three of them are keyed by node
id, and the ids handed out are always 0, 1, 2, ... in order of
registration. The model therefore stores those three tables as sequences
indexed by id, and keeps a map only from element to id.

Sets are stated in terms of roots. `SameSet(fu, a, b)` holds when a and b
are registered and their nodes have the same root. `Related` widens this
with the pairs (x, x). The contract of `join` says that the new partition
is the old one with the sets of u and v merged. The contract of `connected`
says that the answer is exactly `Related` before the call.

Around it, the project models the pure parts of several puzzle solutions
and the grid helpers they share, one module per source file:

- `Vectors` (`aoc2025/src/vec2.rs`): integer vectors, quarter turns and
  the arithmetic operators.
- `Matrices` (`aoc2025/src/matrix.rs`): character grids with bounds,
  reads, writes, counting, the line reader and the mark finders.
- `Mazes` (`aoc2025/src/maze.rs`): headings and their turns, and the start
  search of `make_maze`.
- `BasicParsing` (`aoc2025/src/basic_parsing.rs`): splitting lines at the
  first blank line.
- `Dec1` (the safe dial), `Dec2` (repeated-block ids), `Dec3` (battery
  banks) and `Dec5` (fresh-ingredient ranges) from `aoc2025/src`.
- `Dec7` (calibration operators), `Dec11` (splitting stones), `Dec17`
  (the three-bit computer), `Dec19` (towel patterns), `Dec22` (secret
  numbers), and `Dec24` with `Topological` (logic gates and the
  depth-first topological sort) from `2024/Test0/src`.

Where the Rust code panics, the model returns a `Failure` or `None` that
names the panic. Where it iterates over a hash map or hash set, the
iteration order is a parameter of the model.

## Model

| member | source | states |
|---|---|---|
| FindUnion.Empty | aoc2025/src/find_union.rs:17-20 | `new` gives a structure with no elements that satisfies the representation invariant |
| FindUnion.GetNode | aoc2025/src/find_union.rs:22-33 | a known element keeps its id and changes nothing; a new one gets id = number of known elements, parent itself and rank 0; exactly its singleton set is added |
| Forest.Climb | aoc2025/src/find_union.rs:38-45 | the first walk of `_find_root` ends at a node that is its own parent |
| Forest.Redirect | aoc2025/src/find_union.rs:47-55 | the second walk points every node of the path at the root and leaves every other pointer alone |
| Forest.FindAndCompress | aoc2025/src/find_union.rs:35-57 | `_find_root` returns the root of the start node, and afterwards exactly the nodes on its path point at that root |
| Forest.FindAndCompressKeepsRoots | aoc2025/src/find_union.rs:35-57 | path compression keeps the forest well-formed and keeps the root of every node |
| FindUnion.FindRootIdx | aoc2025/src/find_union.rs:35-57 | on the whole structure, `_find_root` changes only parent pointers and keeps every element, id, rank and root |
| FindUnion.Contains | aoc2025/src/find_union.rs:61-63 | `contains` is true exactly when the element has a node; it returns no new structure, so it registers nothing |
| FindUnion.Ensure | aoc2025/src/find_union.rs:67-73 | `ensure` answers true exactly when the element was absent; it adds only its singleton set, and when the answer is false the structure is unchanged |
| FindUnion.EnsureTwice | aoc2025/src/find_union.rs:67-73 | two `ensure` calls on a new element answer true and then false, and the second leaves the structure as the first left it |
| Forest.Link | aoc2025/src/find_union.rs:85-93 | the root of lower rank becomes the child of the other; on a tie u's root survives and only its rank grows, by exactly one; no other pointer or rank changes |
| Forest.LinkMerges | aoc2025/src/find_union.rs:85-93 | after linking, the nodes under either root resolve to the surviving root and every other node keeps its root |
| FindUnion.LinkRoots | aoc2025/src/find_union.rs:85-93 | linking the roots of u and v merges exactly their two sets, and each rank grows by at most one |
| FindUnion.Join | aoc2025/src/find_union.rs:78-95 | `join` answers false exactly when u and v were already related; afterwards they share a set, the partition is the old one with their two sets merged, and if they were registered in one set no root changes |
| FindUnion.MergedKeepsConnections | aoc2025/src/find_union.rs:78-95 | a join never separates two connected elements |
| FindUnion.FindRoot | aoc2025/src/find_union.rs:99-103 | `find_root` returns an element in u's set whose node is a root; for a known u it is the element at u's old root, and for a new u it is u |
| FindUnion.Connected | aoc2025/src/find_union.rs:107-113 | `connected` answers exactly whether u and v were related before the call; it adds only their singleton sets |
| FindUnion.JoinThenConnected | aoc2025/src/find_union.rs:107-113 | `connected` after `join` on the same pair answers true |
| FindUnion.SameSetIsEquivalence | aoc2025/src/find_union.rs:107-113 | being in the same set is reflexive on registered elements, symmetric and transitive |
| FindUnion.CompressAll | aoc2025/src/find_union.rs:118-122 | the first loop of `get_sets` records the root of every node and keeps every root |
| FindUnion.CollectClasses | aoc2025/src/find_union.rs:124-128 | the buckets collected are the classes of the roots in increasing root order |
| FindUnion.GetSets | aoc2025/src/find_union.rs:116-129 | `get_sets` returns non-empty, pairwise disjoint sets, each exactly one class of the partition; every registered element is in one, and there are as many as there are roots |
| FindUnion.ClassesPartition | aoc2025/src/find_union.rs:116-129 | the reference list of classes is a partition of the registered elements with one entry per root |
| FindUnion.RootListCount | aoc2025/src/find_union.rs:116-129 | the list of roots below n has as many entries as there are roots below n |
| FindUnion2024.Ensure | 2024/Test0/src/find_union.rs:61-63 | the earlier `ensure` registers its element and keeps every element and set as they were |
| FindUnion2024.Join | 2024/Test0/src/find_union.rs:65-81 | the earlier `join` merges the sets of u and v; when they already share a set, no set and no root changes; each rank grows by at most one |
| Seqs.DistinctConcat | 2024/Test0/src/dec24.rs:72-79 | two distinct sequences with disjoint elements concatenate to a distinct sequence holding the elements of both; this is why a depth-first search appends each node once |
| Seqs.SumConcat | aoc2025/src/dec2.rs:198-204 | the sum of a concatenation is the sum of the parts, as the running totals of the loops add up |
| Vectors.RotationsInverse | aoc2025/src/vec2.rs:20-25 | `rot_ccw` undoes `rot_cw` and the other way round, and four turns the same way are the identity |
| Vectors.RotationGeometry | aoc2025/src/vec2.rs:20-25 | a quarter turn keeps the length, is perpendicular to the vector, and turns it to the side its name says |
| Vectors.HalfTurn | aoc2025/src/vec2.rs:20-25 | two quarter turns either way are negation |
| Vectors.UnitsTurn | aoc2025/src/vec2.rs:20-22 | `rot_cw` takes up to right, right to down, down to left and left to up |
| Vectors.UnitsOpposite | aoc2025/src/vec2.rs:41-54 | up and down, and left and right, are negations of each other |
| Vectors.Neg | aoc2025/src/vec2.rs:48-54 | `neg` gives the additive inverse |
| Vectors.NegInvolution | aoc2025/src/vec2.rs:48-54 | negating twice gives the vector back |
| Vectors.Sub | aoc2025/src/vec2.rs:64-70 | `sub(a, b)` is the vector that added to b gives a |
| Vectors.AddSubCancel | aoc2025/src/vec2.rs:56-70 | subtraction undoes addition and the other way round, and subtracting is adding the negation |
| Vectors.MulDistributes | aoc2025/src/vec2.rs:56-78 | scalar multiplication distributes over vector addition and over a sum of scalars |
| Vectors.MulGeometry | aoc2025/src/vec2.rs:72-78 | scaling keeps the direction and scales the squared length by k squared |
| Vectors.Div | aoc2025/src/vec2.rs:80-86 | division truncates each component toward zero as Rust's `/` does: the remainder is smaller than the divisor and has the sign of the component; division by 0 panics |
| Vectors.DivUndoesMul | aoc2025/src/vec2.rs:72-86 | dividing a multiple of k by k gives the vector back |
| Vectors.AddAssign | aoc2025/src/vec2.rs:99-104 | `+=` leaves the left side equal to the sum |
| Vectors.SubAssign | aoc2025/src/vec2.rs:106-111 | `-=` leaves the left side equal to the difference |
| Vectors.MulAssign | aoc2025/src/vec2.rs:113-118 | `*=` leaves the left side equal to the scaled vector |
| Vectors.DivAssign | aoc2025/src/vec2.rs:120-125 | `/=` agrees with `/`, including its panic on 0 |
| Mazes.TurnsInverse | aoc2025/src/maze.rs:32-50 | `turn_ccw` undoes `turn_cw` and the other way round, and four turns the same way are no turn |
| Mazes.Dir | aoc2025/src/maze.rs:52-60 | `dir` is a unit step along one axis |
| Mazes.DirTurns | aoc2025/src/maze.rs:32-60 | turning a heading turns its step: `dir(turn_cw(d)) == dir(d).rot_cw()`, and the same for `turn_ccw` |
| Mazes.FindChar | aoc2025/src/maze.rs:13 | `str::find` gives the first index holding the character, and nothing exactly when the row lacks it |
| Mazes.MakeMaze | aoc2025/src/maze.rs:11-20 | the start is the first cell holding the start character in row-major order, that cell becomes '.', every other cell is unchanged, and a grid without the character panics |
| Matrices.Get | aoc2025/src/matrix.rs:50-55 | `get` is None exactly outside 0 <= x < width, 0 <= y < height, and inside it is the character in row y at column x |
| Matrices.GetRow | aoc2025/src/matrix.rs:57-62 | `get_row` is None exactly outside the rows and otherwise the row, of length width |
| Matrices.GetInt | aoc2025/src/matrix.rs:64-69 | `get_int` is None outside the grid, the digit's value inside, and panics on a cell that is not a digit |
| Matrices.GetIntRow | aoc2025/src/matrix.rs:71-76 | `get_int_row` is None exactly outside the rows; inside, it panics exactly when some cell of the row is not a digit, and otherwise holds one value per column, each the digit value of its cell and the value `get_int` reads there |
| Matrices.Put | aoc2025/src/matrix.rs:78-83 | `put` succeeds exactly inside the grid, keeps its size, and panics with the position outside |
| Matrices.GetAfterPut | aoc2025/src/matrix.rs:78-83 | after `put(p, c)`, `get(p)` is c and every other position reads as before |
| Matrices.PutPut | aoc2025/src/matrix.rs:78-83 | a second write to the same cell wins; writes to different cells commute |
| Matrices.New | aoc2025/src/matrix.rs:30-48 | `new` builds a width x height grid whose border cells hold the wall character, when there is one, and whose other cells hold fill |
| Matrices.Count | aoc2025/src/matrix.rs:97-103 | `count` is the number of cells holding c, at most width times height |
| Matrices.CountAfterPut | aoc2025/src/matrix.rs:78-103 | writing over a cell changes the count of c by the cell's old and new character |
| Matrices.ReadMatrixFromLines | aoc2025/src/matrix.rs:113-126 | no lines give a 0 x 0 grid; lines of equal length give the grid of them; otherwise the error names the first line whose length differs from the first line's |
| Matrices.ReadMatrixFromLinesAsWritten | aoc2025/src/matrix.rs:118-122 | as written, the reader fails on the same inputs, but the index it reports is one less than the offending line's |
| Matrices.MisreportedLine | aoc2025/src/matrix.rs:119-121 | for ["ab", "c"] the written code blames line 0, which has the right length |
| Matrices.FindPoints | aoc2025/src/matrix.rs:143-164 | `find_points` lists, for each mark that occurs, exactly its positions, in row-major order, and overwrites them with fill when given; no other cell changes |
| Matrices.PointsSingle | aoc2025/src/matrix.rs:176-181 | every list has exactly one entry exactly when no mark occurs twice |
| Matrices.FindSinglePoints | aoc2025/src/matrix.rs:170-183 | `find_single_points` succeeds exactly when no mark occurs twice and, when `all` is set, every mark occurs; it then maps each mark that occurs to its one position |
| BasicParsing.ScanSpec | aoc2025/src/basic_parsing.rs:45-62 | the loop's state after any prefix of the lines: the first list is that prefix up to its first blank line, both lists together are its non-blank lines, and the `first` flag is set exactly when no blank line was seen, in which case the second list is empty |
| BasicParsing.SeparateByBlank | aoc2025/src/basic_parsing.rs:45-62 | the first list is the lines before the first blank line, neither list holds an empty line, both together are the input without its blank lines, and with no blank line the second list is empty |
| Dec1.Wrap | aoc2025/src/dec1.rs:31-35 | Rust's `%` followed by the correction for a negative result leaves the position in [0, 100), congruent to the unwrapped one |
| Dec1.ComputeStuff | aoc2025/src/dec1.rs:27-42 | `compute_stuff` counts a start at 0 once plus every move that ends at 0 |
| Dec1.RightClicks | aoc2025/src/dec1.rs:58-86 | turning right n clicks from p shows 0 exactly (p + n) / 100 times |
| Dec1.LeftIsMirroredRight | aoc2025/src/dec1.rs:54-66 | turning left from p meets 0 on the same clicks as turning right from the mirrored position |
| Dec1.Turn | aoc2025/src/dec1.rs:47-86 | one move from a position on the dial ends on the dial and counts at least its full rotations; a zero-length move is skipped |
| Dec1.TurnCountsClicks | aoc2025/src/dec1.rs:47-86 | one move ends where its clicks lead and counts exactly the clicks that show 0 |
| Dec1.TurnAsWritten | aoc2025/src/dec1.rs:70-74 | the written step panics wherever the intended one does |
| Dec1.TurnAsWrittenPanics | aoc2025/src/dec1.rs:70-74 | as written, a move panics exactly when it starts at 0 and its length is a positive multiple of 100; otherwise it agrees with the intended step |
| Dec1.Dial | aoc2025/src/dec1.rs:47-87 | the moves from a position on the dial count every click that shows 0 |
| Dec1.ComputeStuff2 | aoc2025/src/dec1.rs:44-89 | `compute_stuff2` with the start-at-0 case handled: a start at 0 counts once plus every click of every move that shows 0 |
| Dec1.DialAsWritten | aoc2025/src/dec1.rs:44-89 | the written loop panics wherever the intended one does, and wherever it does not panic it gives the intended count |
| Dec1.ComputeStuff2AsWritten | aoc2025/src/dec1.rs:44-89 | `compute_stuff2` as written panics wherever the corrected one does, and wherever it does not panic it returns the corrected count |
| Dec1.FullTurnFromZeroPanics | aoc2025/src/dec1.rs:70-74 | R50 from 50 then R100 panics as written, though the dial shows 0 twice |
| Dec2.DecomposeNum | aoc2025/src/dec2.rs:99-109 | 0 gives no pieces; the pieces read back as the number; a positive number gives digits in [0, power) with a nonzero top digit, a negative one pieces in (-power, 0] |
| Dec2.ComposeRange | aoc2025/src/dec2.rs:99-109 | k digits in [0, power) read as a number below power^k |
| Dec2.DecomposeCompose | aoc2025/src/dec2.rs:99-109 | decomposing the number a canonical digit list reads as gives the list back |
| Dec2.DigitsLength | aoc2025/src/dec2.rs:99-109 | the decimal pieces of x are as many as `ilog10(x) + 1` |
| Dec2.RepeatComposes | aoc2025/src/dec2.rs:176-180 | the construction is the number whose digits are n copies of the digits of i |
| Dec2.RepeatDigits | aoc2025/src/dec2.rs:176-180 | the decimal digits of the construction are the digits of i written n times |
| Dec2.RepeatDigitCount | aoc2025/src/dec2.rs:176-180 | the construction has n times as many digits as i |
| Dec2.RepeatBlocks | aoc2025/src/dec2.rs:176-180 | cut into blocks of i's width, the construction is n blocks equal to i |
| Dec2.RepeatMono | aoc2025/src/dec2.rs:174-180 | the construction grows strictly with its block, so distinct blocks give distinct ids |
| Dec2.BlockCount | aoc2025/src/dec2.rs:136-141 | a bound whose digit count is a multiple of n splits into exactly n blocks |
| Dec2.ScanStartSpec | aoc2025/src/dec2.rs:146-156 | the start scan keeps the top block exactly when the start is not above that block written n times |
| Dec2.ScanEndSpec | aoc2025/src/dec2.rs:158-168 | the end scan keeps the top block exactly when the end is not below that block written n times |
| Dec2.StartOkBounds | aoc2025/src/dec2.rs:146-156 | `start_ok` is the least block whose repetition is not below the start |
| Dec2.EndOkBounds | aoc2025/src/dec2.rs:158-168 | `end_ok` is the greatest block whose repetition is not above the end |
| Dec2.RoundUpStart | aoc2025/src/dec2.rs:115-120 | the start moves to the least number not below it whose digit count is a multiple of n |
| Dec2.RoundDownEnd | aoc2025/src/dec2.rs:122-127 | the end moves to the greatest positive number not above it whose digit count is a multiple of n, or to 0 when there is none |
| Dec2.ScanSelects | aoc2025/src/dec2.rs:146-174 | a block lies between `start_ok` and `end_ok` exactly when its repetition lies between the rounded bounds |
| Dec2.CountRange | aoc2025/src/dec2.rs:174-189 | the loop adds each repetition of the blocks that was not found before, once, and adds every repetition to the found set |
| Dec2.RangeRepetitions | aoc2025/src/dec2.rs:111-174 | the blocks from `start_ok` to `end_ok` give exactly the repetitions of n blocks in the range |
| Dec2.NoneInShortRange | aoc2025/src/dec2.rs:122-133 | when the rounded end has no digits, the range holds no repetition of n blocks |
| Dec2.FindInvalids2 | aoc2025/src/dec2.rs:111-193 | `find_invalids2` returns the sum of the repetitions of n blocks in the range that were not found before, each once, and adds all of them to the found set |
| Dec2.AllBlockCounts | aoc2025/src/dec2.rs:199-200 | a repetition of m blocks has at least m digits, so the block counts 2 to the end's digit count find every repetition in the range |
| Dec2.SolveBlocks | aoc2025/src/dec2.rs:200-203 | the block counts from n to the last one count each repetition in the range once across all counts |
| Dec2.SolveInput | aoc2025/src/dec2.rs:199-203 | one range adds exactly its invalid ids that were not found before |
| Dec2.InvalidOfAllMembers | aoc2025/src/dec2.rs:198-204 | an id is invalid for the list exactly when some range holds it and it repeats a block at least twice |
| Dec2.SolveInputs | aoc2025/src/dec2.rs:198-204 | over the ranges with one shared found set, every invalid id of any range is summed once |
| Dec2.SolveTask2 | aoc2025/src/dec2.rs:195-206 | the answer is the sum of a list without repeats that holds exactly the ids lying in some range whose digits are one block written at least twice |
| Dec3.Max | aoc2025/src/dec3.rs:6 | `iter().max()` is an entry not below any other |
| Dec3.Position | aoc2025/src/dec3.rs:7 | `iter().position(..)` is the first index holding the value |
| Dec3.BankVoltage | aoc2025/src/dec3.rs:4-11 | `bank_voltage` succeeds exactly for banks of two entries or more |
| Dec3.Lead | aoc2025/src/dec3.rs:30-33 | the leading pick is the leftmost largest entry among those that leave k - 1 entries after it |
| Dec3.LeadIsMaxThenPosition | aoc2025/src/dec3.rs:30-32 | the maximum of the prefix followed by the position of that maximum is that leftmost largest entry |
| Dec3.BankVoltage2 | aoc2025/src/dec3.rs:25-37 | `bank_voltage2` succeeds exactly when 1 <= k <= the bank length |
| Dec3.BankVoltageIsK2 | aoc2025/src/dec3.rs:4-37 | `bank_voltage(b) == bank_voltage2(b, 2)`, failures included |
| Dec3.BankVoltage2IsMaximal | aoc2025/src/dec3.rs:25-37 | no k digits kept in order read as a larger number than the greedy result |
| Dec3.BankVoltage2IsAttained | aoc2025/src/dec3.rs:25-37 | the greedy result is the number of some k digits kept in order |
| Dec3.BankVoltage2Bounds | aoc2025/src/dec3.rs:35 | on digits the result lies in [0, 10^k) |
| Dec5.ToExclusive | aoc2025/src/dec5.rs:20-36 | the conversion to an exclusive range keeps membership for every id |
| Dec5.SolveTask | aoc2025/src/dec5.rs:56-67 | `solve_task` counts each listed id once when some range contains it, at most the number of ids |
| Dec5.UnionMembers | aoc2025/src/dec5.rs:70-93 | the union is exactly the ids some half-open range contains |
| Dec5.SortByKey | aoc2025/src/dec5.rs:75 | the sort by (start, end) gives a sorted permutation of the ranges |
| Dec5.UnionOfPermutation | aoc2025/src/dec5.rs:75 | reordering the ranges keeps their union |
| Dec5.SolveTask2 | aoc2025/src/dec5.rs:70-93 | `solve_task2` is the size of the union of the ranges, and 0 for no ranges; inside the sweep `cur_pos` never decreases and ends each step at or beyond the range's start and end |
| Dec5.SweepCount | aoc2025/src/dec5.rs:84-89 | each sweep step adds exactly the part of the range not seen yet |
| Dec7.ILog10 | 2024/Test0/src/dec7.rs:102 | `ilog10(n)` is the exponent of the largest power of ten not above n |
| Dec7.Apply | 2024/Test0/src/dec7.rs:97-104 | one operator step; concatenation panics exactly on a number that is not positive |
| Dec7.ConcatSplits | 2024/Test0/src/dec7.rs:100-104 | concatenation computes res * 10^(digits(n)) + n: dividing by that power gives res back and the remainder is n |
| Dec7.SolvableImpliesSolvable2 | 2024/Test0/src/dec7.rs:35-116 | a task solvable with + and * is solvable in part two |
| Dec7.BitsOpsBit | 2024/Test0/src/dec7.rs:47-53 | combination number m picks * at position j exactly when bit j of m is set |
| Dec7.BitsOpsOnto | 2024/Test0/src/dec7.rs:44-45 | every choice of + and * is some combination number below 2^(k) |
| Dec7.Scan | 2024/Test0/src/dec7.rs:45-59 | the loop over combinations is true exactly when some remaining combination hits the result |
| Dec7.SolveTask | 2024/Test0/src/dec7.rs:35-60 | no numbers solve exactly a result of 0; more than 60 numbers panic; otherwise the answer is whether some + and * choice hits the result |
| Dec7.ValueInjective | 2024/Test0/src/dec7.rs:77-92 | different combinations of one length have different counter values |
| Dec7.Inc | 2024/Test0/src/dec7.rs:77-92 | `inc` adds one to the base-3 counter, and answers false after wrapping past the last combination to all +; it panics on the empty combination |
| Dec7.Search | 2024/Test0/src/dec7.rs:94-115 | the loop answers true only for a hit, false only when no combination hits, and panics only on a concatenation with a non-positive number or on `inc` of the empty combination |
| Dec7.SolveTask2 | 2024/Test0/src/dec7.rs:69-116 | with `inc` guarded: no numbers solve exactly 0; otherwise the answer is whether some +, * and concatenation choice hits the result, and positive numbers never panic |
| Dec7.SolveTask2AsWritten | 2024/Test0/src/dec7.rs:69-116 | as written, a single number that misses the result panics; every other task agrees with the guarded version |
| Dec7.SingleNumberPanics | 2024/Test0/src/dec7.rs:75-112 | the task 5: 3 panics as written, and is unsolvable in the guarded version |
| Dec7.Dec7Count | 2024/Test0/src/dec7.rs:118-126 | with the guarded `solve_task2`: `dec7_count` sums the results of the solvable tasks and succeeds whenever every task can be decided |
| Dec7.Dec7CountAsWritten | 2024/Test0/src/dec7.rs:118-126 | `dec7_count` as written sums the results of the solvable tasks; it succeeds whenever every task can be decided and, in part two, no single number misses its result; it panics on `inc` only in part two with such a task; wherever it succeeds, and always in part one, it equals the guarded count |
| Dec7.CountSingleNumberPanics | 2024/Test0/src/dec7.rs:118-126 | the task list [5: 3] makes part two panic as written, while the guarded count gives 0 |
| Dec11.Blink | 2024/Test0/src/dec11.rs:6-19 | 0 becomes [1]; an odd digit count multiplies by 2024; one or two stones come out |
| Dec11.BlinkSplits | 2024/Test0/src/dec11.rs:11-16 | an even digit count 2h splits into the high h digits and the low h digits |
| Dec11.ComputeStep | 2024/Test0/src/dec11.rs:4-21 | `compute_step` gives at least as many and at most twice as many stones |
| Dec11.ComputeStepAppend | 2024/Test0/src/dec11.rs:4-21 | stones blink independently: a row side by side with another blinks into the two results side by side |
| Dec11.BlinksGrow | 2024/Test0/src/dec11.rs:28-36 | blinking never removes stones |
| Dec11.BlinksAppend | 2024/Test0/src/dec11.rs:28-36 | any number of blinks of two rows side by side are their results side by side |
| Dec11.ComputeResult | 2024/Test0/src/dec11.rs:28-36 | `compute_result` blinks the row `steps` times, not at all for a negative count |
| Dec11.MemoizeStep | 2024/Test0/src/dec11.rs:38-54 | 0 steps give 1; with a cache of true counts, the answer is the number of stones after `steps` blinks of `[num]`, and the cache stays true and only grows |
| Dec11.MemoizeRow | 2024/Test0/src/dec11.rs:45-49 | the loop over the first blink's stones adds up their counts |
| Dec11.ComputeResult2 | 2024/Test0/src/dec11.rs:56-63 | `compute_result2` is the length of the row after `steps` blinks |
| Dec17.Combo | 2024/Test0/src/dec17.rs:44-52 | operands 0 to 3 stand for themselves, 4, 5 and 6 for registers a, b and c, and every other value panics |
| Dec17.Step | 2024/Test0/src/dec17.rs:105-119 | one instruction: `out` appends a value below 8 and nothing else writes output; `jnz` jumps exactly when a is not 0; every other instruction moves on by 2; it panics exactly on a missing operand, an unknown opcode, a bad combo operand, or an adv, bdv or cdv whose `1 << v` shifts by 64 or more, which only a register operand can cause |
| Dec17.ShiftBy64Panics | 2024/Test0/src/dec17.rs:110 | adv with operand 4 panics when a is 64, and sets a to 0 when a is 63 |
| Dec17.Run | 2024/Test0/src/dec17.rs:100-122 | the loop halts with the output once pc is past the program, and every output value is an octal digit |
| Dec17.RunMoreFuel | 2024/Test0/src/dec17.rs:100-122 | a finished run gives the same result with more fuel |
| Dec17.ComputeEx | 2024/Test0/src/dec17.rs:94-123 | `compute_ex` with register c started from its parameter; every output value is an octal digit |
| Dec17.ComputeExAsWritten | 2024/Test0/src/dec17.rs:94-99 | as written, the local counter shadows the parameter, so register c always starts at 0 |
| Dec17.ShadowedRegisterC | 2024/Test0/src/dec17.rs:94-99 | the program `out c` started with c = 5 prints 0 as written, 5 as intended |
| Dec17.ComputeAsWritten | 2024/Test0/src/dec17.rs:90-99 | `compute` as written runs the program with register c at 0, whatever the input's c |
| Dec17.Compute | 2024/Test0/src/dec17.rs:90-92 | `compute` on the corrected `compute_ex`: every output value is an octal digit, and for an input whose c is 0 it agrees with the code as written |
| Dec17.ComputeIgnoresRegisterC | 2024/Test0/src/dec17.rs:90-99 | the input c = 5 with `out c` prints 0 as written and 5 corrected |
| Dec17.ToDigits | 2024/Test0/src/dec17.rs:125-135 | `to_digits` is non-empty, with digits in 0..8 for n >= 0 |
| Dec17.FromToDigits | 2024/Test0/src/dec17.rs:125-143 | `from_digits(to_digits(n)) == n` for every n |
| Dec17.ToFromDigits | 2024/Test0/src/dec17.rs:125-143 | `to_digits(from_digits(ds)) == ds` for the digit lists `to_digits` produces |
| Dec19.CountPositive | 2024/Test0/src/dec19.rs:55-71 | a design has a way exactly when it can be built from the patterns |
| Dec19.PossibleCount | 2024/Test0/src/dec19.rs:55-71 | `compute_possible_count` is the number of ways to build the design from the patterns, whatever true counts the cache already holds; the cache stays true and gains the design |
| Dec19.Expand | 2024/Test0/src/dec19.rs:34-41 | the pattern loop pushes and marks each unvisited rest of the popped string, and every rest ends up visited |
| Dec19.OnePossible | 2024/Test0/src/dec19.rs:19-43 | `compute_one_possible` is true exactly when the design can be built |
| Dec19.ComputePossible | 2024/Test0/src/dec19.rs:45-53 | `compute_possible` counts the designs that can be built |
| Dec19.ComputePossible2 | 2024/Test0/src/dec19.rs:73-80 | `compute_possible2` sums the ways over the designs with one shared cache |
| Dec19.CountsAgree | 2024/Test0/src/dec19.rs:19-80 | the number of buildable designs is at most the total of ways, and one is 0 exactly when the other is |
| Dec22.Prune | 2024/Test0/src/dec22.rs:6-8 | `prune` of a non-negative value lies in [0, 2^24), is congruent to it, and keeps values already below 2^24 |
| Dec22.MixProperties | 2024/Test0/src/dec22.rs:10-12 | `mix(v, v) == 0` and `mix` is commutative |
| Dec22.MixInRange | 2024/Test0/src/dec22.rs:10-12 | mixing two 24-bit values gives a 24-bit value |
| Dec22.Step | 2024/Test0/src/dec22.rs:14-19 | `step` maps every non-negative value into [0, 2^24) |
| Dec22.MiddlePruneIsNoOp | 2024/Test0/src/dec22.rs:16 | the middle prune never changes anything |
| Dec22.SecretAdd | 2024/Test0/src/dec22.rs:21-27 | m steps followed by n steps are m + n steps |
| Dec22.ComputeOne | 2024/Test0/src/dec22.rs:21-27 | for a non-negative secret, `compute_one` with no steps is the identity, and n + 1 steps are `step` after n steps |
| Dec22.PricesSpec | 2024/Test0/src/dec22.rs:29-37 | the prices after n steps are n + 1 digits, entry i the last digit of the i-th secret |
| Dec22.CollectOne | 2024/Test0/src/dec22.rs:29-37 | for a non-negative secret, `collect_one` has steps + 1 prices, entry i the last digit of the i-th secret, each in 0..9 |
| Dec22.AdjacentDifferences | 2024/Test0/src/dec22.rs:49-51 | n entries give n - 1 differences, each the step from one entry to the next |
| Dec22.DifferencesReconstruct | 2024/Test0/src/dec22.rs:49-51 | the first entry plus the first k differences is entry k |
| Dec22.ComputeSecToBan | 2024/Test0/src/dec22.rs:56-66 | the keys are exactly the runs of four changes that occur, each mapped to the price at its first occurrence |
| Dec22.TableSpec | 2024/Test0/src/dec22.rs:59-64 | adding each run only when it is not yet a key leaves exactly the runs seen as keys, each mapped to the value at its first occurrence |
| Topological.BuildNeighbors | 2024/Test0/src/dec24.rs:88-91 | y is a neighbour of x exactly when x -> y is an edge |
| Topological.Dfs | 2024/Test0/src/dec24.rs:68-80 | `topo_dfs` marks the node, appends each newly visited node once, and nothing else |
| Topological.DfsList | 2024/Test0/src/dec24.rs:95-98 | the searches from the start nodes in turn visit all of them and append each newly visited node once |
| Topological.TopoSort | 2024/Test0/src/dec24.rs:84-102 | `topo_sort` has no duplicates, holds every node, and holds nothing that is neither a node nor an edge target |
| Topological.TopoSortOrdered | 2024/Test0/src/dec24.rs:82-102 | for acyclic edges, x comes before y for every edge x -> y, and the successors of a listed node are listed |
| Dec24.HalfAdder | 2024/Test0/src/dec24.rs:183-187 | XOR and AND of two bits are the low and high bit of their sum, and OR holds when the sum is positive |
| Dec24.ParseI64 | 2024/Test0/src/dec24.rs:143 | `parse::<i64>` reads a digit string within range as its decimal value |
| Dec24.NameInjective | 2024/Test0/src/dec24.rs:152 | distinct bit numbers give distinct wire names |
| Dec24.Inject | 2024/Test0/src/dec24.rs:149-154 | `inject` writes bit i of the value to the wire named prefix and i in two digits, for all 64 bits, and leaves every other wire alone |
| Dec24.Decode | 2024/Test0/src/dec24.rs:136-147 | `decode` succeeds exactly when every true wire under the prefix has a bit number that parses; it gives 64 bits |
| Dec24.DecodeBits | 2024/Test0/src/dec24.rs:136-147 | bit i of the result is set exactly when some true wire under the prefix names bit i |
| Dec24.DecodeInject | 2024/Test0/src/dec24.rs:136-154 | decoding the wires that `inject` wrote into an empty map gives the value back, in any iteration order |
| Dec24.GatesOrder | 2024/Test0/src/dec24.rs:104-109 | `gates_order` lists every gate output exactly once |
| Dec24.GatesOrderTopological | 2024/Test0/src/dec24.rs:104-109 | in a circuit without feedback, every gate comes after the gates that drive its inputs |
| Dec24.EvalStep | 2024/Test0/src/dec24.rs:172-199 | one turn skips a known wire or a gate with an unknown input, panics on a name that is not a gate, and otherwise stores the gate's value; a computed gate named z and a suffix panics unless the suffix parses to a bit number in 0..63 |
| Dec24.Evaluate | 2024/Test0/src/dec24.rs:172-199 | the loop only adds wire values, each one the gate's function of its inputs' values and under a bit name when it starts with z; a panic names a wire of the order without a value that is either not a gate or a z gate without a bit number; there is no panic when every wire is known or a gate with a valid name |
| Dec24.ZGateNotANumber | 2024/Test0/src/dec24.rs:190-192 | a computed gate named zq panics at `unwrap`, whatever it computes |
| Dec24.ZGateShiftOverflow | 2024/Test0/src/dec24.rs:190-192 | a computed gate named z99 overflows the shift, whatever it computes |
| Dec24.EvaluateComplete | 2024/Test0/src/dec24.rs:172-199 | when each gate's inputs are ready in time, the loop panics exactly when some gate of the order without a starting value is a z name without a bit number, and otherwise every gate of the order gets a value |
| Dec24.Compute | 2024/Test0/src/dec24.rs:156-199 | `compute` panics only on a computed z gate without a bit number, and not at all when every such gate name is valid; it keeps the initial and injected values and gives every new wire its gate's value |
| Dec24.ComputeComplete | 2024/Test0/src/dec24.rs:156-199 | in a circuit without feedback whose inputs are all gates or known wires, `compute` panics exactly when a gate without a starting value is a z name without a bit number, and otherwise every gate gets its computed value |

## Left out

- The two structures are line-for-line the same outside `ensure` and `join`
  (2024/Test0/src/find_union.rs:15-59 and 83-102 match the corresponding
  lines of the current one). Their shared operations are modelled once in
  `FindUnion`.
- `FindUnion.GetSets`: the Rust code iterates over a hash map, so the order
  of the returned sets is unspecified. The model returns them in increasing
  root id, and its contract says nothing about order.
- Node ids and ranks are `i32` in Rust. The model uses unbounded integers;
  more than 2^31 elements cannot be registered in practice.
- The hash maps keyed by node id are sequences; this needs the ids to be
  dense, which registration guarantees.
- Reading files, printing, the `decN` drivers and every `parse_input`:
  input arrives as already parsed values. Where a parser's pattern admits
  only digit strings (`\d+`), the fields are natural numbers.
- Integers are unbounded. Arithmetic overflow of `i64` and `i32` values is
  not modelled in any puzzle; the inputs the puzzles use stay far from it.
  Shifts of an `i64` by 64 or more are modelled as panics, as in a debug
  build: the z-bit lookup of `Dec24.EvalStep` and the divisions of
  `Dec17.Step`.
- Hash map and hash set iteration orders (the node and edge sets of
  `topo_sort`, the wire map of `decode`, the result of `find_points`)
  are parameters of the model; the contracts hold for every order.
- Strings are sequences of characters; the Rust code indexes ASCII bytes,
  which agree with characters for the puzzle inputs.
- Mazes.MakeMaze: the row index is converted with `as i32`; grids of more
  than 2^31 rows are not modelled.
- Dec2.SolveTask2: range bounds must satisfy `Checked`, because `ilog10`
  panics on 0; `find_invalids` and `solve_task` (part one, the special
  case of two blocks) are not modelled, nor the `result += i` tally that
  is only printed.
- Dec2.DecomposeNum: requires a base of at least 2; the code calls it only
  with powers of ten of at least 10.
- Dec7.SolveTask2: a concatenation with a number that is not positive is
  reported as a failure, where `ilog10` would panic; the guarded `inc`
  is the corrected code (see Findings).
- Dec7.Dec7Count: part two runs the guarded `solve_task2`, so a task with
  a single number that misses its result counts nothing instead of
  panicking; `Dec7.Dec7CountAsWritten` keeps that panic (see Findings).
- Dec17.Compute: starts register c from the input's c, as evidently
  intended. The source's `compute` calls the written `compute_ex`, which
  starts c at 0; `Dec17.ComputeAsWritten` models that, and the two agree
  exactly on inputs whose c is 0 (see Findings).
- Dec17.Run: a run is bounded by a fuel count; a program that never halts
  is reported as out of fuel rather than looping.
- Dec17: `decode`, `decode_combo_sym` and `multi_compute*` print or search
  by brute force and are not modelled.
- Dec19.PossibleCount: patterns must be non-empty; the empty pattern makes
  `compute_possible_count` recurse forever.
- Dec24.Compute: the random operands become parameters `x` and `y`. The
  z-bit check looks up each computed z gate's bit, and its `unwrap` and
  shift panics are modelled; what the check then does with the bit only
  prints and is left out. The final `decode("z", ..)` is left out too;
  `DecodeBits` describes it on its own. A bit number outside 0..63 is
  taken to panic, as the shift does in a debug build. `print_graph` is not
  modelled.
- Dec22: `compute`, `find_best_pattern` and the drivers that sum over
  buyers are not modelled; they print and search by brute force.
- Dec22.CollectOne: the initial secret is a natural number, as in the
  puzzle inputs. The source reads secrets with `parse` into `i64`, which
  also accepts a negative number; under Rust's truncating `%` a negative
  secret gives negative prices, which the 0..9 bound does not cover.
- Dec22.ComputeOne: the initial secret is a natural number, for the
  reason given for `Dec22.CollectOne`.
- Dec22.Prune: the value is a natural number; the truncating `%` of a
  negative value is not modelled, for the reason given for
  `Dec22.CollectOne`.
- Dec22.Step: the secret is a natural number, for the reason given for
  `Dec22.CollectOne`; the exclusive or of negative `i64` values is not
  modelled.
- Dec11.MemoizeStep: the step count is a natural number; a negative count
  in the `i32` parameter would recurse without end.

## Findings

| source | as written | input that shows it | evidently intended | confidence | as-written member | corrected member |
|---|---|---|---|---|---|---|
| 2024/Test0/src/dec17.rs:94-99 | the local `pc` counter shadows the parameter `pc`, so `c = pc` sets register c to 0 | program [5, 6] (`out c`) with c = 5 prints [0] | register c starts at the parameter's value and the program prints [5] | high, not executed | Dec17.ComputeExAsWritten, Dec17.ComputeAsWritten, Dec17.ShadowedRegisterC, Dec17.ComputeIgnoresRegisterC | Dec17.ComputeEx, Dec17.Compute |
| aoc2025/src/dec1.rs:70-74 | a move that starts at 0 and ends at 0 panics with "Impossible" | moves R50, R100 from 50: the second move starts at 0 and turns a full rotation | count the full rotation and go on; the dial shows 0 twice | high, not executed | Dec1.TurnAsWritten, Dec1.TurnAsWrittenPanics, Dec1.ComputeStuff2AsWritten, Dec1.FullTurnFromZeroPanics | Dec1.Turn, Dec1.ComputeStuff2, Dec1.TurnCountsClicks |
| aoc2025/src/matrix.rs:119-121 | `skip(1).enumerate()` counts from the second line, so the reported index is one too small | lines ["ab", "c"] report line 0, which has the right length | report line 1, the short one | high, not executed | Matrices.ReadMatrixFromLinesAsWritten, Matrices.MisreportedLine | Matrices.ReadMatrixFromLines |
| 2024/Test0/src/dec7.rs:75-112 | with one number the combination is empty and `inc` indexes `comb[0]`, which panics | task 5: 3 | answer false, as there is no operator left to try | high, not executed | Dec7.SolveTask2AsWritten, Dec7.SingleNumberPanics, Dec7.Dec7CountAsWritten, Dec7.CountSingleNumberPanics | Dec7.IncChecked, Dec7.SolveTask2, Dec7.Dec7Count |
