# Advent of Code 2022 solvers, days 7 to 12, in Dafny

This project models six puzzle solvers from a TypeScript repository of
Advent of Code 2022 answers. It states and proves what each solver computes.
Each day is one module. `Wrappers` holds `Option`/`Result`. `Text` holds the
small string helpers the solvers rely on: splitting on a separator and reading
decimal numerals.

- **Day 7, filesystem tree** (`Day7.dfy`). A terminal session of `$ cd`,
  `$ ls`, `dir x` and `size name` lines is replayed into a directory tree. Then
  come recursive sizes, a pre-order listing of all descendants, and the two
  size queries.
  - The tree is an arena: nodes sit in a sequence and refer to their parent
    and children by index. Index 0 is the root, which is its own parent.
  - A `dir` or file line without a name field still adds a node. That node
    has no name, so no `cd` can reach it. An empty size field reads as 0.
  - `FileSystem` is a class whose `AddChild` appends to it. `FromCommands` is
    the source's loop, proved equal to the pure replay `Replay`.
  - The listing is proved to hold every strict descendant exactly once.
  - Part 1 and part 2 are proved against that characterisation: the sizes of
    small directories, and the least directory size that frees enough space.
- **Day 8, tree visibility** (`Day8.dfy`).
  - `CountVisible` is the source's counting loop, proved equal to the viewing
    distance `ViewingDistance`.
  - Part 1 counts the perimeter plus every interior tree that is strictly
    taller than all trees towards some edge.
  - Part 2 fills a two-dimensional array of scenic scores, then takes its
    maximum. The result is proved to be the maximum scenic score of the grid.
- **Day 9, rope** (`Day9.dfy`).
  - `Rope` holds its knots in an array and the tail trail in a sequence.
    `Rope.Move` is the source's nested loop, proved equal to the functional
    step `StepN`.
  - Every unit step keeps each knot adjacent to the one before it. The tail
    moves by at most one cell per step.
  - The answer is the number of distinct tail positions. It is at most the
    number of steps.
- **Day 10, CPU and CRT** (`Day10.dfy`).
  - `Cpu`, `Crt` and `Device` are classes, as in the source.
  - The cycle log the CPU builds is proved equal to an independent definition
    of the X register at each cycle, `Register`.
  - The 6×40 display is proved to show `#` exactly where some cycle's sprite
    covered the pixel.
  - Part 1 sums the six signal strengths. It fails exactly when the program
    takes fewer than 219 cycles (its log, which starts with cycle 1 before any
    instruction, then has no entry for cycle 220) or lights a pixel past the
    sixth row, which are the places the source throws.
- **Day 11, monkeys** (`Day11.dfy`).
  - `Monkey` is a class whose `PlayTurn` shifts its own queue and pushes onto
    other monkeys' queues. It is proved equal to a functional turn `Turn` over
    monkey states.
  - A turn empties the playing monkey's queue and counts each of its items
    once. It delivers each item, in order, to its target, and neither creates
    nor loses an item.
  - Reducing a worry modulo the product of all divisors never changes any
    divisibility test.
  - The answer is the product of the two largest inspection counts.
- **Day 12, hill climbing** (`Day12.dfy`).
  - `FindCoordinate` scans the grid in row-major order.
  - `NewMap` normalises `S`/`E` to `a`/`z`.
  - `Map.Evaluate` is the source's breadth-first search with a FIFO queue and
    a `seen` list. It is proved to return the length of a shortest legal path,
    or nothing exactly when the end is unreachable.
  - The lowest starting cost is proved to be the minimum over all reachable
    `a` cells, and at most the cost from `S`.

The step rule of day 12 is `from - to >= -1`
(`lambda/day/12/solution.ts:75-83`). This caps a climb at one letter and lets
any descent through. `Map.CanMove` states this rule.

Day 11 part 1 floors the worry divided by 3 before it reduces it modulo the
product of divisors. Flooring does not respect congruence, so this reduction
is not answer-preserving in general. `Day11.PutDownBreaksCongruence` exhibits
it. The model follows the code here.

## Model

| member | source | states |
|---|---|---|
| Text.ParseNat | lambda/day/7/solution.ts:95 | a size field reads as a number exactly when it is a non-empty string of decimal digits |
| Text.ParseInt | lambda/day/10/solution.ts:52 | an operand reads as a number exactly when it is a non-empty digit string, optionally after one minus sign |
| Text.Split | lambda/day/7/solution.ts:94 | splitting on a separator yields at least one field and no field contains the separator |
| Day7.Added | lambda/day/7/solution.ts:31-33 | adding a child appends the node at the end, appends its index to the directory's children, changes nothing else and keeps the tree well formed |
| Day7.AddedWellFormed | lambda/day/7/solution.ts:31-33 | appending a fresh child to a directory of a well-formed tree yields a well-formed tree |
| Day7.FileSystem.constructor | lambda/day/7/solution.ts:65-70 | a new filesystem holds only the root directory "/", which is its own parent and has no children |
| Day7.FileSystem.AddChild | lambda/day/7/solution.ts:31-33 | the node list becomes Added(old nodes, dir, node); the tree stays well formed |
| Day7.IsRootOnlyRoot | lambda/day/7/solution.ts:26-37 | a node is its own parent exactly when it is the root |
| Day7.FindChild | lambda/day/7/solution.ts:47 | finds the first child with the given name, and reports none only when no child has it |
| Day7.Get | lambda/day/7/solution.ts:43-48 | ".." yields the parent; any other name yields the first child of that name, whose parent is this directory, or nothing when no child has that name |
| Day7.Traversal | lambda/day/7/solution.ts:54-58 | every listed node has a larger index than the directory, so it is another node of the tree |
| Day7.TraversalBelow | lambda/day/7/solution.ts:54-58 | every node the pre-order listing yields is a strict descendant of the directory |
| Day7.TraversalComplete | lambda/day/7/solution.ts:54-58 | every strict descendant of the directory appears in its listing |
| Day7.TraversalDistinct | lambda/day/7/solution.ts:54-58 | the listing never repeats a node |
| Day7.RootTraversal | lambda/day/7/solution.ts:54-58 | the root's listing holds every non-root node exactly once |
| Day7.DescendantTransitive | lambda/day/7/solution.ts:54-58 | a descendant of a descendant is a descendant |
| Day7.BelowRoot | lambda/day/7/solution.ts:76-100 | every node other than the root lies below the root |
| Day7.SubtreesDisjoint | lambda/day/7/solution.ts:54-58 | subtrees of two children of one directory share no node, so sibling blocks of the listing are disjoint |
| Day7.SizeIsFileTotal | lambda/day/7/solution.ts:39-41 | the recursive size of a directory equals the total size of the files among its descendants |
| Day7.RootSize | lambda/day/7/solution.ts:72-74 | the filesystem's size is the total size of all files in the tree |
| Day7.Filter | lambda/day/7/solution.ts:61 | the filtered list holds exactly the elements that satisfy the query and is no longer than the input |
| Day7.FilterConcat | lambda/day/7/solution.ts:61 | filtering a concatenation is the concatenation of the filtered parts, so the order is preserved |
| Day7.FilterDistinct | lambda/day/7/solution.ts:61 | filtering a list without repeats yields a list without repeats |
| Day7.Query | lambda/day/7/solution.ts:60-62 | every node a query returns is a strict descendant of the directory that satisfies the query |
| Day7.SmallDirectories | lambda/day/7/solution.ts:116-117 | the part 1 query returns exactly the non-root directories smaller than 100000, each once |
| Day7.Part1Solution | lambda/day/7/solution.ts:115-119 | the sum is at least the size of every small directory and at most their count times 99999 |
| Day7.SumSizesBounds | lambda/day/7/solution.ts:118 | a sum of directory sizes is at least each summand, and bounded when every summand is below the limit |
| Day7.LeastAtLeast | lambda/day/7/solution.ts:128 | the reduction yields the seed or some size at least the need, and never exceeds any size at least the need |
| Day7.Directories | lambda/day/7/solution.ts:127 | the part 2 query returns exactly the non-root directories |
| Day7.LeastDirectory | lambda/day/7/solution.ts:126-128 | seeded with the root's size, the reduction over all directories is the size of some directory and at most every directory size that frees enough |
| Day7.Part2Solution | lambda/day/7/solution.ts:121-129 | the answer is the size of a directory, is at least 30000000 - (70000000 - root size), and is the least such size |
| Day7.ParseLine | lambda/day/7/solution.ts:80-97 | `$ cd` takes the last field; `$ ls` is a no-op; any `dir` line is a directory, named by its second field when there is one; any other line is a file, accepted exactly when its first field is empty (size 0) or a numeral (its value), and named by its second field when there is one |
| Day7.ParsePrintedLine | lambda/day/7/solution.ts:80-97 | a `cd`, `ls`, `dir` or file line printed as the terminal shows it, with no spaces in its names, reads back as the same line |
| Day7.Step | lambda/day/7/solution.ts:80-97 | one line fails exactly when it is a `cd` to a name that is not a subdirectory; `cd /` returns to the root; any other `cd` that succeeds enters what `get` finds (the parent for `..`); `ls` changes nothing; `dir` and file lines add a child to the current directory |
| Day7.Replay | lambda/day/7/solution.ts:76-100 | a replay that succeeds leaves a well-formed tree and a cursor on a directory |
| Day7.ReplayFailureSticks | lambda/day/7/solution.ts:84-85 | once a prefix of the session fails, the whole session fails |
| Day7.ReplayNodeCount | lambda/day/7/solution.ts:90-97 | the tree has one node per `dir` and file line, plus the root |
| Day7.Execute | lambda/day/7/solution.ts:80-97 | one loop iteration on the filesystem object succeeds exactly when Step does, and leaves the tree and cursor Step gives |
| Day7.FromCommands | lambda/day/7/solution.ts:76-100 | fails exactly when the replay fails; otherwise the new filesystem holds the replayed tree |
| Day7.ParseLines | lambda/day/7/solution.ts:79-97 | the session parses exactly when every line does, giving one line per input line, in order |
| Day7.Solve | lambda/day/7/solution.ts:107-129 | both parts fail exactly when a line does not parse or a `cd` does not reach a directory; otherwise they are part 1 and part 2 of the tree that the replay of the parsed session builds |
| Day8.Reverse | lambda/day/8/solution.ts:53 | the reversed sequence holds the elements in opposite order |
| Day8.ViewingDistance | lambda/day/8/solution.ts:4-13 | the distance is zero exactly for an empty line of sight; it counts the trees shorter than the viewer up to and including the first blocking one, and all trees when none blocks |
| Day8.CountVisible | lambda/day/8/solution.ts:4-13 | the counting loop with its early break returns the viewing distance |
| Day8.VisibleInRowCount | lambda/day/8/solution.ts:29-39 | the inner loop counts the interior trees of a row that are visible from some edge |
| Day8.Part1Solution | lambda/day/8/solution.ts:22-43 | the answer is the perimeter count plus the number of interior trees strictly taller than everything towards some edge |
| Day8.VisibleInRowsBound | lambda/day/8/solution.ts:26-39 | at most (rows - 2) times (columns - 2) interior trees are counted |
| Day8.Part1Bounds | lambda/day/8/solution.ts:24-39 | for grids of at least 2 by 2 the answer lies between the perimeter count and the number of trees |
| Day8.BorderScoresZero | lambda/day/8/solution.ts:53-57 | a tree on the border has scenic score 0 |
| Day8.ScoreAt | lambda/day/8/solution.ts:52-57 | a cell's score is the product of its four viewing distances |
| Day8.FillRow | lambda/day/8/solution.ts:51-58 | one pass of the inner loop writes the scenic scores of row i and leaves other rows untouched |
| Day8.FillScores | lambda/day/8/solution.ts:46-59 | the score table has the grid's shape and holds each cell's scenic score |
| Day8.MaxEntry | lambda/day/8/solution.ts:60 | the result is an entry of the table and no entry exceeds it |
| Day8.Part2Solution | lambda/day/8/solution.ts:45-61 | the answer is the scenic score of some tree and no tree scores higher |
| Day9.GetDirection | lambda/day/9/solution.ts:11-19 | only "U", "D", "R" and "L" are accepted, each as its own direction |
| Day9.GetDirectionOfLetter | lambda/day/9/solution.ts:11-19 | the letter of a direction reads back as that direction |
| Day9.ParseMovement | lambda/day/9/solution.ts:105-107 | a line is accepted exactly when its first field is a direction letter, which gives the direction; the count is the second field's integer value, or 0 when that field is missing or not an integer |
| Day9.ParseMovementString | lambda/day/9/solution.ts:25-27 | a printed movement reads back as the same movement |
| Day9.Point.Move | lambda/day/9/solution.ts:34-41 | a move shifts the point by count along exactly the direction's axis |
| Day9.AdjacentIsNear | lambda/day/9/solution.ts:43-45 | adjacency is Chebyshev distance at most 1, and it is symmetric and reflexive |
| Day9.CalculateKnot | lambda/day/9/solution.ts:61-79 | each coordinate moves by the sign of its difference from the previous knot, by at most 1 |
| Day9.CalculateKnotCatchesUp | lambda/day/9/solution.ts:61-79 | a knot at most two cells away ends adjacent to its predecessor after one catch-up move |
| Day9.Follow | lambda/day/9/solution.ts:84-91 | updating the followers keeps the knot count and leaves the knots before k untouched |
| Day9.FollowMovesLittle | lambda/day/9/solution.ts:84-91 | every follower moves by at most one cell per step |
| Day9.StepRopeKeepsTaut | lambda/day/9/solution.ts:83-91 | after a unit step the head has moved one cell and every knot is adjacent to its predecessor |
| Day9.TailMovesAtMostOne | lambda/day/9/solution.ts:84-92 | the tail ends each unit step adjacent to where it was |
| Day9.StepNKeepsTaut | lambda/day/9/solution.ts:82-93 | any number of unit steps keeps every knot adjacent to its predecessor |
| Day9.TailsLength | lambda/day/9/solution.ts:82-93 | a movement records exactly count tail positions, and none when count is not positive |
| Day9.Rope.constructor | lambda/day/9/solution.ts:56-59 | the rope starts with all knots at the origin and no recorded tail positions |
| Day9.Rope.Move | lambda/day/9/solution.ts:81-94 | the knots become StepN of the old knots and the recorded tail positions grow by that movement's tails |
| Day9.Rope.StepOnce | lambda/day/9/solution.ts:83-91 | one pass moves the head one cell and updates the followers in place as StepRope says |
| Day9.Origin | lambda/day/9/solution.ts:57 | the starting rope has the requested number of knots |
| Day9.RopeAfter | lambda/day/9/solution.ts:112 | replaying the movements keeps the number of knots |
| Day9.TailsAfterLength | lambda/day/9/solution.ts:112 | replaying the movements records one tail position per unit step |
| Day9.DistinctAtMostLength | lambda/day/9/solution.ts:113 | a sequence has no more distinct positions than entries |
| Day9.DistinctTailPositions | lambda/day/9/solution.ts:110-122 | the answer is the number of distinct recorded tail positions, and at most the number of unit steps |
| Day10.ParseInstruction | lambda/day/10/solution.ts:47-55 | a line is accepted exactly when it is `noop`, or starts with `addx` and has a decimal integer as its second field, which becomes the operand |
| Day10.ParsePrintedInstruction | lambda/day/10/solution.ts:21-37 | a printed instruction reads back as the same instruction |
| Day10.ParseInstructions | lambda/day/10/solution.ts:46-56 | the program parses exactly when every line does, one instruction per line in order |
| Day10.NewCycles | lambda/day/10/solution.ts:92-97 | noop adds one cycle and addx adds two |
| Day10.Cpu.constructor | lambda/day/10/solution.ts:67-69 | a new CPU holds the single cycle (1, 1) and program counter 0 |
| Day10.Cpu.Execute | lambda/day/10/solution.ts:91-101 | the new cycles are appended to the log and returned, the counter rises by one, and cycles stay numbered 1, 2, 3, ... |
| Day10.RegisterDuring | lambda/day/10/solution.ts:91-101 | the reference register trace has one entry per cycle the program takes |
| Day10.LogIsRegister | lambda/day/10/solution.ts:91-101 | the log has one more entry than the program has cycles, is numbered consecutively, and entry c carries the X register during cycle c |
| Day10.LogLength | lambda/day/10/solution.ts:91-101 | the log has one more entry than the program has cycles |
| Day10.LogEntry | lambda/day/10/solution.ts:91-101 | log entry k is cycle k+1 with the register value of that cycle |
| Day10.LogExtends | lambda/day/10/solution.ts:152 | running a prefix of the program yields a prefix of the log |
| Day10.OverflowExtends | lambda/day/10/solution.ts:152 | if a prefix lights a pixel past the screen, the whole program does |
| Day10.LogOverflows | lambda/day/10/solution.ts:112-119 | the log lights a pixel past row 6 exactly when the program does |
| Day10.LogLights | lambda/day/10/solution.ts:112-119 | a log cycle lights a pixel exactly when the register covers that pixel's column in that cycle |
| Day10.Crt.constructor | lambda/day/10/solution.ts:107-110 | the display starts all '.' except '#' at row 0, column 0 |
| Day10.FirstCycleDrawn | lambda/day/10/solution.ts:107-110 | the initial display is what the first cycle (1, 1) alone draws |
| Day10.Crt.Evaluate | lambda/day/10/solution.ts:112-121 | fails exactly when a lit cycle falls past row 6; otherwise it sets '#' on every pixel some cycle covers, and it never changes a pixel to anything but '#' |
| Day10.Crt.Render | lambda/day/10/solution.ts:123-125 | the text is six lines of 40 pixels, each after a newline, showing the display |
| Day10.Device.constructor | lambda/day/10/solution.ts:132-135 | a new device pairs a fresh CPU and a fresh display |
| Day10.Device.Execute | lambda/day/10/solution.ts:137-140 | the CPU executes the instruction and the display draws exactly the new cycles |
| Day10.Run | lambda/day/10/solution.ts:151-152 | running the program leaves the log and the display the whole program determines, and fails exactly when it draws off screen |
| Day10.Part1Solution | lambda/day/10/solution.ts:150-160 | fails exactly when the program draws off screen or takes fewer than 219 cycles, so that its log has no entry for cycle 220; otherwise it is the sum of the signal strengths at cycles 20, 60, ..., 220 |
| Day10.Part2Solution | lambda/day/10/solution.ts:162-166 | fails exactly when the program draws off screen; otherwise the picture has '#' exactly on the pixels some cycle's sprite covered |
| Day11.ParseOperator | lambda/day/11/solution.ts:8-14 | only "*" and "+" are accepted, as multiplication and addition |
| Day11.MakeOperation | lambda/day/11/solution.ts:81 | the operand is accepted exactly when it is a numeral or "old", as the operation pattern allows, and keeps its value |
| Day11.PutDown | lambda/day/11/solution.ts:121-124 | the result is the worry divided by 3, rounded down |
| Day11.Process | lambda/day/11/solution.ts:101-106 | a processed worry lies in [0, mod) |
| Day11.FindNumber | lambda/day/11/solution.ts:109 | finds the first monkey with the given number, and reports none only when no monkey has it |
| Day11.ThrowFirst | lambda/day/11/solution.ts:100-111 | throwing the first item removes it from the thrower, counts one inspection and keeps every monkey's rules |
| Day11.ThrowFirstOutcome | lambda/day/11/solution.ts:107-111 | a throw fails exactly when no monkey has the target number, and otherwise goes to another monkey |
| Day11.Turn | lambda/day/11/solution.ts:99-113 | a turn keeps every monkey's number, operation and test |
| Day11.TurnFails | lambda/day/11/solution.ts:109-110 | a turn fails exactly when some item's target monkey is missing |
| Day11.TurnEmpties | lambda/day/11/solution.ts:99-119 | a turn leaves the monkey's queue empty and adds its item count to its inspections |
| Day11.TurnDelivers | lambda/day/11/solution.ts:99-113 | every other monkey's queue gains, in order, exactly the items thrown to it, and its inspections are unchanged |
| Day11.TurnConserves | lambda/day/11/solution.ts:99-113 | a turn neither creates nor loses an item |
| Day11.Delivered | lambda/day/11/solution.ts:106-111 | every delivered worry lies in [0, mod) |
| Day11.RoundFrom | lambda/day/11/solution.ts:175-177 | a round keeps every monkey's rules |
| Day11.RoundReduces | lambda/day/11/solution.ts:106 | after a round every held worry is below mod |
| Day11.Rounds | lambda/day/11/solution.ts:174-178 | any number of rounds keeps every monkey's rules |
| Day11.RoundsFailureSticks | lambda/day/11/solution.ts:174-178 | once a round fails, more rounds fail too |
| Day11.Modulus | lambda/day/11/solution.ts:168-172 | the product of the divisors is positive |
| Day11.ModOfMultiple | lambda/day/11/solution.ts:106 | reducing modulo a multiple of d keeps the remainder modulo d |
| Day11.ReductionKeepsTests | lambda/day/11/solution.ts:106-107 | every monkey's test gives the same outcome on the reduced worry as on the worry |
| Day11.OperationRespectsCongruence | lambda/day/11/solution.ts:33-41 | operations map congruent worries to congruent worries |
| Day11.PutDownBreaksCongruence | lambda/day/11/solution.ts:103-106 | flooring by 3 does not respect congruence (3 and 1 agree modulo 2, 1 and 0 do not) |
| Day11.Monkey.constructor | lambda/day/11/solution.ts:85-97 | a new monkey holds a copy of the starting items and has inspected nothing |
| Day11.Monkey.Inspect | lambda/day/11/solution.ts:115-119 | inspecting applies the operation and counts one inspection, leaving the queue alone |
| Day11.Monkey.InspectFirst | lambda/day/11/solution.ts:101-102 | shifting and inspecting the first item removes it and counts one inspection |
| Day11.Monkey.Catch | lambda/day/11/solution.ts:111 | catching appends the worry to the target's queue only |
| Day11.Monkey.ThrowFirstItem | lambda/day/11/solution.ts:100-111 | one loop iteration on the monkey objects does what ThrowFirst says, failing exactly when it does |
| Day11.Monkey.PlayTurn | lambda/day/11/solution.ts:99-113 | the turn on the monkey objects does what Turn says, failing exactly when it does |
| Day11.ProductOfDivisors | lambda/day/11/solution.ts:168-172 | the loop computes the product of all divisors |
| Day11.PlayRound | lambda/day/11/solution.ts:175-177 | one round on the monkey objects does what RoundFrom says, failing exactly when it does |
| Day11.PlayRounds | lambda/day/11/solution.ts:168-179 | count rounds on the monkey objects, reducing modulo the product of divisors, do what Rounds says |
| Day11.Build | lambda/day/11/solution.ts:188 | building yields distinct fresh monkey objects in the initial state |
| Day11.TopTwoProductUnique | lambda/day/11/solution.ts:190-191 | any two choices of the two largest counts give the same product |
| Day11.TopTwo | lambda/day/11/solution.ts:190-191 | the two chosen monkeys are distinct; the first has the largest count and the second the largest of the rest, as the first two after a descending sort |
| Day11.Solve | lambda/day/11/solution.ts:187-198 | fails exactly when the rounds fail or there are fewer than two monkeys; otherwise it is the product of the two largest counts |
| Day11.Part1Solution | lambda/day/11/solution.ts:187-192 | 20 rounds with flooring by 3, then the product of the two largest inspection counts |
| Day11.Part2Solution | lambda/day/11/solution.ts:194-199 | 10000 restless rounds, then the product of the two largest inspection counts |
| Day12.FindCoordinate | lambda/day/12/solution.ts:92-102 | the result holds exactly the cells holding the character, in row-major order |
| Day12.FirstOfSorted | lambda/day/12/solution.ts:19-20 | the first found cell is the first holding the character in row-major order |
| Day12.NeighboursAreAdjacent | lambda/day/12/solution.ts:58-59 | the four offsets give exactly the orthogonally adjacent points |
| Day12.Map.CanMove | lambda/day/12/solution.ts:75-83 | a step is legal exactly when the destination is at most one letter higher than the source |
| Day12.Map.LegalStepsAreSteps | lambda/day/12/solution.ts:58-65 | the points pushed are exactly the in-grid neighbours the step rule allows |
| Day12.Map.LegalStepsComplete | lambda/day/12/solution.ts:58-65 | every legal step from a point is pushed, and nothing else |
| Day12.Map.InitialInvariant | lambda/day/12/solution.ts:47-48 | the queue holding only the origin at distance 0 satisfies the search invariant |
| Day12.Map.SkipKeepsInvariant | lambda/day/12/solution.ts:51-53 | skipping a seen point keeps the search invariant |
| Day12.Map.DequeueShortest | lambda/day/12/solution.ts:50-57 | an unseen point at the head of the queue is reached at the length of a shortest path |
| Day12.Map.VisitKeepsInvariant | lambda/day/12/solution.ts:54-66 | marking the head seen and pushing its legal steps keeps the search invariant |
| Day12.Map.VisitShrinks | lambda/day/12/solution.ts:51-54 | marking a new cell seen shrinks the set of unseen cells, which bounds the search |
| Day12.Map.ExhaustedUnreachable | lambda/day/12/solution.ts:49-68 | when the queue empties without reaching the end, the end is unreachable from the origin |
| Day12.Map.PushSteps | lambda/day/12/solution.ts:58-66 | the loop over the four offsets appends the legal steps at distance d+1 |
| Day12.Map.Evaluate | lambda/day/12/solution.ts:46-69 | returns the length of a shortest legal path to the end, or nothing exactly when none exists |
| Day12.Map.StartToEndCost | lambda/day/12/solution.ts:27-31 | fails exactly when the end is unreachable from the start; otherwise it is the shortest path length |
| Day12.MinDefined | lambda/day/12/solution.ts:35-39 | the reduction skips undefined distances and yields their minimum, or nothing when all are undefined |
| Day12.Map.LowestStartingCost | lambda/day/12/solution.ts:33-44 | fails exactly when no `a` cell reaches the end; otherwise it is the least shortest-path length over all `a` cells |
| Day12.Rewrite | lambda/day/12/solution.ts:21-22 | the rewritten grid differs from the old one only at the given cell |
| Day12.NewMap | lambda/day/12/solution.ts:18-25 | fails exactly when there is no `S` or no `E`; otherwise start and end are the first `S` and `E`, they become `a` and `z`, and allLowest is every `a` cell in row-major order, including the start |
| Day12.LowestAtMostStart | lambda/day/12/solution.ts:33-44 | the lowest starting cost is at most the start-to-end cost, because the start is an `a` cell |
| Day12.Solve | lambda/day/12/solution.ts:108-121 | the map is built exactly when there is an `S` and an `E`, and both parts fail otherwise; part 1 succeeds exactly when the end is reachable from the first `S` and is then the shortest path length; part 2 succeeds exactly when some `a` cell reaches the end and is then the least such length; part 2 is never larger than part 1 |

## Left out

- The HTTP handler, the `DailySolution` base classes and the cloud infrastructure in lib/advent-of-code-day.ts are not part of this model. Input arrives already split into lines; `splitToLines` and `handlerBase` are not part of this model.
- The test files read fixture inputs from disk. The puzzle inputs are not available, so their expected answers (13140, 10605, 31 and so on) are not proved.
- JavaScript numbers are doubles. The model uses unbounded integers. Every value the solvers compute stays an integer small enough to be exact, including the negative register values of day 10 and the signed differences of day 9.
- Day12.Map.LowestStartingCost: the searches run one after another. The source starts them together with `Promise.all`, but they share no state.
- Day12.NewMap: the source rewrites `S` and `E` in the caller's grid in place; the model returns the normalised grid as a new value. It requires a rectangular grid: `withinGrid` measures every row by the first one.
- Day12.Map.StartToEndCost: the source also rejects a cost of 0. That cannot happen, because `S` and `E` are different cells.
- Day11.Initial: `Monkey.fromDescription` matches the note text with regular expressions. The model takes the matched pieces as a `Description` record, and `ParseOperator` and `MakeOperation` model the two checks on them.
- Day11.Solve: requires every divisor to be at least 1 and no monkey to throw to itself. With divisor 0 the source reduces modulo 0 (`NaN`). A self-throw pushes the item back onto the thrower's own queue, so `playTurn` inspects it again in the same turn. The item may then go elsewhere, or it may keep coming back so that the turn never ends. The model excludes self-throws rather than model a turn that may not terminate.
- Day11.Monkey.PlayTurn: when a target monkey is missing, the source throws midway through the turn. The model reports the failure but does not state the partly changed queues.
- Day11.Solve: part 1 and part 2 sort the monkey array in place by count. The model picks the two largest counts without reordering the monkeys.
- Day10.ParseInstruction: the source reads the `addx` operand with `Number`. A missing or non-numeric operand is `NaN` and an empty one is 0. `Number` also reads a leading `+` (`addx +3`), fractions (`addx 1.5`), exponents (`addx 1e2`), hexadecimal, binary and octal (`addx 0x10`, `0b1`, `0o7`), `Infinity` and surrounding whitespace. The model accepts only an optionally negative decimal integer and rejects every other operand, since a `NaN`, fractional or infinite register has no integer meaning.
- Day10.Cpu.constructor: the `programCounter` accessor and the `currentCycle` getter are read as fields.
- Day9.ParseMovement: the source counts with `Number`. A missing or non-numeric count is `NaN`, and the step loop does nothing for it; the model reads it as 0, which takes the same zero steps. `Number` also reads a leading `+`, fractions, exponents, hexadecimal, binary and octal (`0x…`, `0b…`, `0o…`), `Infinity` and surrounding whitespace, which the model reads as 0 too. A fractional count such as `1.5` makes the source loop take 2 steps, and `Infinity` makes it never stop; the model takes none.
- Day9.Rope.constructor: requires at least one knot. The solvers use 2 and 10, and a rope with no knots fails on its first move.
- Day9.DistinctTailPositions: `Point.toString` only serves as a set key, so distinct positions are counted as a set of points.
- Day8.Part1Solution: requires a non-empty, rectangular grid. On an empty grid the source reads `grid[0]` and throws. On a ragged grid it compares against `undefined`.
- Day8.Part2Solution: requires at least one column and a rectangular grid. On an empty grid `Math.max()` yields `-Infinity`. On a ragged grid the source reads `undefined` where a row is short. `undefined >= tree` is false, so the missing tree counts as a shorter one and the view goes on past it. The model does not score ragged grids.
- Day8.Part1Bounds: states the bound only for grids of at least 2 by 2. For a single row or column of length 1 or 2, the perimeter formula `(rows + cols - 2) * 2` gives exactly the number of trees (0 for a 1 by 1 grid, where the source returns 0 and misses the one tree). From length 3 on it counts more trees than the grid has.
- Day8: the digit parsing of the grid (`Number(char)` per character) is not modelled. The solvers take the grid of heights.
- Day7.ParseLine: the source sizes a file with `Number`. Besides decimal numerals, it reads signs, fractions, exponents, hexadecimal, binary and octal (`0x…`, `0b…`, `0o…`), `Infinity` and surrounding whitespace, and it gives `NaN` for any other text. The model accepts only an empty field (0) or a decimal numeral and refuses the rest, since a `NaN`, negative, fractional or infinite size has no natural-number meaning.
- Day7.Part1Solution: its contract bounds the sum and ties it to `SmallDirectories`. It does not restate the sum itself.
- The `toString` and `toJSON` presentation helpers are left out. The exceptions are `Movement.toString` and the instruction `toString` methods, which give the round-trip lemmas their printed forms.
