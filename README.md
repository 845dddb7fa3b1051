# 8-puzzle A* solver, modelled in Dafny

This project models the back end of a small 8-puzzle solver: the class
`PuzzleSolver` of `8Puzzle.py`. The solver takes an initial and a goal 3x3
board, where 0 is the blank. It first applies a parity gate: the number of
inversions among the non-blank tiles, read row by row, must have the same
parity on both boards. It then runs A* search with unit move cost and the
Manhattan-distance heuristic. The open set is a heap of `(f, g, board)`
tuples. The search keeps a `g_score` map and a `came_from` map but no closed
set. When the goal is popped, the path is rebuilt by following `came_from`
back to the start.

The modules follow the parts of the class:

- `Board` covers boards as flat row-major sequences of nine cells, the blank,
  swaps, and the successor function of `get_neighbors`. `IsMove` is the
  independent definition of a move that the successor function is proved
  against.
- `Inversions` covers the list of non-blank tiles, the inversion count, and
  its reference definition as a set of inverted index pairs. It proves that
  a move never changes the parity of the count. That is why the parity gate
  is sound.
- `Manhattan` covers the goal index, the heuristic, and the heuristic's
  properties: it is zero at the goal, changes by exactly one per move, and
  is admissible.
- `Frontier` defines heap entries and Python's tuple order on them, plus the
  extract-min step.
- `Solver` holds the class `PuzzleSolver`. Its fields are fixed at
  construction, and each method of the source is a method here. It also
  holds the search invariant and the lemmas showing that each step of the
  loop keeps it. The invariant is what makes path reconstruction terminate
  and the returned path a solution.

The methods are proved against functions of the model:
- `GoalPositions` against `GoalIndex`.
- `CountInversions` against `Inversions`.
- `ManhattanDistance` against `Manhattan`.
- `GetNeighbors` against `Neighbors`.

The lemmas then state what those functions mean.

The model follows the code in two details:
- Heap ties are broken by Python's tuple order: smaller `g` first, then the
  smaller board. Insertion order plays no part.
- When the goal holds a tile twice, the goal index keeps the tile's last cell,
  because the dictionary entry is overwritten.

## Model

| member | source | states |
|---|---|---|
| Solver.PuzzleSolver.constructor | 8Puzzle.py:9-12 | the solver keeps both boards and the goal index of the goal board |
| Solver.PuzzleSolver.GoalPositions | 8Puzzle.py:14-20 | the map built by the nested loops is the goal index; its keys are exactly the non-blank tiles of the goal |
| Manhattan.GoalIndexSpec | 8Puzzle.py:14-20 | the goal index holds exactly the non-blank goal tiles, and a tile not repeated later is mapped to its own (row, column) |
| Manhattan.GoalIndexDistinct | 8Puzzle.py:14-20 | when the goal's tiles are distinct, every non-blank tile is mapped to the cell it occupies |
| Inversions.NonBlank | 8Puzzle.py:23 | the flattened list contains no blank and is no longer than the board |
| Inversions.NonBlankTiles | 8Puzzle.py:23 | the flattened list keeps every non-blank tile with its multiplicity, so k non-blank tiles give a list of length k |
| Inversions.Count | 8Puzzle.py:26-28 | the inner loop's count is at most the length of the suffix, and zero when no later element is smaller |
| Solver.PuzzleSolver.CountInversions | 8Puzzle.py:22-29 | the nested loops compute the inversion count of the non-blank tiles |
| Inversions.InversionsArePairs | 8Puzzle.py:22-29 | the inversion count equals the number of index pairs i < j with a[i] > a[j] |
| Inversions.InversionsBound | 8Puzzle.py:22-29 | a list of k tiles has at most k(k-1)/2 inversions |
| Inversions.InversionsZeroIffAscending | 8Puzzle.py:22-29 | the count is zero exactly when the list is in ascending order |
| Solver.PuzzleSolver.IsSolvable | 8Puzzle.py:31-34 | the result is true exactly when the two inversion counts have the same parity |
| Inversions.SolvableSymmetric | 8Puzzle.py:31-34 | the gate does not depend on which board is initial and which is goal |
| Inversions.SolvableReflexive | 8Puzzle.py:31-34 | a board always passes the gate against itself |
| Inversions.MoveKeepsParity | 8Puzzle.py:53-55 | on a board with distinct values, swapping the blank with an adjacent cell keeps the parity of the inversion count |
| Inversions.WalkKeepsParity | 8Puzzle.py:53-55 | along any sequence of moves from a board with distinct values, the values stay distinct and the parity never changes |
| Inversions.UnsolvableIsUnreachable | 8Puzzle.py:59-60 | when the gate fails, no sequence of moves leads from the initial board (distinct values) to the goal |
| Solver.PuzzleSolver.ManhattanDistance | 8Puzzle.py:36-43 | the loop's sum is the Manhattan distance of the board to the goal index |
| Manhattan.ManhattanZeroIff | 8Puzzle.py:36-43 | the distance is never negative, ignores the blank, and is zero exactly when every non-blank tile is on its goal cell |
| Manhattan.ManhattanZeroAtGoal | 8Puzzle.py:36-43 | against a goal with distinct tiles, the distance is zero exactly when the board agrees with the goal on every non-blank tile; in particular it is zero on the goal |
| Manhattan.KnownFromGoal | 8Puzzle.py:41 | the lookup of every tile succeeds exactly when each non-blank tile of the board occurs in the goal |
| Manhattan.MoveKeepsKnown | 8Puzzle.py:41 | a move keeps every tile's goal cell defined |
| Manhattan.MoveDistance | 8Puzzle.py:36-43 | for a board with one blank, a move changes the distance by exactly one in either direction |
| Manhattan.WalkDistance | 8Puzzle.py:36-43 | along a sequence of moves, the distance drops by at most one per move |
| Manhattan.Admissible | 8Puzzle.py:36-43 | the distance never exceeds the number of moves of any sequence of moves that reaches a goal with distinct tiles |
| Board.BlankIndex | 8Puzzle.py:47 | the blank found is a blank, and no earlier cell in row-major order holds one |
| Board.SingleBlankAt | 8Puzzle.py:47 | on a board with a single blank, the blank found is the only one |
| Solver.PuzzleSolver.GetNeighbors | 8Puzzle.py:45-56 | the list built is the successor sequence, and a board is in it exactly when it is one move away from the input |
| Board.NeighborsAreMoves | 8Puzzle.py:45-56 | a board is a successor exactly when it is the input with the blank swapped with an adjacent cell |
| Board.NeighborsInOrder | 8Puzzle.py:49-52 | the successors come in the order up, down, left, right, each present exactly when its target lies on the grid |
| Board.NeighborCount | 8Puzzle.py:49-52 | there are two successors for a corner blank, three for an edge blank and four for the centre |
| Board.MoveShape | 8Puzzle.py:53-55 | a successor swaps the blank with one adjacent cell, leaves every other cell unchanged, and keeps the tile multiset and the number of blanks |
| Board.SwapMultiset | 8Puzzle.py:54 | exchanging two cells permutes the board |
| Board.WalkMultiset | 8Puzzle.py:54 | every board on a sequence of moves has the tiles of the first board |
| Frontier.EntryLeTotalOrder | 8Puzzle.py:70 | Python's order on (f, g, board) tuples is total, transitive and antisymmetric |
| Frontier.PopMin | 8Puzzle.py:70 | the popped entry is least among the open entries, and the remaining entries are the others, each kept once |
| Frontier.LeastIsUnique | 8Puzzle.py:70 | the least entry is unique, so the pop does not depend on how the heap stores the entries |
| Solver.PuzzleSolver.Solve | 8Puzzle.py:58-82 | the parity gate fails exactly for unsolvable pairs, and then the goal is unreachable; a returned path is a solution with no repeated board, and it is at least as long as the heuristic; exhaustion means the goal is unreachable; equal boards give the one-board path |
| Solver.PuzzleSolver.Search | 8Puzzle.py:62-82 | the A* loop keeps the search invariant and, for every open entry, f = g + heuristic of its board; popping the goal yields a solution at least as long as the heuristic; an empty open set means the goal is unreachable; a start that is the goal is the one-board path |
| Solver.PopKeepsInv | 8Puzzle.py:70 | removing the least entry keeps the search invariant, and the popped g is at least the recorded g of its board |
| Solver.PuzzleSolver.ExpandNeighbors | 8Puzzle.py:74-81 | each successor ends with the smaller of its old g and popped g + 1, and every improved successor points back to the popped board; every other board keeps its g and back-pointer, and no board gains either one except a successor; the open set grows by exactly the pushes, one per improving successor, with f = g + heuristic; the search invariant is kept (start with g 0 and no back-pointer, g strictly dropping along back-pointers, each back-pointer one move, the start's tiles on every discovered board, no open entry promising less than its board's g) |
| Solver.ScoreTest | 8Puzzle.py:76 | the strict-less test against the current scores selects exactly the successors that improve on the scores before the relaxation and have not been seen earlier in the list |
| Solver.PushesScored | 8Puzzle.py:79-81 | every pushed entry has f = g + heuristic of its board |
| Solver.PushesImprove | 8Puzzle.py:75-81 | every pushed entry belongs to a successor that improves on its old g, and carries g = popped g + 1 |
| Solver.PushesComplete | 8Puzzle.py:75-81 | every successor that improves on its old g gets an entry |
| Solver.PushKeepsScored | 8Puzzle.py:70-81 | after a pop and the pushes, every open entry still has f = g + heuristic |
| Solver.RelaxKeepsInv | 8Puzzle.py:75-81 | recording tentative g = popped g + 1 and a back-pointer for an improved successor keeps the search invariant |
| Solver.ExpandKeepsCoverage | 8Puzzle.py:69-81 | after an expansion, every discovered board is still open or has all its successors discovered |
| Solver.StepKeepsProgress | 8Puzzle.py:69-81 | one pass of the loop over a non-goal board keeps the invariant, the coverage, and the goal open once discovered |
| Solver.EmptyOpenTrapsWalks | 8Puzzle.py:82 | when the open set runs empty, no sequence of moves from the start reaches the goal |
| Solver.ClosedSetTrapsWalks | 8Puzzle.py:82 | when every discovered board is expanded, every sequence of moves from a discovered board stays among discovered boards |
| Solver.PuzzleSolver.ReconstructPath | 8Puzzle.py:84-89 | following back-pointers ends, because g strictly drops; the reversed list starts at a board without a back-pointer, ends at the given board, and links each board to its predecessor |
| Solver.PathIsDetermined | 8Puzzle.py:84-89 | the back-pointers determine the rebuilt path: two chains ending at the same board are equal |
| Solver.ChainIsWalk | 8Puzzle.py:77 | under the search invariant, the back-pointer chain is a sequence of moves from the start with no repeated board |
| Solver.FoundGoal | 8Puzzle.py:71-72 | when the goal is popped, the rebuilt path is a solution from the start, at least as long as the heuristic, and just the goal when there are no back-pointers |

## Left out

- The `App` GUI class (8Puzzle.py:94-199) is not part of this model. It covers widgets, layout, status labels and the solution window.
- Parsing the text entries with `int()` is not modelled. The parsed boards become preconditions on the constructor: two boards of nine cells.
- The check that both boards hold the same tiles is not modelled; it is presentation-layer validation. `Solve` only requires what keeps the source from raising.
- Solver.PuzzleSolver.Solve: when the gate passes, requires that the blank occurs in the initial board, unless that board equals the goal, and that every non-blank tile of the initial board occurs in the goal. Without these, `next(...)` or the `goal_pos` lookup raises in the source. The model does not represent those crashes.
- Solver.PuzzleSolver.Solve: takes a fuel bound and can return `OutOfFuel`. Termination of the search loop over the finite state space is not proved, and the bounded loop says nothing about what happens after the fuel runs out.
- Solver.PuzzleSolver.Solve: A* optimality is not proved; a returned path is only shown to be a solution no shorter than the heuristic.
- `float('inf')` in the score lookup is modelled as an absent key: any tentative g beats a board that has no score yet.
- The `heapq` binary heap is modelled as a sequence with a least-entry pop under Python's tuple order. The heap's array layout and sift operations are not modelled.
- Boards are flat row-major sequences of nine integers, not tuples of tuples. Python compares 3x3 tuples of tuples in the same order as their flattenings.
- The Portuguese result messages are replaced by the outcome tags `Solved`, `ParityMismatch` and `Exhausted`.
- Solver.PuzzleSolver.Solve: the unreachability statement for a failed gate needs the initial board to hold distinct values. The parity argument does not hold for boards with repeated values.
