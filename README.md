# Sudoku by simulated annealing — a verified model

This project models the discrete core of a Sudoku solver that uses
simulated annealing. It is one C++ file, `main.cpp`.

- A `PossibleSolution` holds a 9x9 play area and a 9x9 `isFreeDigit` mask.
  - The population constructor copies the puzzle.
  - It then fills every blank cell (0) with a digit that is not yet in its
    row, and marks that cell free.
  - The copy constructor copies both arrays.
- `generateNeighboringSolution` copies a candidate and swaps two free cells
  of one row.
- `calculateObjectiveFunction` adds up the duplicates of the 9 rows, 9
  columns and 9 blocks. Each group tallies its values in an
  `unordered_map` seeded with a zero count for each digit 1..9. It then
  adds `count - 1` for every value counted more than once.
- `main` runs generations of `Mk = 10` trials. Each trial:
  - builds a neighbour and scores the current candidate and the neighbour;
  - stops if the current candidate scores 0;
  - otherwise moves to the neighbour when it is no worse, and to a worse
    one when the probabilistic test says so.

The model is organised in four modules:

- `SudokuBoard` (`board.dfy`): the play area as a value; rows, columns and
  blocks, with the `switch` that gives a block's first row; digit
  permutations and the pigeonhole argument.
- `Candidate` (`candidate.dfy`): the class `PossibleSolution`.
  - Its two arrays are `array2` fields.
  - The population constructor works cell by cell; the copy constructor
    copies both arrays.
  - `GenerateNeighboringSolution` swaps in place on a copy.
  - Each of these is proved against value-level definitions (`Populated`,
    `FreeMask`, `SwapInRow`) and their lemmas.
- `Objective` (`objective.dfy`): the excess of a group, the score, and the
  loops of `calculateObjectiveFunction` (tally map, sum, three group loops).
  Each loop is proved to compute the score.
- `Annealer` (`annealer.dfy`): one trial, the generation loop and `main`.

Random draws are inputs:

- the digit drawn for each blank cell;
- the row and the two columns of each neighbour;
- the outcome of the probabilistic acceptance test.

Each draw is constrained as the program constrains it:

- the digit of a blank cell by the exit condition of the `do`/`while` at
  main.cpp:52-55 (absent from the row as it stands);
- the columns `j1` and `j2` by the exit conditions of the two `while`
  loops at main.cpp:173-178 (both cells free);
- the row `i` only by `rand() % 9`, so it lies in 0..8;
- the acceptance outcome not at all; it is read only when the neighbour
  scores worse.

A trial is the record `Trial(i, j1, j2, acceptWorse)`. `Accept` is the
trial rule on play-area values; `RunTrials` folds it over one generation
and `Run` over a list of generations. Both stop at the first trial whose
current candidate scores 0.

## Model

| member | source | states |
|---|---|---|
| Candidate.PossibleSolution.constructor | main.cpp:47-62 | The new play area keeps every clue and gives each blank cell its accepted draw (`Populated`); `isFreeDigit` is true exactly on the blank cells of the puzzle (`FreeMask`). |
| Candidate.PossibleSolution.PopulateRow | main.cpp:50-61 | Filling row `i` cell by cell leaves the other rows alone and gives row `i` its populated values and its free marks. |
| Candidate.PossibleSolution.Copy | main.cpp:65-68 | The copy has new arrays with the same play area and the same mask as the original. |
| Candidate.GenerateNeighboringSolution | main.cpp:167-182 | The neighbour is a new object whose play area is the input's with cells (i, j1) and (i, j2) exchanged, and whose mask is the input's; the input is left as it was. |
| Candidate.DrawAlwaysExists | main.cpp:52-55 | While a cell is still blank, some digit 1..9 is absent from its row, so the rejection loop has a draw on which it stops, even when clues repeat. |
| Candidate.PopulatedKeepsClues | main.cpp:47-62 | After population every clue keeps its value, every blank cell holds a digit 1..9, and a cell is free exactly when the puzzle had a 0 there. |
| Candidate.PopulatedRowDistinct | main.cpp:52-58 | If a row's clues do not repeat, the populated row repeats no value. |
| Candidate.PopulatedRowIsPermutation | main.cpp:44-62 | If a row's clues are digits that do not repeat, the populated row holds each digit 1..9 exactly once. |
| Candidate.SwapChangesOnlyTheTwoCells | main.cpp:173-179 | The swap exchanges exactly the two cells, changes nothing else, and in particular no cell that is not free; if j1 == j2, the play area is unchanged. |
| Candidate.SwapKeepsRowContents | main.cpp:179 | Every row keeps its multiset of values across a swap. |
| Candidate.SwapKeepsPermutationRows | main.cpp:179 | Rows that are permutations of 1..9 stay permutations of 1..9. |
| Candidate.SwapKeepsDescent | main.cpp:167-179 | A swap of two free cells keeps the clue cells and each row's multiset of values of the starting candidate. |
| Candidate.DescendantKeepsPuzzle | main.cpp:47-62 | Any candidate reached by such swaps from a populated puzzle keeps its clues. Its rows are permutations of 1..9 when the puzzle's row clues are digits that do not repeat. |
| SudokuBoard.StartingRowIsBlockRow | main.cpp:241-251 | The `switch` on the block number gives row 3*(block/3), and the column origin is 3*(block%3). |
| SudokuBoard.BlocksPartitionCells | main.cpp:230-263 | Each cell lies in exactly one of the nine blocks, the one numbered 3*(i/3) + j/3. |
| SudokuBoard.BlockCoversCell | main.cpp:259-263 | The block loops visit every cell (i, j), as entry 3*(i%3) + j%3 of its block. |
| SudokuBoard.DigitPermutationIffDistinct | main.cpp:100-101 | A group of nine cells holds each digit 1..9 exactly once if and only if its values are digits with no duplicate. |
| Objective.ExcessIsSizeLessDistinct | main.cpp:195-205 | A group adds its number of cells less its number of distinct values. |
| Objective.ExcessZeroIffDistinct | main.cpp:199-205 | A group adds 0 exactly when no value repeats in it. |
| Objective.ExcessAtMostSizeLessOne | main.cpp:199-205 | A non-empty group adds at most its size less one: at most 8 for nine cells. |
| Objective.ExcessOfPermutation | main.cpp:188-205 | What a group adds depends only on the multiset of its values, not their order. |
| Objective.SumExcessZero | main.cpp:184-273 | A list of groups adds 0 exactly when each of its groups adds 0. |
| Objective.SumExcessBound | main.cpp:184-273 | Groups of nine cells add at most 8 each. |
| Objective.ScoreBounds | main.cpp:184-273 | The score lies between 0 and 216 (27 groups of at most 8). |
| Objective.ScoreZeroIffNoRepeats | main.cpp:100-101 | The score is 0 if and only if no row, column or block repeats a value. |
| Objective.ScoreZeroIffSolved | main.cpp:100-101 | On a play area of digits, the score is 0 if and only if every row, column and block is a permutation of 1..9, i.e. the Sudoku is solved. |
| Objective.PermutationRowsScoreNothing | main.cpp:187-206 | When every row is a permutation of 1..9, the rows add nothing and the score is the columns' and blocks' share. |
| Objective.SwapKeepsRowScore | main.cpp:187-206 | A neighbour's rows add exactly what the current candidate's rows add. |
| Objective.ExtraSumOfSingles | main.cpp:201-205 | A tally in which no count exceeds one adds nothing. |
| Objective.ExtraSumChange | main.cpp:201-205 | Changing one key's count changes the sum by the change of that key's `count - 1` term. |
| Objective.TallyOne | main.cpp:196 | `tmp[v]++` keeps the key order listing each key once; it adds one to the sum exactly when `v` had a count of at least one. |
| Objective.CountsNext | main.cpp:195-197 | After `tmp[v]++` the keys are the digits and the values seen, and each key's count is the number of times it was seen. |
| Objective.TallyNext | main.cpp:195-197 | `tmp[v]++` keeps the map the tally of the values seen so far, and keeps its sum equal to their excess. |
| Objective.TallyStart | main.cpp:189-193 | The seeded map is the tally of no values, and its sum is 0. |
| Objective.TallyMapCounts | main.cpp:189-197 | Counting the values of a group one by one yields a map whose keys are the digits and the group's values, whose counts are the values' multiplicities, and whose sum is the group's excess. |
| Objective.Tally | main.cpp:189-197 | The counting loop yields the tally of the group, in the key order of insertion. |
| Objective.SumExtra | main.cpp:201-205 | The summing loop adds `count - 1` for every key counted more than once. |
| Objective.DuplicateCount | main.cpp:189-205 | One group adds exactly its excess. |
| Objective.CalculateObjectiveFunction | main.cpp:184-273 | The result is the excess of the rows, then the columns, then the blocks, summed (`Score`). |
| Annealer.RunTrial | main.cpp:128-153 | The trial stops exactly when the current candidate (not the neighbour) scores 0, and then keeps it. Otherwise it moves to the neighbour when the neighbour's score is no higher, and when it is higher moves only if the probabilistic test accepts. The mask never changes. |
| Annealer.RunTrialsStopsOnZero | main.cpp:132-139 | When the fold over one generation reports success, the candidate it ends on scores 0. |
| Annealer.RunStopsOnZero | main.cpp:126-160 | The fold over generations reports success only on a candidate scoring 0, after at least one generation and no more than were supplied; without success it has gone through every generation. |
| Annealer.RunGeneration | main.cpp:127-154 | One generation of `Mk` trials ends on exactly the candidate and the success flag of the fold `RunTrials` over its trials, and keeps the mask, the clues and each row's contents. |
| Annealer.Anneal | main.cpp:125-160 | The loop ends on exactly the outcome of the fold `Run` over the supplied trials: the same play area, success flag and number of generations. On the way the candidate keeps the starting mask, clues and row contents. Success is reported only with a current score of 0, after at least one generation; without success every supplied generation has run. |
| Annealer.PuzzleRowsAreConsistent | main.cpp:108-118 | The shipped puzzle holds digits 0..9 and no row repeats a clue. |
| Annealer.PuzzleRowsHaveBlanks | main.cpp:108-118 | Every row of the shipped puzzle has a blank cell, so the column loops of the neighbour have a cell on which they stop. |
| Annealer.Solve | main.cpp:105-165 | The result is the outcome of `Run` started from the populated puzzle. Every candidate `main` holds keeps the puzzle's clues and rows that are permutations of 1..9. Success is reported only on a solved Sudoku. |

## Left out

- `rand()` and `srand(time(0))`: every draw is an input.
  - Population: `draws[i][j]`, required to be a digit absent from the row as it stands when the cell is filled.
  - Neighbour: `i`, `j1`, `j2`; the cells (i, j1) and (i, j2) must be free, and may be the same cell.
  - The rejection loops are replaced by their exit conditions; their probabilistic termination is not modelled.
- Floating point: the temperature `tk`, `coolingRate`, `minimumTemperature`, the cooling step and the test `rand()%100 < exp(-delta/tk)*100` are not modelled. The test's outcome is the input `Trial.acceptWorse`, and it is read only when the neighbour is worse.
- Annealer.Anneal: the outer `while (!isValid)` loop has no bound in the program. The model runs over a finite, caller-supplied list of generations of draws and reports whether it stopped on success or because the list ran out.
- Objective.SumExtra: the program sums over an `unordered_map` in unspecified order. The model visits the keys in insertion order. The sum does not depend on the order, but the order is not modelled.
- Objective.CalculateObjectiveFunction: the block loop of the program tallies the cells straight from the array with two nested loops. The model reads the nine cells of the block into a sequence in the same row-by-row order, then tallies the sequence.
- Console output: `operator<<` and every `std::cout` line.
- Candidate.GenerateNeighboringSolution: a row with no free cell makes the program's column loops run forever. The model requires instead that the cells (i, j1) and (i, j2) be free; they may be the same cell. Annealer.PuzzleRowsHaveBlanks shows that the shipped puzzle has none of those rows. A row with exactly one free cell does not stall: both columns name that cell and the swap changes nothing.
- Candidate.PossibleSolution.constructor: the population loop never stalls, not even when a row repeats a clue, because the cell being filled is still 0 (Candidate.DrawAlwaysExists).
- Annealer.RunTrial: the stop test reads the current candidate, not the neighbour (main.cpp:132-137), so a zero-score neighbour is noticed only by the next trial.
