/**
 * The search loop of the program: generations of `Mk` trials, each
 * proposing a swap in one row, comparing the scores of the current
 * candidate and of the neighbour, and stopping as soon as the current
 * candidate scores 0.
 *
 * The random draws of a trial (the row, the two columns and the outcome
 * of the probabilistic acceptance test) are inputs.
 */
module Annealer {
  import opened SudokuBoard
  import opened Candidate
  import opened Objective

  /** Trials per generation (temperature step). */
  const Mk := 10

  /** The puzzle `main` starts from; 0 marks a blank cell. */
  const Puzzle: Board := [
    [0, 0, 6, 0, 0, 0, 0, 0, 0],
    [0, 8, 0, 0, 5, 4, 2, 0, 0],
    [0, 4, 0, 0, 9, 0, 0, 7, 0],
    [0, 0, 7, 9, 0, 0, 3, 0, 0],
    [0, 0, 0, 0, 8, 0, 4, 0, 0],
    [6, 0, 0, 0, 0, 0, 1, 0, 0],
    [2, 0, 3, 0, 0, 0, 0, 0, 1],
    [0, 0, 0, 5, 0, 0, 0, 4, 0],
    [0, 0, 8, 3, 0, 0, 5, 0, 2]
  ]

  /**
   * The draws of one trial: the row `i` and the columns `j1`, `j2` the
   * neighbour swaps, and whether the probabilistic test would accept a
   * worse neighbour.
   */
  datatype Trial = Trial(i: int, j1: int, j2: int, acceptWorse: bool)

  /** The row and columns of a trial name cells of the play area. */
  ghost predicate InBoard(t: Trial) {
    InRange(t.i) && InRange(t.j1) && InRange(t.j2)
  }

  /** The column draws are those on which the rejection loops stop: both cells free. */
  ghost predicate TrialAllowed(mask: seq<seq<bool>>, t: Trial)
    requires IsBoard(mask)
  {
    InBoard(t) && mask[t.i][t.j1] && mask[t.i][t.j2]
  }

  /** Every trial of a generation names cells of the play area. */
  ghost predicate AllInBoard(trials: seq<Trial>) {
    forall n :: 0 <= n < |trials| ==> InBoard(trials[n])
  }

  /** A generation of `Mk` trials, each allowed by `mask`. */
  ghost predicate TrialsAllowed(mask: seq<seq<bool>>, trials: seq<Trial>)
    requires IsBoard(mask)
  {
    |trials| == Mk && AllInBoard(trials) && forall m :: 0 <= m < Mk ==> TrialAllowed(mask, trials[m])
  }

  /** Every generation is allowed by `mask`. */
  ghost predicate GenerationsAllowed(mask: seq<seq<bool>>, generations: seq<seq<Trial>>)
    requires IsBoard(mask)
  {
    forall q :: 0 <= q < |generations| ==> TrialsAllowed(mask, generations[q])
  }

  /**
   * The candidate after a trial that did not stop: the neighbour when its
   * score is no higher, or when the probabilistic test accepts it; else
   * the current candidate.
   */
  ghost function Accept(g: Board, t: Trial): (next: Board)
    requires IsBoard(g) && InBoard(t)
    ensures IsBoard(next)
  {
    var neighbour := SwapInRow(g, t.i, t.j1, t.j2);
    if Score(neighbour) <= Score(g) || t.acceptWorse then neighbour else g
  }

  /**
   * Trials `m..` of one generation from the play area `g`: the play area
   * when the generation ends, and whether it ended because the current
   * candidate scored 0 (then before any later trial moves it).
   */
  ghost function RunTrials(g: Board, trials: seq<Trial>, m: nat): (r: (Board, bool))
    requires IsBoard(g) && AllInBoard(trials)
    ensures IsBoard(r.0)
    decreases |trials| - m
  {
    if m >= |trials| then (g, false)
    else if Score(g) == 0 then (g, true)
    else RunTrials(Accept(g, trials[m]), trials, m + 1)
  }

  /**
   * Generations `k..` from the play area `g`: the final play area, whether
   * the search stopped on a score of 0, and the generation count `k` at
   * the end (the generation that stopped included).
   */
  ghost function Run(g: Board, generations: seq<seq<Trial>>, k: nat): (r: (Board, bool, nat))
    requires IsBoard(g)
    requires forall q :: 0 <= q < |generations| ==> AllInBoard(generations[q])
    ensures IsBoard(r.0)
    decreases |generations| - k
  {
    if k >= |generations| then (g, false, k)
    else
      var (h, found) := RunTrials(g, generations[k], 0);
      if found then (h, true, k + 1) else Run(h, generations, k + 1)
  }

  /** A search reported as successful ends on a play area that scores 0. */
  lemma {:induction false} RunTrialsStopsOnZero(g: Board, trials: seq<Trial>, m: nat)
    requires IsBoard(g) && AllInBoard(trials)
    ensures RunTrials(g, trials, m).1 ==> Score(RunTrials(g, trials, m).0) == 0
    decreases |trials| - m
  {
    if m < |trials| && Score(g) != 0 {
      RunTrialsStopsOnZero(Accept(g, trials[m]), trials, m + 1);
    }
  }

  /** The search stops with success exactly on a play area that scores 0, and only then. */
  lemma {:induction false} RunStopsOnZero(g: Board, generations: seq<seq<Trial>>, k: nat)
    requires IsBoard(g)
    requires forall q :: 0 <= q < |generations| ==> AllInBoard(generations[q])
    ensures var r := Run(g, generations, k);
      (r.1 ==> Score(r.0) == 0 && k < r.2 <= |generations|) &&
      (!r.1 ==> r.2 == if k <= |generations| then |generations| else k)
    decreases |generations| - k
  {
    if k < |generations| {
      RunTrialsStopsOnZero(g, generations[k], 0);
      var (h, found) := RunTrials(g, generations[k], 0);
      if !found {
        RunStopsOnZero(h, generations, k + 1);
      }
    }
  }

  /**
   * One trial: build the neighbour, score both candidates, stop if the
   * current one scores 0; otherwise move to a neighbour that is no
   * worse, and to a worse one only when the probabilistic test says so.
   */
  method RunTrial(w: PossibleSolution, t: Trial) returns (next: PossibleSolution, isValid: bool)
    requires w.Valid() && TrialAllowed(w.Mask(), t)
    ensures next.Valid() && next.Mask() == w.Mask()
    ensures isValid <==> Score(w.Cells()) == 0
    ensures isValid ==> next.Cells() == w.Cells()
    ensures var neighbour := SwapInRow(w.Cells(), t.i, t.j1, t.j2);
      !isValid && Score(neighbour) <= Score(w.Cells()) ==> next.Cells() == neighbour
    ensures var neighbour := SwapInRow(w.Cells(), t.i, t.j1, t.j2);
      !isValid && Score(neighbour) > Score(w.Cells()) ==>
        next.Cells() == if t.acceptWorse then neighbour else w.Cells()
  {
    var w_p := GenerateNeighboringSolution(w, t.i, t.j1, t.j2);
    var score := CalculateObjectiveFunction(w);
    var score_p := CalculateObjectiveFunction(w_p);
    if score == 0 {
      isValid := true;
      next := w;
    } else {
      isValid := false;
      var delta := score_p - score;
      if delta <= 0 {
        next := w_p;
      } else if t.acceptWorse {
        next := w_p;
      } else {
        next := w;
      }
    }
  }

  /**
   * The `for (m = 0; m < Mk; m++)` loop of one generation: it ends on the
   * play area and outcome the trials' rule gives (`RunTrials`), and keeps
   * the candidate descended from `origin`.
   */
  method RunGeneration(w0: PossibleSolution, trials: seq<Trial>, ghost origin: Board, ghost mask: seq<seq<bool>>)
    returns (w: PossibleSolution, isValid: bool)
    requires w0.Valid() && IsBoard(origin) && w0.Mask() == mask && DescendsFrom(origin, mask, w0.Cells())
    requires TrialsAllowed(mask, trials)
    ensures w.Valid() && w.Mask() == mask
    ensures DescendsFrom(origin, mask, w.Cells())
    ensures (w.Cells(), isValid) == RunTrials(w0.Cells(), trials, 0)
  {
    w := w0;
    isValid := false;
    for m := 0 to Mk
      invariant w.Valid() && w.Mask() == mask
      invariant DescendsFrom(origin, mask, w.Cells())
      invariant RunTrials(w.Cells(), trials, m) == RunTrials(w0.Cells(), trials, 0)
    {
      var t := trials[m];
      var next, found := RunTrial(w, t);
      if found {
        isValid := true;
        return;
      }
      assert next.Cells() == Accept(w.Cells(), t);
      if next.Cells() != w.Cells() {
        SwapKeepsDescent(origin, mask, w.Cells(), t.i, t.j1, t.j2);
      }
      w := next;
    }
  }

  /**
   * The `while (!isValid)` loop over the supplied generations: it ends on
   * exactly the play area, outcome and generation count that the trials'
   * rule gives (`Run`). Whatever the trials accept, the current candidate
   * keeps the mask and the clue cells of the start and the contents of
   * each of its rows.
   */
  method Anneal(w0: PossibleSolution, generations: seq<seq<Trial>>) returns (w: PossibleSolution, isValid: bool, k: nat)
    requires w0.Valid() && GenerationsAllowed(w0.Mask(), generations)
    ensures w.Valid() && w.Mask() == w0.Mask()
    ensures DescendsFrom(w0.Cells(), w0.Mask(), w.Cells())
    ensures (w.Cells(), isValid, k) == Run(w0.Cells(), generations, 0)
    ensures isValid ==> Score(w.Cells()) == 0 && 1 <= k <= |generations|
    ensures !isValid ==> k == |generations|
  {
    ghost var origin := w0.Cells();
    ghost var mask := w0.Mask();
    assert DescendsFrom(origin, mask, origin);
    w := w0;
    isValid := false;
    k := 0;
    while !isValid && k < |generations|
      invariant w.Valid() && w.Mask() == mask
      invariant DescendsFrom(origin, mask, w.Cells())
      invariant k <= |generations|
      invariant Run(origin, generations, 0) == if isValid then (w.Cells(), true, k) else Run(w.Cells(), generations, k)
    {
      ghost var start := w.Cells();
      w, isValid := RunGeneration(w, generations[k], origin, mask);
      RunOneGeneration(start, generations, k);
      k := k + 1;
    }
    RunStopsOnZero(origin, generations, 0);
  }

  /** `Run` takes the outcome of one generation and goes on only if it did not stop. */
  lemma RunOneGeneration(g: Board, generations: seq<seq<Trial>>, k: nat)
    requires IsBoard(g) && k < |generations|
    requires forall q :: 0 <= q < |generations| ==> AllInBoard(generations[q])
    ensures var (h, found) := RunTrials(g, generations[k], 0);
      Run(g, generations, k) == if found then (h, true, k + 1) else Run(h, generations, k + 1)
  {
  }

  /** The shipped puzzle holds digits 0..9 and repeats no clue within a row. */
  lemma PuzzleRowsAreConsistent()
    ensures IsBoard(Puzzle)
    ensures forall i, j :: InRange(i) && InRange(j) ==> 0 <= Puzzle[i][j] <= 9
    ensures forall i, p, q :: InRange(i) && 0 <= p < q < Size && Puzzle[i][p] != 0 ==> Puzzle[i][p] != Puzzle[i][q]
  {
  }

  /** Every row of the shipped puzzle has a blank cell, so every row has a free cell to swap. */
  lemma PuzzleRowsHaveBlanks()
    ensures forall i :: InRange(i) ==> exists j :: InRange(j) && Puzzle[i][j] == 0
  {
    forall i | InRange(i) ensures exists j :: InRange(j) && Puzzle[i][j] == 0 {
      var j := if i == 5 || i == 6 then 1 else 0;
      assert Puzzle[i][j] == 0 by {
        assert Puzzle[0][0] == Puzzle[1][0] == Puzzle[2][0] == Puzzle[3][0] == Puzzle[4][0] == 0;
        assert Puzzle[5][1] == Puzzle[6][1] == Puzzle[7][0] == Puzzle[8][0] == 0;
      }
    }
  }

  /**
   * `main`: populate the shipped puzzle, then anneal. Every candidate
   * keeps the clues and rows that are permutations of 1..9, and the
   * search reports success only on a solved Sudoku.
   */
  method Solve(draws: Board, generations: seq<seq<Trial>>) returns (w: PossibleSolution, isValid: bool, k: nat)
    requires IsBoard(draws) && DrawsAccepted(Puzzle, draws)
    requires GenerationsAllowed(FreeMask(Puzzle), generations)
    ensures w.Valid()
    ensures forall i, j :: InRange(i) && InRange(j) && Puzzle[i][j] != 0 ==> w.Cells()[i][j] == Puzzle[i][j]
    ensures forall i :: InRange(i) ==> IsDigitPermutation(w.Cells()[i])
    ensures (w.Cells(), isValid, k) == Run(Populated(Puzzle, draws), generations, 0)
    ensures isValid ==> IsSolved(w.Cells())
    ensures !isValid ==> k == |generations|
  {
    var w0 := new PossibleSolution(Puzzle, draws);
    w, isValid, k := Anneal(w0, generations);
    PuzzleRowsAreConsistent();
    DescendantKeepsPuzzle(Puzzle, draws, w.Cells());
    if isValid {
      ghost var g := w.Cells();
      forall i, j | InRange(i) && InRange(j) ensures 1 <= g[i][j] <= 9 {
        PermutationIsDistinctDigits(g[i]);
      }
      ScoreZeroIffSolved(g);
    }
  }
}
