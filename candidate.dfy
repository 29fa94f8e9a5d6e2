/**
 * A candidate solution: the play area and the mask of cells that were
 * blank in the puzzle and so may be changed by the search. Population
 * fills every blank cell with a digit not yet in its row; a neighbour
 * is a copy in which two free cells of one row are swapped.
 *
 * The random digits and indices are parameters. Each is constrained by
 * the condition on which the source's rejection loop stops drawing.
 */
module Candidate {
  import opened SudokuBoard

  /** The value population leaves in cell (i, j): the clue, or the draw for a blank cell. */
  function Filled(puzzle: Board, draws: Board, i: int, j: int): int
    requires IsBoard(puzzle) && IsBoard(draws) && InRange(i) && InRange(j)
  {
    if puzzle[i][j] == 0 then draws[i][j] else puzzle[i][j]
  }

  /** The row as `std::find` sees it when cell (i, j) is about to be filled. */
  function RowWhenDrawn(puzzle: Board, draws: Board, i: int, j: int): (row: seq<int>)
    requires IsBoard(puzzle) && IsBoard(draws) && InRange(i)
  {
    seq(Size, c requires 0 <= c < Size => if c < j then Filled(puzzle, draws, i, c) else puzzle[i][c])
  }

  /**
   * The draws the population loop may end with: for every blank cell a
   * value of `rand() % 9 + 1` that is absent from the row at that moment.
   */
  ghost predicate DrawsAccepted(puzzle: Board, draws: Board)
    requires IsBoard(puzzle) && IsBoard(draws)
  {
    forall i :: InRange(i) ==> RowDrawsAccepted(puzzle, draws, i)
  }

  ghost predicate RowDrawsAccepted(puzzle: Board, draws: Board, i: int)
    requires IsBoard(puzzle) && IsBoard(draws) && InRange(i)
  {
    forall j :: InRange(j) && puzzle[i][j] == 0 ==>
      1 <= draws[i][j] <= 9 && draws[i][j] !in RowWhenDrawn(puzzle, draws, i, j)
  }

  /** The play area after population. */
  function Populated(puzzle: Board, draws: Board): (g: Board)
    requires IsBoard(puzzle) && IsBoard(draws)
  {
    seq(Size, i requires 0 <= i < Size => seq(Size, j requires 0 <= j < Size => Filled(puzzle, draws, i, j)))
  }

  /** A cell is free exactly when the puzzle left it blank. */
  function FreeMask(puzzle: Board): (mask: seq<seq<bool>>)
    requires IsBoard(puzzle)
  {
    seq(Size, i requires 0 <= i < Size => seq(Size, j requires 0 <= j < Size => puzzle[i][j] == 0))
  }

  /** Exchange cells (i, j1) and (i, j2). */
  function SwapInRow(g: Board, i: int, j1: int, j2: int): (h: Board)
    requires IsBoard(g) && InRange(i) && InRange(j1) && InRange(j2)
    ensures IsBoard(h)
  {
    g[i := g[i][j1 := g[i][j2]][j2 := g[i][j1]]]
  }

  /**
   * What every candidate reached from `origin` by swaps of free cells
   * shares with it: the same value in every clue cell and the same
   * multiset of values in every row.
   */
  ghost predicate DescendsFrom(origin: Board, mask: seq<seq<bool>>, g: Board)
    requires IsBoard(origin) && IsBoard(mask)
  {
    IsBoard(g) &&
    (forall i, j :: InRange(i) && InRange(j) && !mask[i][j] ==> g[i][j] == origin[i][j]) &&
    (forall i :: InRange(i) ==> multiset(g[i]) == multiset(origin[i]))
  }

  /** The candidate solution of the source: a play area and its free-digit mask. */
  class PossibleSolution {
    const playArea: array2<int>
    const isFreeDigit: array2<bool>

    ghost predicate Valid() {
      playArea.Length0 == Size && playArea.Length1 == Size &&
      isFreeDigit.Length0 == Size && isFreeDigit.Length1 == Size
    }

    /** The play area as a value. */
    ghost function Cells(): (g: Board)
      requires Valid()
      reads playArea
      ensures IsBoard(g)
      ensures forall i, j :: InRange(i) && InRange(j) ==> g[i][j] == playArea[i, j]
    {
      seq(Size, i requires 0 <= i < Size reads playArea =>
        seq(Size, j requires 0 <= j < Size reads playArea => playArea[i, j]))
    }

    /** The free-digit mask as a value. */
    ghost function Mask(): (mask: seq<seq<bool>>)
      requires Valid()
      reads isFreeDigit
      ensures IsBoard(mask)
      ensures forall i, j :: InRange(i) && InRange(j) ==> mask[i][j] == isFreeDigit[i, j]
    {
      seq(Size, i requires 0 <= i < Size reads isFreeDigit =>
        seq(Size, j requires 0 <= j < Size reads isFreeDigit => isFreeDigit[i, j]))
    }

    /**
     * Population: copy the puzzle, then visit the cells row by row and
     * give each blank one its draw, marking it free.
     */
    constructor (initialPlayArea: Board, draws: Board)
      requires IsBoard(initialPlayArea) && IsBoard(draws)
      requires DrawsAccepted(initialPlayArea, draws)
      ensures Valid() && fresh(playArea) && fresh(isFreeDigit)
      ensures Cells() == Populated(initialPlayArea, draws)
      ensures Mask() == FreeMask(initialPlayArea)
    {
      playArea := new int[Size, Size]((i, j) requires InRange(i) && InRange(j) => initialPlayArea[i][j]);
      isFreeDigit := new bool[Size, Size]((i, j) => false);
      new;
      for i := 0 to Size
        invariant forall r, c :: InRange(r) && InRange(c) ==>
          playArea[r, c] == (if r < i then Filled(initialPlayArea, draws, r, c) else initialPlayArea[r][c])
        invariant forall r, c :: InRange(r) && InRange(c) ==>
          isFreeDigit[r, c] == (r < i && initialPlayArea[r][c] == 0)
      {
        assert RowDrawsAccepted(initialPlayArea, draws, i);
        PopulateRow(initialPlayArea, draws, i);
      }
      assert forall r :: InRange(r) ==> Cells()[r] == Populated(initialPlayArea, draws)[r];
      assert forall r :: InRange(r) ==> Mask()[r] == FreeMask(initialPlayArea)[r];
    }

    /** The inner loop of population: fill the blank cells of row i from left to right. */
    method PopulateRow(initialPlayArea: Board, draws: Board, i: int)
      requires Valid() && IsBoard(initialPlayArea) && IsBoard(draws) && InRange(i)
      requires RowDrawsAccepted(initialPlayArea, draws, i)
      requires forall c :: InRange(c) ==> playArea[i, c] == initialPlayArea[i][c] && !isFreeDigit[i, c]
      modifies playArea, isFreeDigit
      ensures forall r, c :: InRange(r) && InRange(c) && r != i ==>
        playArea[r, c] == old(playArea[r, c]) && isFreeDigit[r, c] == old(isFreeDigit[r, c])
      ensures forall c :: InRange(c) ==>
        playArea[i, c] == Filled(initialPlayArea, draws, i, c) && isFreeDigit[i, c] == (initialPlayArea[i][c] == 0)
    {
      for j := 0 to Size
        invariant forall r, c :: InRange(r) && InRange(c) && r != i ==>
          playArea[r, c] == old(playArea[r, c]) && isFreeDigit[r, c] == old(isFreeDigit[r, c])
        invariant forall c :: InRange(c) ==>
          playArea[i, c] == RowWhenDrawn(initialPlayArea, draws, i, j)[c]
        invariant forall c :: InRange(c) ==> isFreeDigit[i, c] == (c < j && initialPlayArea[i][c] == 0)
      {
        if playArea[i, j] == 0 {
          var randNum := draws[i][j];
          // the do/while stops on this draw: `std::find` does not meet it in the row
          assert forall c :: InRange(c) ==> playArea[i, c] != randNum;
          playArea[i, j] := randNum;
          isFreeDigit[i, j] := true;
        }
      }
    }

    /** Copy constructor: a new play area and mask with the same contents. */
    constructor Copy(rhs: PossibleSolution)
      requires rhs.Valid()
      ensures Valid() && fresh(playArea) && fresh(isFreeDigit)
      ensures Cells() == rhs.Cells() && Mask() == rhs.Mask()
    {
      playArea := new int[Size, Size]((i, j) reads rhs.playArea requires InRange(i) && InRange(j) => rhs.playArea[i, j]);
      isFreeDigit := new bool[Size, Size]((i, j) reads rhs.isFreeDigit requires InRange(i) && InRange(j) => rhs.isFreeDigit[i, j]);
      new;
      assert forall r :: InRange(r) ==> Cells()[r] == rhs.Cells()[r];
      assert forall r :: InRange(r) ==> Mask()[r] == rhs.Mask()[r];
    }
  }

  /**
   * A neighbour of `currentSoln`: a copy in which the free cells
   * (i, j1) and (i, j2) are exchanged. The argument is not modified.
   */
  method GenerateNeighboringSolution(currentSoln: PossibleSolution, i: int, j1: int, j2: int)
    returns (tmp: PossibleSolution)
    requires currentSoln.Valid() && InRange(i) && InRange(j1) && InRange(j2)
    requires currentSoln.isFreeDigit[i, j1] && currentSoln.isFreeDigit[i, j2]
    ensures tmp.Valid() && fresh(tmp.playArea) && fresh(tmp.isFreeDigit)
    ensures tmp.Cells() == SwapInRow(currentSoln.Cells(), i, j1, j2)
    ensures tmp.Mask() == currentSoln.Mask()
  {
    tmp := new PossibleSolution.Copy(currentSoln);
    ghost var before := tmp.Cells();
    var t := tmp.playArea[i, j1];
    tmp.playArea[i, j1] := tmp.playArea[i, j2];
    tmp.playArea[i, j2] := t;
    assert forall r :: InRange(r) ==> tmp.Cells()[r] == SwapInRow(before, i, j1, j2)[r];
  }

  // ---------------------------------------------------------------------
  // Population

  /**
   * The population loop always finds a draw: the cell being filled still
   * holds 0, so at most eight digits are in the row, and some digit of
   * 1..9 is absent, even when the row's clues repeat a digit.
   */
  lemma DrawAlwaysExists(row: seq<int>, j: int)
    requires |row| == Size && 0 <= j < Size && row[j] == 0
    ensures exists d :: 1 <= d <= 9 && d !in row
  {
    if forall d :: 1 <= d <= 9 ==> d in row {
      var present := {0, 1, 2, 3, 4, 5, 6, 7, 8, 9};
      assert present <= Values(row);
      SubsetCardinality(present, Values(row));
      ValuesCardinality(row);
      assert false;
    }
  }

  /**
   * Population keeps every clue, fills every blank cell with a digit,
   * and marks a cell free exactly when the puzzle left it blank.
   */
  lemma PopulatedKeepsClues(puzzle: Board, draws: Board, i: int, j: int)
    requires IsBoard(puzzle) && IsBoard(draws) && DrawsAccepted(puzzle, draws)
    requires InRange(i) && InRange(j)
    ensures puzzle[i][j] != 0 ==> Populated(puzzle, draws)[i][j] == puzzle[i][j]
    ensures puzzle[i][j] == 0 ==> 1 <= Populated(puzzle, draws)[i][j] <= 9
    ensures FreeMask(puzzle)[i][j] <==> puzzle[i][j] == 0
  {
  }

  /** No two cells of a populated row repeat a value, when the row's clues do not. */
  lemma PopulatedRowDistinct(puzzle: Board, draws: Board, i: int)
    requires IsBoard(puzzle) && IsBoard(draws) && DrawsAccepted(puzzle, draws) && InRange(i)
    requires forall p, q :: 0 <= p < q < Size && puzzle[i][p] != 0 ==> puzzle[i][p] != puzzle[i][q]
    ensures Distinct(Populated(puzzle, draws)[i])
  {
    var row := Populated(puzzle, draws)[i];
    forall p, q | 0 <= p < q < Size ensures row[p] != row[q] {
      if puzzle[i][q] == 0 {
        // the later draw avoided every earlier cell of the row
        assert row[p] == RowWhenDrawn(puzzle, draws, i, q)[p];
      } else if puzzle[i][p] == 0 {
        // the earlier draw avoided every clue still ahead of it
        assert row[q] == RowWhenDrawn(puzzle, draws, i, p)[q];
      }
    }
  }

  /**
   * A row whose clues are digits that do not repeat is populated into a
   * permutation of 1..9.
   */
  lemma PopulatedRowIsPermutation(puzzle: Board, draws: Board, i: int)
    requires IsBoard(puzzle) && IsBoard(draws) && DrawsAccepted(puzzle, draws) && InRange(i)
    requires forall j :: InRange(j) ==> 0 <= puzzle[i][j] <= 9
    requires forall p, q :: 0 <= p < q < Size && puzzle[i][p] != 0 ==> puzzle[i][p] != puzzle[i][q]
    ensures IsDigitPermutation(Populated(puzzle, draws)[i])
  {
    PopulatedRowDistinct(puzzle, draws, i);
    forall j | InRange(j) ensures 1 <= Populated(puzzle, draws)[i][j] <= 9 {
      PopulatedKeepsClues(puzzle, draws, i, j);
    }
    DistinctDigitsArePermutation(Populated(puzzle, draws)[i]);
  }

  // ---------------------------------------------------------------------
  // Neighbours

  /**
   * A swap exchanges exactly the two cells, and swapping two free cells
   * leaves every clue cell as it was; with `j1 == j2` nothing changes.
   */
  lemma SwapChangesOnlyTheTwoCells(g: Board, mask: seq<seq<bool>>, i: int, j1: int, j2: int)
    requires IsBoard(g) && IsBoard(mask) && InRange(i) && InRange(j1) && InRange(j2)
    requires mask[i][j1] && mask[i][j2]
    ensures var h := SwapInRow(g, i, j1, j2);
      IsBoard(h) && h[i][j1] == g[i][j2] && h[i][j2] == g[i][j1] &&
      (forall r, c :: InRange(r) && InRange(c) && !(r == i && (c == j1 || c == j2)) ==> h[r][c] == g[r][c]) &&
      (forall r, c :: InRange(r) && InRange(c) && !mask[r][c] ==> h[r][c] == g[r][c])
    ensures j1 == j2 ==> SwapInRow(g, i, j1, j2) == g
  {
    if j1 == j2 {
      assert SwapInRow(g, i, j1, j2)[i] == g[i];
    }
  }

  /** A swap within a row keeps the multiset of every row. */
  lemma SwapKeepsRowContents(g: Board, i: int, j1: int, j2: int)
    requires IsBoard(g) && InRange(i) && InRange(j1) && InRange(j2)
    ensures forall r :: InRange(r) ==> multiset(SwapInRow(g, i, j1, j2)[r]) == multiset(g[r])
  {
    ExchangeKeepsMultiset(g[i], j1, j2);
  }

  /** Exchanging two entries of a sequence keeps its multiset. */
  lemma ExchangeKeepsMultiset(row: seq<int>, j1: int, j2: int)
    requires 0 <= j1 < |row| && 0 <= j2 < |row|
    ensures multiset(row[j1 := row[j2]][j2 := row[j1]]) == multiset(row)
  {
    if j1 != j2 {
      var mid := row[j1 := row[j2]];
      assert multiset(mid) == multiset(row) - multiset{row[j1]} + multiset{row[j2]};
      assert multiset(mid[j2 := row[j1]]) == multiset(mid) - multiset{row[j2]} + multiset{row[j1]};
    }
  }

  /** A row that is a permutation of 1..9 stays one after a swap. */
  lemma SwapKeepsPermutationRows(g: Board, i: int, j1: int, j2: int)
    requires IsBoard(g) && InRange(i) && InRange(j1) && InRange(j2)
    requires forall r :: InRange(r) ==> IsDigitPermutation(g[r])
    ensures forall r :: InRange(r) ==> IsDigitPermutation(SwapInRow(g, i, j1, j2)[r])
  {
    SwapKeepsRowContents(g, i, j1, j2);
  }

  /** Swapping two free cells keeps a candidate descended from `origin`. */
  lemma SwapKeepsDescent(origin: Board, mask: seq<seq<bool>>, g: Board, i: int, j1: int, j2: int)
    requires IsBoard(origin) && IsBoard(mask) && DescendsFrom(origin, mask, g)
    requires InRange(i) && InRange(j1) && InRange(j2) && mask[i][j1] && mask[i][j2]
    ensures DescendsFrom(origin, mask, SwapInRow(g, i, j1, j2))
  {
    SwapChangesOnlyTheTwoCells(g, mask, i, j1, j2);
    SwapKeepsRowContents(g, i, j1, j2);
  }

  /**
   * A candidate descended from a populated puzzle keeps the puzzle's
   * clues, and its rows stay permutations of 1..9 when the puzzle's rows
   * hold digits that do not repeat.
   */
  lemma DescendantKeepsPuzzle(puzzle: Board, draws: Board, g: Board)
    requires IsBoard(puzzle) && IsBoard(draws) && DrawsAccepted(puzzle, draws)
    requires DescendsFrom(Populated(puzzle, draws), FreeMask(puzzle), g)
    ensures forall i, j :: InRange(i) && InRange(j) && puzzle[i][j] != 0 ==> g[i][j] == puzzle[i][j]
    ensures (forall i, j :: InRange(i) && InRange(j) ==> 0 <= puzzle[i][j] <= 9) &&
            (forall i, p, q :: InRange(i) && 0 <= p < q < Size && puzzle[i][p] != 0 ==> puzzle[i][p] != puzzle[i][q])
            ==> forall i :: InRange(i) ==> IsDigitPermutation(g[i])
  {
    if (forall i, j :: InRange(i) && InRange(j) ==> 0 <= puzzle[i][j] <= 9) &&
       (forall i, p, q :: InRange(i) && 0 <= p < q < Size && puzzle[i][p] != 0 ==> puzzle[i][p] != puzzle[i][q])
    {
      forall i | InRange(i) ensures IsDigitPermutation(g[i]) {
        PopulatedRowIsPermutation(puzzle, draws, i);
      }
    }
  }
}
