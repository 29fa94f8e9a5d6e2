/**
 * The 9x9 play area as a value: its shape, the 27 constraint groups
 * (9 rows, 9 columns, 9 blocks of 3x3) and what it means for a group
 * to hold each digit 1..9 exactly once.
 */
module SudokuBoard {

  /** Number of rows, of columns, of blocks, and of cells in every group. */
  const Size := 9

  /** A play area as a value: row-major, `g[i][j]` is row i, column j. */
  type Board = seq<seq<int>>

  /** The multiset holding each digit 1..9 once: a complete row, column or block. */
  const Digits: multiset<int> := multiset{1, 2, 3, 4, 5, 6, 7, 8, 9}

  ghost predicate IsBoard<T>(g: seq<seq<T>>) {
    |g| == Size && forall i :: 0 <= i < Size ==> |g[i]| == Size
  }

  predicate InRange(i: int) {
    0 <= i < Size
  }

  /**
   * The first row of a block. Blocks are numbered row-major:
   *   0 1 2
   *   3 4 5
   *   6 7 8
   * and the source picks the row with a `switch` on the block number;
   * a number outside 0..8 matches no case and leaves the row at 0.
   */
  function StartingRow(block: int): int {
    match block
    case 0 | 1 | 2 => 0
    case 3 | 4 | 5 => 3
    case 6 | 7 | 8 => 6
    case _ => 0
  }

  /** The first column of a block. */
  function StartingColumn(block: int): int {
    (block % 3) * 3
  }

  /** The block a cell lies in. */
  function BlockOf(i: int, j: int): int {
    3 * (i / 3) + j / 3
  }

  /** Does block `block` cover cell (i, j)? */
  predicate InBlock(block: int, i: int, j: int) {
    StartingRow(block) <= i < StartingRow(block) + 3 &&
    StartingColumn(block) <= j < StartingColumn(block) + 3
  }

  function Row(g: Board, i: int): (row: seq<int>)
    requires IsBoard(g) && InRange(i)
  {
    g[i]
  }

  function Column(g: Board, j: int): (column: seq<int>)
    requires IsBoard(g) && InRange(j)
  {
    seq(Size, i requires 0 <= i < Size => g[i][j])
  }

  /** The cells of a block, visited row by row as the source's nested loops do. */
  function Block(g: Board, block: int): (cells: seq<int>)
    requires IsBoard(g) && InRange(block)
  {
    seq(Size, k requires 0 <= k < Size => g[StartingRow(block) + k / 3][StartingColumn(block) + k % 3])
  }

  function Rows(g: Board): (rows: seq<seq<int>>)
    requires IsBoard(g)
  {
    seq(Size, i requires 0 <= i < Size => Row(g, i))
  }

  function Columns(g: Board): (columns: seq<seq<int>>)
    requires IsBoard(g)
  {
    seq(Size, j requires 0 <= j < Size => Column(g, j))
  }

  function Blocks(g: Board): (blocks: seq<seq<int>>)
    requires IsBoard(g)
  {
    seq(Size, b requires 0 <= b < Size => Block(g, b))
  }

  /** No value occurs twice. */
  ghost predicate Distinct(s: seq<int>) {
    forall p, q :: 0 <= p < q < |s| ==> s[p] != s[q]
  }

  /** Every cell holds one of the digits 1..9. */
  ghost predicate AllDigits(s: seq<int>) {
    forall k :: 0 <= k < |s| ==> 1 <= s[k] <= 9
  }

  /** The group holds each digit 1..9 exactly once. */
  ghost predicate IsDigitPermutation(s: seq<int>) {
    multiset(s) == Digits
  }

  /** The distinct values of a group. */
  ghost function Values(s: seq<int>): set<int> {
    set x | x in s
  }

  /** A solved play area: every row, column and block is a permutation of 1..9. */
  ghost predicate IsSolved(g: Board)
    requires IsBoard(g)
  {
    forall k :: 0 <= k < Size ==>
      IsDigitPermutation(Row(g, k)) && IsDigitPermutation(Column(g, k)) && IsDigitPermutation(Block(g, k))
  }

  // ---------------------------------------------------------------------
  // Blocks

  /** The `switch` computes the row origin as three times the block row. */
  lemma StartingRowIsBlockRow(block: int)
    requires InRange(block)
    ensures StartingRow(block) == 3 * (block / 3)
    ensures StartingColumn(block) == 3 * (block % 3)
  {
  }

  /**
   * Blocks partition the cells: cell (i, j) lies in exactly one block,
   * the one numbered `BlockOf(i, j)`.
   */
  lemma BlocksPartitionCells(block: int, i: int, j: int)
    requires InRange(block) && InRange(i) && InRange(j)
    ensures InRange(BlockOf(i, j))
    ensures InBlock(block, i, j) <==> block == BlockOf(i, j)
  {
    StartingRowIsBlockRow(block);
  }

  /**
   * Every cell is visited by the block loop: cell (i, j) is entry
   * `3 * (i % 3) + j % 3` of block `BlockOf(i, j)`.
   */
  lemma BlockCoversCell(g: Board, i: int, j: int)
    requires IsBoard(g) && InRange(i) && InRange(j)
    ensures InRange(BlockOf(i, j))
    ensures Block(g, BlockOf(i, j))[3 * (i % 3) + j % 3] == g[i][j]
  {
    var b := BlockOf(i, j);
    StartingRowIsBlockRow(b);
    assert b / 3 == i / 3 && b % 3 == j / 3;
    var k := 3 * (i % 3) + j % 3;
    assert k / 3 == i % 3 && k % 3 == j % 3;
    assert StartingRow(b) + k / 3 == i && StartingColumn(b) + k % 3 == j;
    assert Block(g, b)[k] == g[StartingRow(b) + k / 3][StartingColumn(b) + k % 3];
  }

  // ---------------------------------------------------------------------
  // Counting values

  /** A subset as large as its superset is the superset. */
  lemma SubsetCardinality(a: set<int>, b: set<int>)
    requires a <= b
    ensures |a| <= |b|
    ensures |a| == |b| ==> a == b
  {
    assert b == a + (b - a);
    assert a * (b - a) == {};
    if |a| == |b| {
      assert |b - a| == 0;
    }
  }

  lemma {:induction false} ValuesOfPrefix(s: seq<int>)
    requires s != []
    ensures Values(s) == Values(s[..|s| - 1]) + {s[|s| - 1]}
  {
    assert s == s[..|s| - 1] + [s[|s| - 1]];
  }

  /** A group has at most as many distinct values as cells, and exactly as many when no value repeats. */
  lemma {:induction false} ValuesCardinality(s: seq<int>)
    ensures |Values(s)| <= |s|
    ensures Distinct(s) ==> |Values(s)| == |s|
  {
    if s != [] {
      var n := |s| - 1;
      ValuesOfPrefix(s);
      ValuesCardinality(s[..n]);
      if Distinct(s) {
        assert s[n] !in s[..n];
      }
    }
  }

  /** A value at two positions is counted at least twice. */
  lemma RepeatCountsTwice(s: seq<int>, p: int, q: int)
    requires 0 <= p < q < |s| && s[p] == s[q]
    ensures multiset(s)[s[p]] >= 2
  {
    assert s == s[..q] + s[q..];
    assert s[p] in s[..q];
    assert s[q] in s[q..];
    assert multiset(s) == multiset(s[..q]) + multiset(s[q..]);
  }

  /** Without repeats, every value is counted at most once. */
  lemma {:induction false} DistinctCountsOnce(s: seq<int>, v: int)
    requires Distinct(s)
    ensures multiset(s)[v] <= 1
  {
    if s != [] {
      var n := |s| - 1;
      assert s == s[..n] + [s[n]];
      DistinctCountsOnce(s[..n], v);
      if s[n] == v {
        assert v !in s[..n];
      }
    }
  }

  /** How often each value occurs in `Digits`. */
  lemma DigitsCount(v: int)
    ensures Digits[v] == if 1 <= v <= 9 then 1 else 0
  {
  }

  /** A permutation of 1..9 holds only digits and repeats none. */
  lemma PermutationIsDistinctDigits(s: seq<int>)
    requires IsDigitPermutation(s)
    ensures |s| == Size && AllDigits(s) && Distinct(s)
  {
    assert |s| == |multiset(s)| == |Digits|;
    forall k | 0 <= k < |s| ensures 1 <= s[k] <= 9 {
      assert s[k] in multiset(s);
      DigitsCount(s[k]);
    }
    forall p, q | 0 <= p < q < |s| ensures s[p] != s[q] {
      if s[p] == s[q] {
        RepeatCountsTwice(s, p, q);
        DigitsCount(s[p]);
      }
    }
  }

  /** Nine distinct digits cover all of 1..9. */
  lemma DistinctDigitsCoverDigits(s: seq<int>)
    requires |s| == Size && AllDigits(s) && Distinct(s)
    ensures Values(s) == {1, 2, 3, 4, 5, 6, 7, 8, 9}
  {
    var digitSet := {1, 2, 3, 4, 5, 6, 7, 8, 9};
    forall x | x in Values(s) ensures x in digitSet {
      var k :| 0 <= k < |s| && s[k] == x;
    }
    ValuesCardinality(s);
    SubsetCardinality(Values(s), digitSet);
  }

  /** Pigeonhole: nine cells holding digits with no repeat hold each digit exactly once. */
  lemma DistinctDigitsArePermutation(s: seq<int>)
    requires |s| == Size && AllDigits(s) && Distinct(s)
    ensures IsDigitPermutation(s)
  {
    DistinctDigitsCoverDigits(s);
    forall v ensures multiset(s)[v] == Digits[v] {
      DistinctCountsOnce(s, v);
      DigitsCount(v);
      if 1 <= v <= 9 {
        assert v in Values(s);
      }
    }
    assert multiset(s) == Digits;
  }

  /** Both directions together. */
  lemma DigitPermutationIffDistinct(s: seq<int>)
    requires |s| == Size
    ensures IsDigitPermutation(s) <==> AllDigits(s) && Distinct(s)
  {
    if IsDigitPermutation(s) {
      PermutationIsDistinctDigits(s);
    }
    if AllDigits(s) && Distinct(s) {
      DistinctDigitsArePermutation(s);
    }
  }
}
