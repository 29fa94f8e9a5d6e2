/**
 * The objective function: the number of duplicate values over the 27
 * groups of the play area. Each group tallies how often each value
 * occurs in a map pre-seeded with the digits 1..9, then adds
 * `count - 1` for every value counted more than once.
 */
module Objective {
  import opened SudokuBoard
  import opened Candidate

  // ---------------------------------------------------------------------
  // Specification

  /** The number of cells of a group whose value already occurs in an earlier cell. */
  function Excess(s: seq<int>): nat {
    if s == [] then 0
    else Excess(s[..|s| - 1]) + (if s[|s| - 1] in s[..|s| - 1] then 1 else 0)
  }

  /** The excess of every group of a list, summed. */
  function SumExcess(groups: seq<seq<int>>): nat {
    if groups == [] then 0
    else SumExcess(groups[..|groups| - 1]) + Excess(groups[|groups| - 1])
  }

  /** The value `calculateObjectiveFunction` computes: rows, then columns, then blocks. */
  function Score(g: Board): nat
    requires IsBoard(g)
  {
    SumExcess(Rows(g)) + SumExcess(Columns(g)) + SumExcess(Blocks(g))
  }

  /** The score term of one tally entry: the extra occurrences beyond the first. */
  function Extra(count: int): int {
    if count > 1 then count - 1 else 0
  }

  /** The count of `v` in a tally; `operator[]` reads a missing key as zero. */
  function Count(tally: map<int, int>, v: int): int {
    if v in tally then tally[v] else 0
  }

  /** The map the source seeds with a zero count for each digit 1..9. */
  function SeededTally(): map<int, int> {
    map[1 := 0, 2 := 0, 3 := 0, 4 := 0, 5 := 0, 6 := 0, 7 := 0, 8 := 0, 9 := 0]
  }

  /** The order in which the seeded keys were inserted. */
  function SeededOrder(): seq<int> {
    [1, 2, 3, 4, 5, 6, 7, 8, 9]
  }

  /** `tally[v]++`. */
  function Increment(tally: map<int, int>, v: int): map<int, int> {
    tally[v := Count(tally, v) + 1]
  }

  /** The keys in the order they were inserted, after `tally[v]++`. */
  function InsertionOrder(tally: map<int, int>, order: seq<int>, v: int): seq<int> {
    if v in tally then order else order + [v]
  }

  /** Every key of `order` is a key of the tally. */
  ghost predicate Covers(tally: map<int, int>, order: seq<int>) {
    forall k :: 0 <= k < |order| ==> order[k] in tally
  }

  /**
   * The sum of `Extra` over the tally entries, visiting the keys in the
   * sequence `order`.
   */
  function ExtraSum(tally: map<int, int>, order: seq<int>): int
    requires Covers(tally, order)
  {
    if order == [] then 0
    else ExtraSum(tally, order[..|order| - 1]) + Extra(tally[order[|order| - 1]])
  }

  // ---------------------------------------------------------------------
  // Excess of one group

  /** A group's excess is its size less its number of distinct values. */
  lemma {:induction false} ExcessIsSizeLessDistinct(s: seq<int>)
    ensures Excess(s) == |s| - |Values(s)|
  {
    if s != [] {
      var n := |s| - 1;
      ValuesOfPrefix(s);
      ExcessIsSizeLessDistinct(s[..n]);
      if s[n] in s[..n] {
        assert Values(s) == Values(s[..n]);
      }
    }
  }

  /** A group has no excess exactly when no value repeats in it. */
  lemma {:induction false} ExcessZeroIffDistinct(s: seq<int>)
    ensures Excess(s) == 0 <==> Distinct(s)
  {
    if s != [] {
      var n := |s| - 1;
      ExcessZeroIffDistinct(s[..n]);
      if Distinct(s) {
        assert Distinct(s[..n]);
        assert s[n] !in s[..n];
      }
      if Excess(s) == 0 {
        forall p, q | 0 <= p < q < |s| ensures s[p] != s[q] {
          if q < n {
            assert s[p] == s[..n][p] && s[q] == s[..n][q];
          } else {
            assert s[p] in s[..n];
          }
        }
      }
    }
  }

  /** A group of nine cells has an excess of at most eight. */
  lemma ExcessAtMostSizeLessOne(s: seq<int>)
    requires s != []
    ensures Excess(s) <= |s| - 1
  {
    ExcessIsSizeLessDistinct(s);
    assert s[0] in Values(s);
  }

  /** The excess depends only on the multiset of the group, not on the order of its cells. */
  lemma ExcessOfPermutation(s: seq<int>, t: seq<int>)
    requires multiset(s) == multiset(t)
    ensures Excess(s) == Excess(t)
  {
    ExcessIsSizeLessDistinct(s);
    ExcessIsSizeLessDistinct(t);
    assert |s| == |multiset(s)| == |t|;
    forall x ensures x in Values(s) <==> x in Values(t) {
      assert x in s <==> x in multiset(s);
      assert x in t <==> x in multiset(t);
    }
    assert Values(s) == Values(t);
  }

  // ---------------------------------------------------------------------
  // Sums over groups

  lemma {:induction false} SumExcessZero(groups: seq<seq<int>>)
    ensures SumExcess(groups) == 0 <==> forall k :: 0 <= k < |groups| ==> Excess(groups[k]) == 0
  {
    if groups != [] {
      var n := |groups| - 1;
      SumExcessZero(groups[..n]);
      assert forall k :: 0 <= k < n ==> groups[..n][k] == groups[k];
    }
  }

  lemma {:induction false} SumExcessBound(groups: seq<seq<int>>)
    requires forall k :: 0 <= k < |groups| ==> |groups[k]| == Size
    ensures SumExcess(groups) <= (Size - 1) * |groups|
  {
    if groups != [] {
      var n := |groups| - 1;
      SumExcessBound(groups[..n]);
      ExcessAtMostSizeLessOne(groups[n]);
    }
  }

  // ---------------------------------------------------------------------
  // The score

  /** The score is between 0 and 27 groups times 8 extra cells. */
  lemma ScoreBounds(g: Board)
    requires IsBoard(g)
    ensures 0 <= Score(g) <= 216
  {
    SumExcessBound(Rows(g));
    SumExcessBound(Columns(g));
    SumExcessBound(Blocks(g));
  }

  /** The score is 0 exactly when no row, column or block repeats a value. */
  lemma ScoreZeroIffNoRepeats(g: Board)
    requires IsBoard(g)
    ensures Score(g) == 0 <==>
      forall k :: InRange(k) ==> Distinct(Row(g, k)) && Distinct(Column(g, k)) && Distinct(Block(g, k))
  {
    SumExcessZero(Rows(g));
    SumExcessZero(Columns(g));
    SumExcessZero(Blocks(g));
    forall k | InRange(k)
      ensures Excess(Row(g, k)) == 0 <==> Distinct(Row(g, k))
      ensures Excess(Column(g, k)) == 0 <==> Distinct(Column(g, k))
      ensures Excess(Block(g, k)) == 0 <==> Distinct(Block(g, k))
    {
      ExcessZeroIffDistinct(Row(g, k));
      ExcessZeroIffDistinct(Column(g, k));
      ExcessZeroIffDistinct(Block(g, k));
    }
    assert forall k :: InRange(k) ==> Rows(g)[k] == Row(g, k);
    assert forall k :: InRange(k) ==> Columns(g)[k] == Column(g, k);
    assert forall k :: InRange(k) ==> Blocks(g)[k] == Block(g, k);
  }

  /** On a play area of digits, every group holds digits only. */
  lemma GroupsHoldDigits(g: Board, k: int)
    requires IsBoard(g) && InRange(k)
    requires forall i, j :: InRange(i) && InRange(j) ==> 1 <= g[i][j] <= 9
    ensures AllDigits(Row(g, k)) && AllDigits(Column(g, k)) && AllDigits(Block(g, k))
  {
    StartingRowIsBlockRow(k);
    forall c | InRange(c)
      ensures 1 <= Row(g, k)[c] <= 9 && 1 <= Column(g, k)[c] <= 9 && 1 <= Block(g, k)[c] <= 9
    {
      assert Row(g, k)[c] == g[k][c];
      assert Column(g, k)[c] == g[c][k];
      assert InRange(StartingRow(k) + c / 3) && InRange(StartingColumn(k) + c % 3);
    }
  }

  /** On a play area of digits, a score of 0 means a solved Sudoku, and only then. */
  lemma ScoreZeroIffSolved(g: Board)
    requires IsBoard(g)
    requires forall i, j :: InRange(i) && InRange(j) ==> 1 <= g[i][j] <= 9
    ensures Score(g) == 0 <==> IsSolved(g)
  {
    ScoreZeroIffNoRepeats(g);
    forall k | InRange(k)
      ensures IsDigitPermutation(Row(g, k)) <==> Distinct(Row(g, k))
      ensures IsDigitPermutation(Column(g, k)) <==> Distinct(Column(g, k))
      ensures IsDigitPermutation(Block(g, k)) <==> Distinct(Block(g, k))
    {
      GroupsHoldDigits(g, k);
      DigitPermutationIffDistinct(Row(g, k));
      DigitPermutationIffDistinct(Column(g, k));
      DigitPermutationIffDistinct(Block(g, k));
    }
  }

  /**
   * When every row is a permutation of 1..9 the rows add nothing to the
   * score: only columns and blocks count.
   */
  lemma PermutationRowsScoreNothing(g: Board)
    requires IsBoard(g)
    requires forall i :: InRange(i) ==> IsDigitPermutation(g[i])
    ensures Score(g) == SumExcess(Columns(g)) + SumExcess(Blocks(g))
  {
    forall i | InRange(i) ensures Excess(Rows(g)[i]) == 0 {
      PermutationIsDistinctDigits(g[i]);
      ExcessZeroIffDistinct(g[i]);
    }
    SumExcessZero(Rows(g));
  }

  /** A swap within a row leaves the rows' share of the score as it was. */
  lemma SwapKeepsRowScore(g: Board, i: int, j1: int, j2: int)
    requires IsBoard(g) && InRange(i) && InRange(j1) && InRange(j2)
    ensures SumExcess(Rows(SwapInRow(g, i, j1, j2))) == SumExcess(Rows(g))
  {
    var h := SwapInRow(g, i, j1, j2);
    SwapKeepsRowContents(g, i, j1, j2);
    ExcessOfPermutation(h[i], g[i]);
    assert Rows(h) == Rows(g)[i := h[i]];
    SumExcessUpdate(Rows(g), i, h[i]);
  }

  /** Replacing one group by one of equal excess keeps the sum. */
  lemma {:induction false} SumExcessUpdate(groups: seq<seq<int>>, k: int, s: seq<int>)
    requires 0 <= k < |groups| && Excess(s) == Excess(groups[k])
    ensures SumExcess(groups[k := s]) == SumExcess(groups)
  {
    var n := |groups| - 1;
    var updated := groups[k := s];
    if k == n {
      assert updated[..n] == groups[..n];
    } else {
      assert updated[..n] == groups[..n][k := s];
      SumExcessUpdate(groups[..n], k, s);
    }
  }

  // ---------------------------------------------------------------------
  // Tally maps

  /** Two tallies that agree on the keys of `order` have the same sum over them. */
  lemma {:induction false} ExtraSumFrame(a: map<int, int>, b: map<int, int>, order: seq<int>)
    requires forall k :: 0 <= k < |order| ==> order[k] in a && order[k] in b && a[order[k]] == b[order[k]]
    ensures ExtraSum(a, order) == ExtraSum(b, order)
  {
    if order != [] {
      var n := |order| - 1;
      assert forall k :: 0 <= k < n ==> order[..n][k] == order[k];
      ExtraSumFrame(a, b, order[..n]);
    }
  }

  /** A tally with no count above one sums to nothing. */
  lemma {:induction false} ExtraSumOfSingles(tally: map<int, int>, order: seq<int>)
    requires forall k :: 0 <= k < |order| ==> order[k] in tally && tally[order[k]] <= 1
    ensures ExtraSum(tally, order) == 0
  {
    if order != [] {
      var n := |order| - 1;
      assert forall k :: 0 <= k < n ==> order[..n][k] == order[k];
      ExtraSumOfSingles(tally, order[..n]);
    }
  }

  /** Changing the count of a key that occurs once in `order` changes the sum by the change of its `Extra`. */
  lemma {:induction false} ExtraSumChange(tally: map<int, int>, order: seq<int>, v: int, count: int)
    requires Covers(tally, order) && Distinct(order) && v in order
    ensures ExtraSum(tally[v := count], order) == ExtraSum(tally, order) - Extra(tally[v]) + Extra(count)
  {
    var n := |order| - 1;
    var prefix := order[..n];
    assert Distinct(prefix);
    assert forall k :: 0 <= k < n ==> prefix[k] == order[k];
    if order[n] == v {
      assert v !in prefix;
      ExtraSumFrame(tally[v := count], tally, prefix);
    } else {
      assert v in prefix;
      ExtraSumChange(tally, prefix, v, count);
    }
  }

  /**
   * `tmp[v]++`: counting one more `v` adds one to the sum exactly when
   * `v` had been counted before. A key not yet in the map is inserted
   * with a count of zero and joins the end of the iteration order.
   */
  lemma TallyOne(tally: map<int, int>, order: seq<int>, v: int)
    requires KeysListed(tally, order)
    ensures var c := Count(tally, v);
      var order' := if v in tally then order else order + [v];
      KeysListed(tally[v := c + 1], order') &&
      ExtraSum(tally[v := c + 1], order') == ExtraSum(tally, order) + (if c >= 1 then 1 else 0)
  {
    if v in tally {
      ExtraSumChange(tally, order, v, tally[v] + 1);
    } else {
      var order' := order + [v];
      assert order'[..|order'| - 1] == order;
      ExtraSumFrame(tally[v := 1], tally, order);
    }
  }

  // ---------------------------------------------------------------------
  // The computation

  /** `order` lists every key of `tally` exactly once. */
  ghost predicate KeysListed(tally: map<int, int>, order: seq<int>) {
    Distinct(order) && Covers(tally, order) && forall u :: u in tally ==> u in order
  }

  /**
   * `tally` counts the values `seen` in a map seeded with the digits
   * 1..9: its keys are the digits and the values seen, and each key maps
   * to the number of times it was seen.
   */
  ghost predicate CountsOf(tally: map<int, int>, seen: seq<int>) {
    (forall u :: u in tally <==> 1 <= u <= 9 || u in multiset(seen)) &&
    (forall u :: u in tally ==> tally[u] == multiset(seen)[u])
  }

  /** `tmp` is the tally of `seen`, `order` lists its keys as they were inserted. */
  ghost predicate TallyOf(tmp: map<int, int>, order: seq<int>, seen: seq<int>) {
    KeysListed(tmp, order) && CountsOf(tmp, seen) && ExtraSum(tmp, order) == Excess(seen)
  }

  /** `tmp[v]++` counts one more `v`; the old count was positive exactly when `v` had been seen. */
  lemma CountsNext(tally: map<int, int>, seen: seq<int>, v: int)
    requires CountsOf(tally, seen)
    ensures var c := Count(tally, v);
      (c >= 1 <==> v in seen) && CountsOf(tally[v := c + 1], seen + [v])
  {
    var c := Count(tally, v);
    var tally' := tally[v := c + 1];
    var seen' := seen + [v];
    assert v in seen <==> v in multiset(seen);
    assert multiset(seen') == multiset(seen) + multiset{v};
  }

  /** `tmp[v]++` keeps the tally up to date with one more value seen. */
  lemma TallyNext(tmp: map<int, int>, order: seq<int>, seen: seq<int>, v: int)
    requires TallyOf(tmp, order, seen)
    ensures TallyOf(Increment(tmp, v), InsertionOrder(tmp, order, v), seen + [v])
  {
    CountsNext(tmp, seen, v);
    TallyOne(tmp, order, v);
    var seen' := seen + [v];
    assert seen'[..|seen'| - 1] == seen;
  }

  /** The map seeded with a zero count for each digit is the tally of no values. */
  lemma TallyStart()
    ensures TallyOf(SeededTally(), SeededOrder(), [])
  {
    var tmp := SeededTally();
    var order := SeededOrder();
    ExtraSumOfSingles(tmp, order);
    assert KeysListed(tmp, order);
    assert CountsOf(tmp, []);
  }

  /** The map after `tmp[v]++` for each `v` of `seen`, in order. */
  function TallyMap(seen: seq<int>): map<int, int> {
    if seen == [] then SeededTally()
    else Increment(TallyMap(seen[..|seen| - 1]), seen[|seen| - 1])
  }

  /** The order in which that map was given its keys. */
  function TallyOrder(seen: seq<int>): seq<int> {
    if seen == [] then SeededOrder()
    else
      var n := |seen| - 1;
      InsertionOrder(TallyMap(seen[..n]), TallyOrder(seen[..n]), seen[n])
  }

  /** Counting the values of a group one by one yields their tally. */
  lemma {:induction false} TallyMapCounts(seen: seq<int>)
    ensures TallyOf(TallyMap(seen), TallyOrder(seen), seen)
  {
    if seen == [] {
      TallyStart();
    } else {
      var n := |seen| - 1;
      TallyMapCounts(seen[..n]);
      TallyNext(TallyMap(seen[..n]), TallyOrder(seen[..n]), seen[..n], seen[n]);
      assert seen == seen[..n] + [seen[n]];
    }
  }

  /**
   * The counting loop of one group: `tmp[v]++` for each element `v`, in
   * a map seeded with a zero count for each digit 1..9. `order` lists
   * the keys in the order the map was given them.
   */
  method Tally(group: seq<int>) returns (tmp: map<int, int>, order: seq<int>)
    ensures tmp == TallyMap(group) && order == TallyOrder(group)
    ensures TallyOf(tmp, order, group)
  {
    tmp := SeededTally();
    order := SeededOrder();
    for k := 0 to |group|
      invariant tmp == TallyMap(group[..k]) && order == TallyOrder(group[..k])
    {
      var v := group[k];
      assert group[..k + 1][..k] == group[..k];
      // `operator[]` inserts a missing key with a count of zero before the increment
      tmp, order := Increment(tmp, v), InsertionOrder(tmp, order, v);
    }
    assert group[..|group|] == group;
    TallyMapCounts(group);
  }

  /** The summing loop of one group: `count - 1` for every entry counted more than once. */
  method SumExtra(tmp: map<int, int>, order: seq<int>) returns (extra: int)
    requires Covers(tmp, order)
    ensures extra == ExtraSum(tmp, order)
  {
    extra := 0;
    for k := 0 to |order|
      invariant extra == ExtraSum(tmp, order[..k])
    {
      var p := order[k];
      assert order[..k + 1][..k] == order[..k];
      if tmp[p] > 1 {
        extra := extra + (tmp[p] - 1);
      }
    }
    assert order[..|order|] == order;
  }

  /** One group of `calculateObjectiveFunction`: tally, then sum the duplicates. */
  method DuplicateCount(group: seq<int>) returns (extra: int)
    ensures extra == Excess(group)
  {
    var tmp, order := Tally(group);
    extra := SumExtra(tmp, order);
  }

  function RowAt(a: array2<int>, i: int): (row: seq<int>)
    requires a.Length0 == Size && a.Length1 == Size && InRange(i)
    reads a
  {
    seq(Size, j requires 0 <= j < Size reads a => a[i, j])
  }

  function ColumnAt(a: array2<int>, j: int): (column: seq<int>)
    requires a.Length0 == Size && a.Length1 == Size && InRange(j)
    reads a
  {
    seq(Size, i requires 0 <= i < Size reads a => a[i, j])
  }

  /** The cells of a block read straight from the array, starting from the `switch`ed row. */
  function BlockAt(a: array2<int>, block: int): (cells: seq<int>)
    requires a.Length0 == Size && a.Length1 == Size && InRange(block)
    reads a
  {
    var startingRow := StartingRow(block);
    StartingRowIsBlockRow(block);
    seq(Size, k requires 0 <= k < Size reads a => a[startingRow + k / 3, (block % 3) * 3 + k % 3])
  }

  /** `calculateObjectiveFunction`: the duplicates of rows, columns and blocks, summed. */
  method CalculateObjectiveFunction(w: PossibleSolution) returns (score: int)
    requires w.Valid()
    ensures score == Score(w.Cells())
  {
    ghost var g := w.Cells();
    score := 0;
    for i := 0 to Size
      invariant score == SumExcess(Rows(g)[..i])
    {
      assert RowAt(w.playArea, i) == Rows(g)[i];
      var e := DuplicateCount(RowAt(w.playArea, i));
      assert Rows(g)[..i + 1][..i] == Rows(g)[..i];
      score := score + e;
    }
    assert Rows(g)[..Size] == Rows(g);
    ghost var rows := score;
    for j := 0 to Size
      invariant score == rows + SumExcess(Columns(g)[..j])
    {
      assert ColumnAt(w.playArea, j) == Columns(g)[j];
      var e := DuplicateCount(ColumnAt(w.playArea, j));
      assert Columns(g)[..j + 1][..j] == Columns(g)[..j];
      score := score + e;
    }
    assert Columns(g)[..Size] == Columns(g);
    ghost var rowsAndColumns := score;
    for block := 0 to Size
      invariant score == rowsAndColumns + SumExcess(Blocks(g)[..block])
    {
      forall k | 0 <= k < Size ensures BlockAt(w.playArea, block)[k] == Blocks(g)[block][k] {
        StartingRowIsBlockRow(block);
      }
      assert BlockAt(w.playArea, block) == Blocks(g)[block];
      var e := DuplicateCount(BlockAt(w.playArea, block));
      assert Blocks(g)[..block + 1][..block] == Blocks(g)[..block];
      score := score + e;
    }
    assert Blocks(g)[..Size] == Blocks(g);
  }
}
