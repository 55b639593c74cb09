/** Day 8: tree heights on a grid, counted from the edges and scored by how far
    one can see from each tree. */
module Day8 {

  /** Every row as long as the first; the input's lines all have one length. */
  predicate Rectangular(grid: seq<seq<int>>) {
    forall i :: 0 <= i < |grid| ==> |grid[i]| == |grid[0]|
  }

  function Reverse(xs: seq<int>): (r: seq<int>)
    ensures |r| == |xs|
    ensures forall k :: 0 <= k < |xs| ==> r[k] == xs[|xs| - 1 - k]
  {
    if xs == [] then [] else Reverse(xs[1..]) + [xs[0]]
  }

  /** Column `j` of the grid, top to bottom. */
  function Column(grid: seq<seq<int>>, j: nat): (c: seq<int>)
    requires Rectangular(grid) && (|grid| > 0 ==> j < |grid[0]|)
  {
    seq(|grid|, k requires 0 <= k < |grid| => grid[k][j])
  }

  /** How many trees a tree of height `h` sees along `xs`: every tree up to and
      including the first one at least as tall, or all of them if none is. */
  function ViewingDistance(xs: seq<int>, h: int): (r: nat)
    ensures r <= |xs|
    ensures r == 0 <==> xs == []
    ensures forall k :: 0 <= k < r - 1 ==> xs[k] < h
    ensures r < |xs| ==> xs[r - 1] >= h
  {
    if xs == [] then 0 else if xs[0] >= h then 1 else 1 + ViewingDistance(xs[1..], h)
  }

  /** The source's `countVisible`: counts trees until it meets one that blocks the view. */
  method CountVisible(toCheck: seq<int>, from: int) returns (count: nat)
    ensures count == ViewingDistance(toCheck, from)
  {
    count := 0;
    var i := 0;
    while i < |toCheck|
      invariant 0 <= i <= |toCheck| && count == i
      invariant forall k :: 0 <= k < i ==> toCheck[k] < from
    {
      count := count + 1;
      if toCheck[i] >= from {
        break;
      }
      i := i + 1;
    }
  }

  predicate AllShorter(xs: seq<int>, h: int) {
    forall k :: 0 <= k < |xs| ==> xs[k] < h
  }

  /** The tree at (i, j) is strictly taller than every tree between it and at
      least one edge of the grid. */
  predicate VisibleFromEdge(grid: seq<seq<int>>, i: nat, j: nat)
    requires Rectangular(grid) && i < |grid| && j < |grid[0]|
  {
    var t := grid[i][j];
    var col := Column(grid, j);
    AllShorter(grid[i][..j], t) || AllShorter(grid[i][j + 1..], t) ||
    AllShorter(col[..i], t) || AllShorter(col[i + 1..], t)
  }

  /** Number of visible trees in row `i` among the interior columns 1 .. n-1. */
  function VisibleInRow(grid: seq<seq<int>>, i: nat, n: int): nat
    requires Rectangular(grid) && i < |grid| && (n <= 1 || n <= |grid[0]|)
    decreases n
  {
    if n <= 1 then 0
    else VisibleInRow(grid, i, n - 1) + (if VisibleFromEdge(grid, i, n - 1) then 1 else 0)
  }

  /** Number of visible interior trees in the rows 1 .. m-1. */
  function VisibleInRows(grid: seq<seq<int>>, m: int): nat
    requires Rectangular(grid) && |grid| > 0 && (m <= 1 || m <= |grid|)
    decreases m
  {
    if m <= 1 then 0
    else VisibleInRows(grid, m - 1) + VisibleInRow(grid, m - 1, |grid[0]| - 1)
  }

  /** The source's perimeter term: all trees on the border of a grid with at
      least two rows and two columns. */
  function PerimeterSize(rows: int, cols: int): int {
    (rows + cols - 2) * 2
  }

  /** Part 1: the perimeter count plus every interior tree visible from an edge. */
  method Part1Solution(grid: seq<seq<int>>) returns (visible: int)
    requires |grid| > 0 && Rectangular(grid)
    ensures visible == PerimeterSize(|grid|, |grid[0]|) + VisibleInRows(grid, |grid| - 1)
  {
    visible := PerimeterSize(|grid|, |grid[0]|);
    var i := 1;
    while i < |grid| - 1
      invariant 1 <= i <= |grid| && (|grid| >= 2 ==> i <= |grid| - 1)
      invariant visible == PerimeterSize(|grid|, |grid[0]|) + VisibleInRows(grid, i)
    {
      var count := VisibleInRowCount(grid, i);
      visible := visible + count;
      i := i + 1;
    }
  }

  lemma {:induction false} VisibleInRowBound(grid: seq<seq<int>>, i: nat, n: int)
    requires Rectangular(grid) && i < |grid| && n < |grid[0]|
    ensures VisibleInRow(grid, i, n) <= if n <= 1 then 0 else n - 1
    decreases n
  {
    if n > 1 {
      VisibleInRowBound(grid, i, n - 1);
    }
  }

  lemma {:induction false} VisibleInRowsBound(grid: seq<seq<int>>, m: int)
    requires Rectangular(grid) && |grid| > 0 && |grid[0]| >= 2 && m < |grid|
    ensures VisibleInRows(grid, m) <= if m <= 1 then 0 else (m - 1) * (|grid[0]| - 2)
    decreases m
  {
    if m > 1 {
      VisibleInRowsBound(grid, m - 1);
      VisibleInRowBound(grid, m - 1, |grid[0]| - 1);
      if m - 1 > 1 {
        assert (m - 1) * (|grid[0]| - 2) == (m - 2) * (|grid[0]| - 2) + (|grid[0]| - 2);
      }
    }
  }

  /** On a grid of at least two rows and two columns, part 1 counts at least the
      whole border and never more trees than the grid holds. */
  lemma Part1Bounds(grid: seq<seq<int>>)
    requires Rectangular(grid) && |grid| >= 2 && |grid[0]| >= 2
    ensures var count := PerimeterSize(|grid|, |grid[0]|) + VisibleInRows(grid, |grid| - 1);
      PerimeterSize(|grid|, |grid[0]|) <= count <= |grid| * |grid[0]|
  {
    var r, c := |grid|, |grid[0]|;
    VisibleInRowsBound(grid, r - 1);
    assert PerimeterSize(r, c) + (r - 2) * (c - 2) == r * c;
  }

  /** The scenic score of the tree at (i, j): the product of its viewing
      distances to the left, right, up and down. */
  function ScenicScore(grid: seq<seq<int>>, i: nat, j: nat): nat
    requires Rectangular(grid) && i < |grid| && j < |grid[0]|
  {
    var tree := grid[i][j];
    var column := Column(grid, j);
    Times(Times(Times(ViewingDistance(Reverse(grid[i][..j]), tree), ViewingDistance(grid[i][j + 1..], tree)),
                ViewingDistance(Reverse(column[..i]), tree)), ViewingDistance(column[i + 1..], tree))
  }

  function Times(a: nat, b: nat): (r: nat)
    ensures a == 0 || b == 0 ==> r == 0
  {
    a * b
  }

  /** A tree on the border sees nothing in one direction, so it scores 0. */
  lemma BorderScoresZero(grid: seq<seq<int>>, i: nat, j: nat)
    requires Rectangular(grid) && i < |grid| && j < |grid[0]|
    requires i == 0 || j == 0 || i == |grid| - 1 || j == |grid[0]| - 1
    ensures ScenicScore(grid, i, j) == 0
  {
    var tree := grid[i][j];
    var column := Column(grid, j);
    var l := ViewingDistance(Reverse(grid[i][..j]), tree);
    var r := ViewingDistance(grid[i][j + 1..], tree);
    var a := ViewingDistance(Reverse(column[..i]), tree);
    var b := ViewingDistance(column[i + 1..], tree);
    assert l == 0 || r == 0 || a == 0 || b == 0;
    assert ScenicScore(grid, i, j) == Times(Times(Times(l, r), a), b);
  }

  /** The four `countVisible` calls the source makes for one tree, multiplied. */
  method ScoreAt(grid: seq<seq<int>>, i: nat, j: nat) returns (score: nat)
    requires Rectangular(grid) && i < |grid| && j < |grid[0]|
    ensures score == ScenicScore(grid, i, j)
  {
    var tree := grid[i][j];
    var column := Column(grid, j);
    var leftDistance := CountVisible(Reverse(grid[i][..j]), tree);
    var rightDistance := CountVisible(grid[i][j + 1..], tree);
    var aboveDistance := CountVisible(Reverse(column[..i]), tree);
    var belowDistance := CountVisible(column[i + 1..], tree);
    score := Times(Times(Times(leftDistance, rightDistance), aboveDistance), belowDistance);
  }

  /** The inner loop of `part1Solution`: the visible interior trees of row i. */
  method VisibleInRowCount(grid: seq<seq<int>>, i: nat) returns (count: nat)
    requires |grid| > 0 && Rectangular(grid) && i < |grid|
    ensures count == VisibleInRow(grid, i, |grid[0]| - 1)
  {
    count := 0;
    var j := 1;
    while j < |grid[i]| - 1
      invariant 1 <= j && (|grid[0]| >= 2 ==> j <= |grid[0]| - 1) && (|grid[0]| < 2 ==> j == 1)
      invariant count == VisibleInRow(grid, i, j)
    {
      var tree := grid[i][j];
      var tallestLeft := AllShorter(grid[i][..j], tree);
      var tallestRight := AllShorter(grid[i][j + 1..], tree);
      var column := Column(grid, j);
      var tallestAbove := AllShorter(column[..i], tree);
      var tallestBelow := AllShorter(column[i + 1..], tree);
      if tallestLeft || tallestRight || tallestAbove || tallestBelow {
        count := count + 1;
      }
      j := j + 1;
    }
  }

  /** The source's `scenicScore` table: one score per tree, row by row. */
  method FillScores(grid: seq<seq<int>>) returns (scenicScore: array2<nat>)
    requires |grid| > 0 && Rectangular(grid)
    ensures fresh(scenicScore)
    ensures scenicScore.Length0 == |grid| && scenicScore.Length1 == |grid[0]|
    ensures forall i, j :: 0 <= i < |grid| && 0 <= j < |grid[0]| ==> scenicScore[i, j] == ScenicScore(grid, i, j)
  {
    var rows, cols := |grid|, |grid[0]|;
    scenicScore := new nat[rows, cols];
    for i := 0 to rows
      invariant forall i', j' :: 0 <= i' < i && 0 <= j' < cols ==> scenicScore[i', j'] == ScenicScore(grid, i', j')
    {
      FillRow(grid, scenicScore, i);
    }
  }

  /** The inner loop of `part2Solution`: the scores of row i. */
  method FillRow(grid: seq<seq<int>>, scenicScore: array2<nat>, i: nat)
    requires |grid| > 0 && Rectangular(grid) && i < |grid|
    requires scenicScore.Length0 == |grid| && scenicScore.Length1 == |grid[0]|
    modifies scenicScore
    ensures forall j :: 0 <= j < |grid[0]| ==> scenicScore[i, j] == ScenicScore(grid, i, j)
    ensures forall i', j :: 0 <= i' < |grid| && i' != i && 0 <= j < |grid[0]| ==> scenicScore[i', j] == old(scenicScore[i', j])
  {
    for j := 0 to |grid[0]|
      invariant forall j' :: 0 <= j' < j ==> scenicScore[i, j'] == ScenicScore(grid, i, j')
      invariant forall i', j' :: 0 <= i' < |grid| && i' != i && 0 <= j' < |grid[0]| ==> scenicScore[i', j'] == old(scenicScore[i', j'])
    {
      scenicScore[i, j] := ScoreAt(grid, i, j);
    }
  }

  /** `Math.max` over every entry of a non-empty table. */
  method MaxEntry(table: array2<nat>) returns (best: nat)
    requires table.Length0 > 0 && table.Length1 > 0
    ensures exists i, j :: 0 <= i < table.Length0 && 0 <= j < table.Length1 && best == table[i, j]
    ensures forall i, j :: 0 <= i < table.Length0 && 0 <= j < table.Length1 ==> table[i, j] <= best
  {
    best := table[0, 0];
    ghost var bi, bj := 0, 0;
    for i := 0 to table.Length0
      invariant 0 <= bi < table.Length0 && 0 <= bj < table.Length1 && best == table[bi, bj]
      invariant forall i', j' :: 0 <= i' < i && 0 <= j' < table.Length1 ==> table[i', j'] <= best
    {
      for j := 0 to table.Length1
        invariant 0 <= bi < table.Length0 && 0 <= bj < table.Length1 && best == table[bi, bj]
        invariant forall i', j' :: 0 <= i' < i && 0 <= j' < table.Length1 ==> table[i', j'] <= best
        invariant forall j' :: 0 <= j' < j ==> table[i, j'] <= best
      {
        if table[i, j] > best {
          best := table[i, j];
          bi, bj := i, j;
        }
      }
    }
  }

  /** Part 2: the largest scenic score of any tree. */
  method Part2Solution(grid: seq<seq<int>>) returns (best: nat)
    requires |grid| > 0 && |grid[0]| > 0 && Rectangular(grid)
    ensures exists i, j :: 0 <= i < |grid| && 0 <= j < |grid[0]| && best == ScenicScore(grid, i, j)
    ensures forall i, j :: 0 <= i < |grid| && 0 <= j < |grid[0]| ==> ScenicScore(grid, i, j) <= best
  {
    var scenicScore := FillScores(grid);
    best := MaxEntry(scenicScore);
  }
}
