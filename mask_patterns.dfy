/**
 * Data masking and mask selection (src/mask-patterns.ts).
 *
 * A module matrix is square: the source holds it as an array of rows, the
 * model as an `array2<bool>` whose cell (row, col) is `true` for a dark
 * module. The specification side reads the matrix as a `Grid`, a sequence of
 * rows, and every method below is proved to compute a function of that grid:
 * `ApplyMask` returns a fresh matrix holding `Masked(...)`, each penalty rule
 * returns the value of its counting definition, and `FindBestMask` returns
 * the first of the eight masks whose masked grid costs least.
 */
module MaskPatterns {
  import opened Types
  import opened Constants

  /** A matrix read row by row; `true` is a dark module. */
  type Grid = seq<seq<bool>>

  ghost predicate IsSquare(g: Grid, n: nat) {
    |g| == n && forall i | 0 <= i < n :: |g[i]| == n
  }

  /** Row r of a matrix, as the source's `matrix[r]`. */
  function RowOf(m: array2<bool>, r: nat): (line: seq<bool>)
    requires r < m.Length0
    reads m
    ensures |line| == m.Length1 && forall j | 0 <= j < m.Length1 :: line[j] == m[r, j]
  {
    seq(m.Length1, j requires 0 <= j < m.Length1 reads m => m[r, j])
  }

  /** The grid a matrix holds. */
  function Cells(m: array2<bool>): (g: Grid)
    reads m
    ensures |g| == m.Length0 && forall i | 0 <= i < m.Length0 :: g[i] == RowOf(m, i)
    ensures m.Length0 == m.Length1 ==> IsSquare(g, m.Length0)
  {
    seq(m.Length0, i requires 0 <= i < m.Length0 reads m => RowOf(m, i))
  }

  /** Column c of a matrix. */
  function ColumnOf(m: array2<bool>, c: nat): (line: seq<bool>)
    requires c < m.Length1
    reads m
    ensures |line| == m.Length0 && forall i | 0 <= i < m.Length0 :: line[i] == m[i, c]
  {
    seq(m.Length0, i requires 0 <= i < m.Length0 reads m => m[i, c])
  }

  lemma CellsSquare(m: array2<bool>)
    requires m.Length0 == m.Length1
    ensures IsSquare(Cells(m), m.Length0)
    ensures forall i, j | 0 <= i < m.Length0 && 0 <= j < m.Length0 :: Cells(m)[i][j] == m[i, j]
  {
  }

  /** Column c of a square grid. */
  function Column(g: Grid, n: nat, c: nat): (line: seq<bool>)
    requires IsSquare(g, n) && c < n
    ensures |line| == n && forall i | 0 <= i < n :: line[i] == g[i][c]
  {
    seq(n, i requires 0 <= i < n => g[i][c])
  }

  lemma ColumnOfCells(m: array2<bool>, c: nat)
    requires m.Length0 == m.Length1 && c < m.Length0
    ensures Column(Cells(m), m.Length0, c) == ColumnOf(m, c)
  {
    CellsSquare(m);
  }

  // ---------------------------------------------------------------------------
  // Reserved area and masking
  // ---------------------------------------------------------------------------

  /**
   * The cells masking leaves alone: the three finder corners with their
   * separators, row and column 6 (timing), and the format-information strips.
   */
  predicate IsReservedArea(row: int, col: int, size: int) {
    if (row < 9 && col < 9) || (row < 9 && col >= size - 8) || (row >= size - 8 && col < 9) then true
    else if row == 6 || col == 6 then true
    else if (row == 8 && (col < 9 || col >= size - 8)) || (col == 8 && (row < 9 || row >= size - 7)) then true
    else false
  }

  /**
   * The format-information strips add nothing to the reserved area: every
   * such cell is already inside one of the three corner boxes: 9 x 9 at the
   * top left, 9 rows by 8 columns at the top right, 8 rows by 9 columns at
   * the bottom left. The reserved area is therefore the corners plus row and
   * column 6, and it is symmetric under transposition.
   */
  lemma ReservedAreaShape(row: int, col: int, size: int)
    ensures IsReservedArea(row, col, size) <==>
      (row < 9 && col < 9) || (row < 9 && col >= size - 8) || (row >= size - 8 && col < 9) || row == 6 || col == 6
    ensures IsReservedArea(row, col, size) == IsReservedArea(col, row, size)
  {
  }

  /** Whether masking with pattern p inverts cell (row, col) of a size x size matrix. */
  predicate Flips(p: nat, row: nat, col: nat, size: nat)
    requires p < 8
  {
    !IsReservedArea(row, col, size) && MASK_PATTERNS[p](row, col)
  }

  /** The grid masked with pattern p. */
  function Masked(g: Grid, n: nat, p: nat): (h: Grid)
    requires IsSquare(g, n) && p < 8
    ensures IsSquare(h, n)
  {
    seq(n, i requires 0 <= i < n => seq(n, j requires 0 <= j < n => if Flips(p, i, j, n) then !g[i][j] else g[i][j]))
  }

  /** Masked cells differ from the original exactly where the pattern applies. */
  lemma MaskedChanges(g: Grid, n: nat, p: nat, i: nat, j: nat)
    requires IsSquare(g, n) && p < 8 && i < n && j < n
    ensures Masked(g, n, p)[i][j] != g[i][j] <==> Flips(p, i, j, n)
    ensures IsReservedArea(i, j, n) ==> Masked(g, n, p)[i][j] == g[i][j]
  {
  }

  /** Masking is an involution: applying the same pattern twice restores the grid. */
  lemma MaskedTwice(g: Grid, n: nat, p: nat)
    requires IsSquare(g, n) && p < 8
    ensures Masked(Masked(g, n, p), n, p) == g
  {
    var h := Masked(Masked(g, n, p), n, p);
    forall i | 0 <= i < n
      ensures h[i] == g[i]
    {
    }
  }

  /**
   * applyMask: a fresh copy of the matrix with the pattern's cells outside the
   * reserved area inverted; a pattern number outside 0..7 throws.
   */
  method ApplyMask(matrix: array2<bool>, pattern: int) returns (r: Result<array2<bool>>)
    requires matrix.Length0 == matrix.Length1
    ensures r.Err? <==> !(0 <= pattern < 8)
    ensures r.Err? ==> r.error == InvalidMaskPattern(pattern)
    ensures r.Ok? ==> fresh(r.value) && r.value.Length0 == r.value.Length1 == matrix.Length0
    ensures r.Ok? ==> Cells(r.value) == Masked(Cells(matrix), matrix.Length0, pattern)
  {
    var size := matrix.Length0;
    var masked := new bool[size, size]((i, j) requires 0 <= i < size && 0 <= j < size reads matrix => matrix[i, j]);
    if !(0 <= pattern < 8) {
      return Err(InvalidMaskPattern(pattern));
    }
    for row := 0 to size
      invariant forall i, j | 0 <= i < size && 0 <= j < size ::
        masked[i, j] == if i < row && Flips(pattern, i, j, size) then !matrix[i, j] else matrix[i, j]
    {
      for col := 0 to size
        invariant forall i, j | 0 <= i < size && 0 <= j < size ::
          masked[i, j] == if (i < row || (i == row && j < col)) && Flips(pattern, i, j, size) then !matrix[i, j] else matrix[i, j]
      {
        if !IsReservedArea(row, col, size) {
          if MASK_PATTERNS[pattern](row, col) {
            masked[row, col] := !masked[row, col];
          }
        }
      }
    }
    CellsSquare(matrix);
    CellsSquare(masked);
    ghost var want := Masked(Cells(matrix), size, pattern);
    forall i | 0 <= i < size
      ensures Cells(masked)[i] == want[i]
    {
    }
    return Ok(masked);
  }

  // ---------------------------------------------------------------------------
  // Rule 1: runs of five or more modules of one colour
  // ---------------------------------------------------------------------------

  /**
   * The lengths of the maximal one-colour runs of a non-empty line, from left
   * to right: each module either lengthens the last run or starts a new one.
   */
  function Runs(s: seq<bool>): (r: seq<nat>)
    requires |s| >= 1
    ensures |r| >= 1
  {
    if |s| == 1 then [1]
    else
      var r := Runs(s[..|s| - 1]);
      if s[|s| - 1] == s[|s| - 2] then r[..|r| - 1] + [r[|r| - 1] + 1] else r + [1]
  }

  function Total(r: seq<nat>): nat {
    if |r| == 0 then 0 else Total(r[..|r| - 1]) + r[|r| - 1]
  }

  /** The runs partition the line: their lengths add up to its length. */
  lemma {:induction false} RunsCoverLine(s: seq<bool>)
    requires |s| >= 1
    ensures Total(Runs(s)) == |s|
    ensures forall k | 0 <= k < |Runs(s)| :: Runs(s)[k] >= 1
  {
    if |s| > 1 {
      var s' := s[..|s| - 1];
      RunsCoverLine(s');
      var r := Runs(s');
      if s[|s| - 1] == s[|s| - 2] {
        TotalBumpLast(r);
      } else {
        TotalAppend(r, 1);
      }
    }
  }

  /** Appending a run adds its length to the total. */
  lemma TotalAppend(r: seq<nat>, x: nat)
    ensures Total(r + [x]) == Total(r) + x
  {
    assert (r + [x])[..|r|] == r;
  }

  /** Lengthening the last run by one adds one to the total. */
  lemma TotalBumpLast(r: seq<nat>)
    requires |r| >= 1
    ensures Total(r[..|r| - 1] + [r[|r| - 1] + 1]) == Total(r) + 1
  {
    var init, last := r[..|r| - 1], r[|r| - 1];
    assert Total(r) == Total(init) + last;
    TotalAppend(init, last + 1);
  }

  /** A line of n >= 1 modules of one colour is a single run. */
  lemma {:induction false} UniformLineRuns(s: seq<bool>)
    requires |s| >= 1 && forall k | 0 <= k < |s| :: s[k] == s[0]
    ensures Runs(s) == [|s|]
  {
    if |s| > 1 {
      UniformLineRuns(s[..|s| - 1]);
      SameColourExtends(s, |s| - 1);
    }
  }

  /** A module of the colour before it lengthens a single run by one. */
  lemma SameColourExtends(s: seq<bool>, k: nat)
    requires |s| > 1 && s[|s| - 1] == s[|s| - 2] && Runs(s[..|s| - 1]) == [k]
    ensures Runs(s) == [k + 1]
  {
  }

  /** The cost of one run: 3 for five modules and 1 more for each further module. */
  function RunPenalty(k: nat): nat {
    if k >= 5 then 3 + (k - 5) else 0
  }

  function RunsPenalty(r: seq<nat>): nat {
    if |r| == 0 then 0 else RunsPenalty(r[..|r| - 1]) + RunPenalty(r[|r| - 1])
  }

  /** The rule-1 cost of one row or column. */
  function LinePenalty(s: seq<bool>): nat {
    if |s| == 0 then 0 else RunsPenalty(Runs(s))
  }

  /** A uniform line of k >= 5 modules costs 3 + (k - 5). */
  lemma UniformLinePenalty(s: seq<bool>)
    requires |s| >= 5 && forall k | 0 <= k < |s| :: s[k] == s[0]
    ensures LinePenalty(s) == |s| - 2
  {
    UniformLineRuns(s);
    assert [|s|][..0] == [];
    assert RunsPenalty([|s|]) == RunsPenalty([]) + RunPenalty(|s|);
  }

  lemma {:induction false} ShortRunsFree(r: seq<nat>)
    requires forall k | 0 <= k < |r| :: r[k] < 5
    ensures RunsPenalty(r) == 0
  {
    if |r| > 0 {
      ShortRunsFree(r[..|r| - 1]);
    }
  }

  lemma {:induction false} RunsAtMostTotal(r: seq<nat>)
    ensures forall k | 0 <= k < |r| :: r[k] <= Total(r)
  {
    if |r| > 0 {
      RunsAtMostTotal(r[..|r| - 1]);
    }
  }

  /** A line shorter than five modules never costs anything. */
  lemma ShortLineFree(s: seq<bool>)
    requires |s| < 5
    ensures LinePenalty(s) == 0
  {
    if |s| > 0 {
      RunsCoverLine(s);
      RunsAtMostTotal(Runs(s));
      ShortRunsFree(Runs(s));
    }
  }

  function RowsRunPenalty(g: Grid, n: nat, k: nat): nat
    requires IsSquare(g, n) && k <= n
  {
    if k == 0 then 0 else RowsRunPenalty(g, n, k - 1) + LinePenalty(g[k - 1])
  }

  function ColumnsRunPenalty(g: Grid, n: nat, k: nat): nat
    requires IsSquare(g, n) && k <= n
  {
    if k == 0 then 0 else ColumnsRunPenalty(g, n, k - 1) + LinePenalty(Column(g, n, k - 1))
  }

  /** Rule 1 over the whole grid: the run costs of every row and every column. */
  function Rule1(g: Grid, n: nat): nat
    requires IsSquare(g, n)
  {
    RowsRunPenalty(g, n, n) + ColumnsRunPenalty(g, n, n)
  }

  /** The length of the run the scan of a line is in after `col` modules. */
  function RunCount(line: seq<bool>, col: nat): nat
    requires 1 <= col <= |line|
  {
    var r := Runs(line[..col]);
    r[|r| - 1]
  }

  /** The cost of the runs the scan of a line has closed after `col` modules. */
  function ClosedCost(line: seq<bool>, col: nat): nat
    requires 1 <= col <= |line|
  {
    var r := Runs(line[..col]);
    RunsPenalty(r[..|r| - 1])
  }

  /** The scan of a line starts inside a run of length one, with nothing closed. */
  lemma RunStart(line: seq<bool>)
    requires |line| >= 1
    ensures RunCount(line, 1) == 1 && ClosedCost(line, 1) == 0
  {
    assert Runs(line[..1]) == [1];
  }

  /** One module of the scan: it lengthens the current run or closes it and opens another. */
  lemma RunStep(line: seq<bool>, col: nat)
    requires 1 <= col < |line|
    ensures line[col] == line[col - 1] ==>
      RunCount(line, col + 1) == RunCount(line, col) + 1 && ClosedCost(line, col + 1) == ClosedCost(line, col)
    ensures line[col] != line[col - 1] ==>
      RunCount(line, col + 1) == 1 && ClosedCost(line, col + 1) == ClosedCost(line, col) + RunPenalty(RunCount(line, col))
  {
    assert line[..col + 1][..col] == line[..col];
    var before := Runs(line[..col]);
    if line[col] == line[col - 1] {
      assert (before[..|before| - 1] + [before[|before| - 1] + 1])[..|before| - 1] == before[..|before| - 1];
    } else {
      assert (before + [1])[..|before|] == before;
    }
  }

  /** At the end of the line, closing the last run gives the line's cost. */
  lemma RunEnd(line: seq<bool>)
    requires |line| >= 1
    ensures LinePenalty(line) == ClosedCost(line, |line|) + RunPenalty(RunCount(line, |line|))
  {
    assert line[..|line|] == line;
  }

  /**
   * The scan evaluateRule1 makes along one line: a running count of equal
   * modules, each run of five or more charged when it closes.
   */
  method LineRunsPenalty(matrix: array2<bool>, index: nat, across: bool) returns (cost: nat)
    requires matrix.Length0 == matrix.Length1 && index < matrix.Length0
    ensures across ==> cost == LinePenalty(RowOf(matrix, index))
    ensures !across ==> cost == LinePenalty(ColumnOf(matrix, index))
  {
    var size := matrix.Length0;
    ghost var line := if across then RowOf(matrix, index) else ColumnOf(matrix, index);
    cost := 0;
    var count := 1;
    var prevColor := if across then matrix[index, 0] else matrix[0, index];
    RunStart(line);
    for k := 1 to size
      invariant count == RunCount(line, k)
      invariant prevColor == line[k - 1]
      invariant cost == ClosedCost(line, k)
    {
      RunStep(line, k);
      var color := if across then matrix[index, k] else matrix[k, index];
      if color == prevColor {
        count := count + 1;
      } else {
        if count >= 5 {
          cost := cost + 3 + (count - 5);
        }
        count := 1;
        prevColor := color;
      }
    }
    if count >= 5 {
      cost := cost + 3 + (count - 5);
    }
    RunEnd(line);
  }

  /** The row half of evaluateRule1: every row scanned with a running count of equal modules. */
  method RowRunsPenalty(matrix: array2<bool>) returns (penalty: nat)
    requires matrix.Length0 == matrix.Length1
    ensures penalty == RowsRunPenalty(Cells(matrix), matrix.Length0, matrix.Length0)
  {
    var size := matrix.Length0;
    ghost var g := Cells(matrix);
    CellsSquare(matrix);
    penalty := 0;
    for row := 0 to size
      invariant penalty == RowsRunPenalty(g, size, row)
    {
      var cost := LineRunsPenalty(matrix, row, true);
      penalty := penalty + cost;
    }
  }

  /** The column half of evaluateRule1, the same scan down every column. */
  method ColumnRunsPenalty(matrix: array2<bool>) returns (penalty: nat)
    requires matrix.Length0 == matrix.Length1
    ensures penalty == ColumnsRunPenalty(Cells(matrix), matrix.Length0, matrix.Length0)
  {
    var size := matrix.Length0;
    ghost var g := Cells(matrix);
    CellsSquare(matrix);
    penalty := 0;
    for col := 0 to size
      invariant penalty == ColumnsRunPenalty(g, size, col)
    {
      var cost := LineRunsPenalty(matrix, col, false);
      ColumnOfCells(matrix, col);
      penalty := penalty + cost;
    }
  }

  method EvaluateRule1(matrix: array2<bool>) returns (penalty: nat)
    requires matrix.Length0 == matrix.Length1
    ensures penalty == Rule1(Cells(matrix), matrix.Length0)
  {
    var rows := RowRunsPenalty(matrix);
    var columns := ColumnRunsPenalty(matrix);
    penalty := rows + columns;
  }

  // ---------------------------------------------------------------------------
  // Rule 2: 2 x 2 blocks of one colour
  // ---------------------------------------------------------------------------

  /** The 2 x 2 block whose top-left module is (r, c) has a single colour. */
  predicate UniformBlock(g: Grid, n: nat, r: nat, c: nat)
    requires IsSquare(g, n) && r + 1 < n && c + 1 < n
  {
    g[r][c + 1] == g[r][c] && g[r + 1][c] == g[r][c] && g[r + 1][c + 1] == g[r][c]
  }

  /** How many of the blocks with top-left corner in row r, columns 0..k-1, are uniform. */
  function BlocksInRow(g: Grid, n: nat, r: nat, k: nat): nat
    requires IsSquare(g, n) && r + 1 < n && k < n
  {
    if k == 0 then 0 else BlocksInRow(g, n, r, k - 1) + (if UniformBlock(g, n, r, k - 1) then 1 else 0)
  }

  /** How many uniform blocks have their top-left corner in rows 0..k-1. */
  function BlocksAbove(g: Grid, n: nat, k: nat): nat
    requires IsSquare(g, n) && (k == 0 || k < n)
  {
    if k == 0 then 0 else BlocksAbove(g, n, k - 1) + BlocksInRow(g, n, k - 1, n - 1)
  }

  /** Rule 2 over the whole grid: 3 for every uniform 2 x 2 block. */
  function Rule2(g: Grid, n: nat): nat
    requires IsSquare(g, n)
  {
    if n == 0 then 0 else 3 * BlocksAbove(g, n, n - 1)
  }

  lemma {:induction false} BlocksInRowBound(g: Grid, n: nat, r: nat, k: nat)
    requires IsSquare(g, n) && r + 1 < n && k < n
    ensures BlocksInRow(g, n, r, k) <= k
    ensures (forall i, j | 0 <= i < n && 0 <= j < n :: g[i][j] == g[0][0]) ==> BlocksInRow(g, n, r, k) == k
  {
    if k > 0 {
      BlocksInRowBound(g, n, r, k - 1);
    }
  }

  lemma {:induction false} BlocksAboveBound(g: Grid, n: nat, k: nat)
    requires IsSquare(g, n) && k < n
    ensures BlocksAbove(g, n, k) <= k * (n - 1)
    ensures (forall i, j | 0 <= i < n && 0 <= j < n :: g[i][j] == g[0][0]) ==> BlocksAbove(g, n, k) == k * (n - 1)
  {
    if k > 0 {
      BlocksAboveBound(g, n, k - 1);
      BlocksInRowBound(g, n, k - 1, n - 1);
      assert k * (n - 1) == (k - 1) * (n - 1) + (n - 1);
    }
  }

  /**
   * Rule 2 costs at most 3 (n - 1)^2, one charge per block position, and a
   * grid of a single colour reaches that bound.
   */
  lemma Rule2Bound(g: Grid, n: nat)
    requires IsSquare(g, n)
    ensures Rule2(g, n) <= 3 * ((n - 1) * (n - 1))
    ensures n >= 1 && (forall i, j | 0 <= i < n && 0 <= j < n :: g[i][j] == g[0][0]) ==> Rule2(g, n) == 3 * ((n - 1) * (n - 1))
  {
    if n > 0 {
      BlocksAboveBound(g, n, n - 1);
    }
  }

  /** evaluateRule2: every 2 x 2 block, scanned from its top-left module. */
  method EvaluateRule2(matrix: array2<bool>) returns (penalty: nat)
    requires matrix.Length0 == matrix.Length1
    ensures penalty == Rule2(Cells(matrix), matrix.Length0)
  {
    var size := matrix.Length0;
    penalty := 0;
    var row := 0;
    while row + 1 < size
      invariant row == 0 || row < size
      invariant penalty == 3 * BlocksAbove(Cells(matrix), size, row)
    {
      var rowPenalty := RowBlocksPenalty(matrix, row);
      penalty := penalty + rowPenalty;
      row := row + 1;
    }
  }

  /** The inner loop of evaluateRule2: 3 for each uniform 2 x 2 block whose top-left corner is on `row`. */
  method RowBlocksPenalty(matrix: array2<bool>, row: nat) returns (penalty: nat)
    requires matrix.Length0 == matrix.Length1 && row + 1 < matrix.Length0
    ensures penalty == 3 * BlocksInRow(Cells(matrix), matrix.Length0, row, matrix.Length0 - 1)
  {
    var size := matrix.Length0;
    ghost var g := Cells(matrix);
    CellsSquare(matrix);
    penalty := 0;
    var col := 0;
    while col < size - 1
      invariant 0 <= col <= size - 1
      invariant penalty == 3 * BlocksInRow(g, size, row, col)
    {
      var color := matrix[row, col];
      if matrix[row, col + 1] == color && matrix[row + 1, col] == color && matrix[row + 1, col + 1] == color {
        penalty := penalty + 3;
      }
      col := col + 1;
    }
  }

  // ---------------------------------------------------------------------------
  // Rule 3: finder-like sequences
  // ---------------------------------------------------------------------------

  /** Dark-light-dark-dark-dark-light-dark followed by four light modules. */
  const PATTERN1: seq<bool> := [true, false, true, true, true, false, true, false, false, false, false]
  /** Four light modules followed by dark-light-dark-dark-dark-light-dark. */
  const PATTERN2: seq<bool> := [false, false, false, false, true, false, true, true, true, false, true]

  /** The two patterns are one another read backwards. */
  lemma PatternsMirror()
    ensures |PATTERN1| == |PATTERN2| == 11
    ensures forall i | 0 <= i < 11 :: PATTERN2[i] == PATTERN1[10 - i]
  {
  }

  /** Element-wise agreement of two sequences of the same length. */
  predicate Matches(a: seq<bool>, b: seq<bool>)
    decreases |a|
  {
    |a| == |b| && (|a| == 0 || (a[0] == b[0] && Matches(a[1..], b[1..])))
  }

  /** Element-wise agreement is sequence equality. */
  lemma {:induction false} MatchesIsEquality(a: seq<bool>, b: seq<bool>)
    ensures Matches(a, b) <==> a == b
    decreases |a|
  {
    if |a| == |b| && |a| > 0 {
      MatchesIsEquality(a[1..], b[1..]);
      assert a == [a[0]] + a[1..] && b == [b[0]] + b[1..];
    }
  }

  /** A window that reads as one of the two finder-like patterns. */
  predicate FinderLike(w: seq<bool>) {
    Matches(w, PATTERN1) || Matches(w, PATTERN2)
  }

  /** matchesPattern: false on a length mismatch, otherwise element-wise comparison. */
  method MatchesPattern(sequence: seq<bool>, pattern: seq<bool>) returns (r: bool)
    ensures r <==> Matches(sequence, pattern)
  {
    MatchesIsEquality(sequence, pattern);
    if |sequence| != |pattern| {
      return false;
    }
    for i := 0 to |sequence|
      invariant sequence[..i] == pattern[..i]
    {
      if sequence[i] != pattern[i] {
        return false;
      }
    }
    assert sequence == sequence[..|sequence|] && pattern == pattern[..|pattern|];
    return true;
  }

  /** The window test of evaluateRule3: the first pattern, and the second only when the first fails. */
  method IsFinderLike(window: seq<bool>) returns (hit: bool)
    ensures hit == FinderLike(window)
  {
    hit := MatchesPattern(window, PATTERN1);
    if !hit {
      hit := MatchesPattern(window, PATTERN2);
    }
  }

  /** How many of the 11-module windows starting at 0..k-1 of a line look like a finder. */
  function WindowsIn(line: seq<bool>, k: nat): nat
    requires k == 0 || k + 10 <= |line|
  {
    if k == 0 then 0 else WindowsIn(line, k - 1) + (if FinderLike(line[k - 1..k + 10]) then 1 else 0)
  }

  /** The finder-like windows of one row or column: all start positions 0..|line|-11. */
  function LineWindows(line: seq<bool>): nat {
    if |line| >= 11 then WindowsIn(line, |line| - 10) else 0
  }

  function RowsWindows(g: Grid, n: nat, k: nat): nat
    requires IsSquare(g, n) && k <= n
  {
    if k == 0 then 0 else RowsWindows(g, n, k - 1) + LineWindows(g[k - 1])
  }

  function ColumnsWindows(g: Grid, n: nat, k: nat): nat
    requires IsSquare(g, n) && k <= n
  {
    if k == 0 then 0 else ColumnsWindows(g, n, k - 1) + LineWindows(Column(g, n, k - 1))
  }

  /** Rule 3 over the whole grid: 40 for every finder-like window of a row or column. */
  function Rule3(g: Grid, n: nat): nat
    requires IsSquare(g, n)
  {
    40 * (RowsWindows(g, n, n) + ColumnsWindows(g, n, n))
  }

  /** Moving the window start one module further counts the window it passes. */
  lemma WindowStep(line: seq<bool>, k: nat, window: seq<bool>, hit: bool)
    requires k + 11 <= |line| && window == line[k..k + 11] && hit == FinderLike(window)
    ensures WindowsIn(line, k + 1) == WindowsIn(line, k) + (if hit then 1 else 0)
  {
  }

  lemma {:induction false} WindowsInBound(line: seq<bool>, k: nat)
    requires k == 0 || k + 10 <= |line|
    ensures WindowsIn(line, k) <= k
  {
    if k > 0 {
      WindowsInBound(line, k - 1);
    }
  }

  /** A line shorter than a pattern has no finder-like window; a longer one at most one per start. */
  lemma LineWindowsBound(line: seq<bool>)
    ensures |line| < 11 ==> LineWindows(line) == 0
    ensures |line| >= 11 ==> LineWindows(line) <= |line| - 10
  {
    if |line| >= 11 {
      WindowsInBound(line, |line| - 10);
    }
  }

  /** The row half of evaluateRule3: every 11-module slice of every row. */
  method RowWindowsPenalty(matrix: array2<bool>) returns (penalty: nat)
    requires matrix.Length0 == matrix.Length1
    ensures penalty == 40 * RowsWindows(Cells(matrix), matrix.Length0, matrix.Length0)
  {
    var size := matrix.Length0;
    ghost var g := Cells(matrix);
    CellsSquare(matrix);
    penalty := 0;
    for row := 0 to size
      invariant penalty == 40 * RowsWindows(g, size, row)
    {
      var cost := LineWindowsPenalty(matrix, row, true);
      penalty := penalty + cost;
    }
  }

  /**
   * The window scan evaluateRule3 makes along one line: every 11-module slice,
   * 40 for each that looks like a finder. A row is sliced directly, a column
   * copied out one module at a time.
   */
  method LineWindowsPenalty(matrix: array2<bool>, index: nat, across: bool) returns (cost: nat)
    requires matrix.Length0 == matrix.Length1 && index < matrix.Length0
    ensures across ==> cost == 40 * LineWindows(RowOf(matrix, index))
    ensures !across ==> cost == 40 * LineWindows(ColumnOf(matrix, index))
  {
    var size := matrix.Length0;
    ghost var line := if across then RowOf(matrix, index) else ColumnOf(matrix, index);
    cost := 0;
    var start := 0;
    while start <= size - 11
      invariant 0 <= start && (start == 0 || start + 10 <= size)
      invariant cost == 40 * WindowsIn(line, start)
    {
      var window;
      if across {
        window := RowOf(matrix, index)[start..start + 11];
      } else {
        window := ColumnSlice(matrix, start, index);
      }
      var hit := IsFinderLike(window);
      WindowStep(line, start, window, hit);
      if hit {
        cost := cost + 40;
      }
      start := start + 1;
    }
  }

  lemma SliceGrows(line: seq<bool>, start: nat, i: nat)
    requires start + i < |line|
    ensures line[start..start + i + 1] == line[start..start + i] + [line[start + i]]
  {
  }

  /** The 11 modules of column col from row `row` down, copied one at a time. */
  method ColumnSlice(matrix: array2<bool>, row: nat, col: nat) returns (columnSlice: seq<bool>)
    requires row + 11 <= matrix.Length0 && col < matrix.Length1
    ensures columnSlice == ColumnOf(matrix, col)[row..row + 11]
  {
    ghost var line := ColumnOf(matrix, col);
    columnSlice := [];
    for i := 0 to 11
      invariant columnSlice == line[row..row + i]
    {
      SliceGrows(line, row, i);
      columnSlice := columnSlice + [matrix[row + i, col]];
    }
  }

  /** The column half of evaluateRule3: every 11-module slice of every column, copied out one module at a time. */
  method ColumnWindowsPenalty(matrix: array2<bool>) returns (penalty: nat)
    requires matrix.Length0 == matrix.Length1
    ensures penalty == 40 * ColumnsWindows(Cells(matrix), matrix.Length0, matrix.Length0)
  {
    var size := matrix.Length0;
    ghost var g := Cells(matrix);
    CellsSquare(matrix);
    penalty := 0;
    for col := 0 to size
      invariant penalty == 40 * ColumnsWindows(g, size, col)
    {
      var cost := LineWindowsPenalty(matrix, col, false);
      ColumnOfCells(matrix, col);
      penalty := penalty + cost;
    }
  }

  /** evaluateRule3: the finder-like windows of every row and then every column. */
  method EvaluateRule3(matrix: array2<bool>) returns (penalty: nat)
    requires matrix.Length0 == matrix.Length1
    ensures penalty == Rule3(Cells(matrix), matrix.Length0)
  {
    var rows := RowWindowsPenalty(matrix);
    var columns := ColumnWindowsPenalty(matrix);
    penalty := rows + columns;
  }

  // ---------------------------------------------------------------------------
  // Rule 4: proportion of dark modules
  // ---------------------------------------------------------------------------

  /** The dark modules among the first k of a line. */
  function DarkIn(line: seq<bool>, k: nat): nat
    requires k <= |line|
  {
    if k == 0 then 0 else DarkIn(line, k - 1) + (if line[k - 1] then 1 else 0)
  }

  /** The dark modules in rows 0..k-1. */
  function DarkAbove(g: Grid, n: nat, k: nat): nat
    requires IsSquare(g, n) && k <= n
  {
    if k == 0 then 0 else DarkAbove(g, n, k - 1) + DarkIn(g[k - 1], n)
  }

  function Abs(x: int): nat {
    if x < 0 then -x else x
  }

  /**
   * Rule 4 over the whole grid: the whole percentage of dark modules, its
   * distance from 50, and 10 for every full 5 points of that distance.
   */
  function Rule4(g: Grid, n: nat): nat
    requires IsSquare(g, n) && n >= 1
  {
    var percentage := (DarkAbove(g, n, n) * 100) / (n * n);
    (Abs(percentage - 50) / 5) * 10
  }

  lemma {:induction false} DarkInBound(line: seq<bool>, k: nat)
    requires k <= |line|
    ensures DarkIn(line, k) <= k
  {
    if k > 0 {
      DarkInBound(line, k - 1);
    }
  }

  lemma {:induction false} DarkAboveBound(g: Grid, n: nat, k: nat)
    requires IsSquare(g, n) && k <= n
    ensures DarkAbove(g, n, k) <= k * n
  {
    if k > 0 {
      DarkAboveBound(g, n, k - 1);
      DarkInBound(g[k - 1], n);
      assert k * n == (k - 1) * n + n;
    }
  }

  lemma QuotientBound(x: nat, t: nat, c: nat)
    requires t > 0 && x <= c * t
    ensures x / t <= c
  {
  }

  /** Rule 4 is a multiple of 10 between 0 and 100. */
  lemma Rule4Range(g: Grid, n: nat)
    requires IsSquare(g, n) && n >= 1
    ensures Rule4(g, n) <= 100 && Rule4(g, n) % 10 == 0
  {
    var dark := DarkAbove(g, n, n);
    DarkAboveBound(g, n, n);
    assert dark * 100 <= 100 * (n * n);
    QuotientBound(dark * 100, n * n, 100);
    var percentage := (dark * 100) / (n * n);
    TenPerFiveSteps(Abs(percentage - 50));
  }

  /** A deviation of at most 50 scores a multiple of 10 no larger than 100. */
  lemma TenPerFiveSteps(deviation: nat)
    requires deviation <= 50
    ensures (deviation / 5) * 10 <= 100 && ((deviation / 5) * 10) % 10 == 0
  {
    var steps := deviation / 5;
    assert steps <= 10;
  }

  /** evaluateRule4: count the dark modules, then score the rounded-down percentage. */
  method EvaluateRule4(matrix: array2<bool>) returns (penalty: nat)
    requires matrix.Length0 == matrix.Length1 && matrix.Length0 >= 1
    ensures penalty == Rule4(Cells(matrix), matrix.Length0)
  {
    var size := matrix.Length0;
    ghost var g := Cells(matrix);
    CellsSquare(matrix);
    var darkCount := 0;
    for row := 0 to size
      invariant darkCount == DarkAbove(g, size, row)
    {
      for col := 0 to size
        invariant darkCount == DarkAbove(g, size, row) + DarkIn(g[row], col)
      {
        if matrix[row, col] {
          darkCount := darkCount + 1;
        }
      }
    }
    var totalModules := size * size;
    var percentage := (darkCount * 100) / totalModules;
    var deviation := Abs(percentage - 50);
    penalty := (deviation / 5) * 10;
  }

  // ---------------------------------------------------------------------------
  // Mask evaluation and selection
  // ---------------------------------------------------------------------------

  /** The total penalty of a grid: the four rules added up. */
  function Penalty(g: Grid, n: nat): nat
    requires IsSquare(g, n) && n >= 1
  {
    Rule1(g, n) + Rule2(g, n) + Rule3(g, n) + Rule4(g, n)
  }

  /** The penalty of the grid after masking with pattern p. */
  function MaskPenalty(g: Grid, n: nat, p: nat): nat
    requires IsSquare(g, n) && n >= 1 && p < 8
  {
    Penalty(Masked(g, n, p), n)
  }

  /** evaluateMask: the sum of the four rule penalties. */
  method EvaluateMask(matrix: array2<bool>) returns (penalty: nat)
    requires matrix.Length0 == matrix.Length1 && matrix.Length0 >= 1
    ensures penalty == Penalty(Cells(matrix), matrix.Length0)
  {
    penalty := 0;
    var p1 := EvaluateRule1(matrix);
    penalty := penalty + p1;
    var p2 := EvaluateRule2(matrix);
    penalty := penalty + p2;
    var p3 := EvaluateRule3(matrix);
    penalty := penalty + p3;
    var p4 := EvaluateRule4(matrix);
    penalty := penalty + p4;
  }

  /** Among the first k entries, entry `best` is least and no earlier entry is as small. */
  ghost predicate FirstMinimum(cost: seq<nat>, best: nat, k: nat)
    requires k <= |cost|
  {
    best < k &&
    (forall p | 0 <= p < k :: cost[best] <= cost[p]) &&
    (forall p | 0 <= p < best :: cost[best] < cost[p])
  }

  /**
   * One more candidate: it becomes the minimum when it is the first one or
   * strictly smaller than the minimum so far.
   */
  lemma FirstMinimumStep(cost: seq<nat>, best: nat, k: nat, first: bool)
    requires k < |cost| && (first ==> k == 0) && (!first ==> FirstMinimum(cost, best, k))
    ensures FirstMinimum(cost, if first || cost[k] < cost[best] then k else best, k + 1)
  {
  }

  /** A penalty bound that starts out larger than every penalty (`Number.POSITIVE_INFINITY`). */
  datatype Bound = Finite(value: nat) | Infinity

  /** One trial of findBestMask: the penalty of the matrix under mask `pattern`. */
  method MaskedPenalty(matrix: array2<bool>, pattern: nat) returns (penalty: nat)
    requires matrix.Length0 == matrix.Length1 && matrix.Length0 >= 1 && pattern < 8
    ensures penalty == MaskPenalty(Cells(matrix), matrix.Length0, pattern)
  {
    var masking := ApplyMask(matrix, pattern);
    var maskedMatrix := masking.value;
    penalty := EvaluateMask(maskedMatrix);
  }

  /**
   * findBestMask: tries the patterns 0..7 in order and keeps one only when its
   * penalty is strictly lower, so the result is the first pattern of least
   * penalty.
   */
  method FindBestMask(matrix: array2<bool>) returns (bestPattern: nat)
    requires matrix.Length0 == matrix.Length1 && matrix.Length0 >= 1
    ensures bestPattern < 8
    ensures forall p | 0 <= p < 8 :: MaskPenalty(Cells(matrix), matrix.Length0, bestPattern) <= MaskPenalty(Cells(matrix), matrix.Length0, p)
    ensures forall p | 0 <= p < bestPattern :: MaskPenalty(Cells(matrix), matrix.Length0, bestPattern) < MaskPenalty(Cells(matrix), matrix.Length0, p)
  {
    var size := matrix.Length0;
    ghost var g := Cells(matrix);
    ghost var cost := seq(8, p requires 0 <= p < 8 => MaskPenalty(g, size, p));
    bestPattern := 0;
    var lowestPenalty := Infinity;
    for pattern := 0 to 8
      invariant lowestPenalty.Infinity? <==> pattern == 0
      invariant bestPattern < 8
      invariant lowestPenalty.Finite? ==> lowestPenalty.value == cost[bestPattern]
      invariant lowestPenalty.Finite? ==> FirstMinimum(cost, bestPattern, pattern)
    {
      var penalty := MaskedPenalty(matrix, pattern);
      FirstMinimumStep(cost, bestPattern, pattern, lowestPenalty.Infinity?);
      if lowestPenalty.Infinity? || penalty < lowestPenalty.value {
        lowestPenalty := Finite(penalty);
        bestPattern := pattern;
      }
    }
    assert g == Cells(matrix);
    assert forall p | 0 <= p < 8 :: cost[p] == MaskPenalty(g, size, p);
  }
}
