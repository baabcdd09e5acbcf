/**
 * The generator (src/qr-generator.ts): version choice, matrix layout, data
 * placement, format information and the `generate` pipeline.
 *
 * Every step that draws into the matrix is an in-place method on a square
 * `array2<bool>` (`true` is a dark module). Each is proved to leave the
 * matrix it was given overlaid with a list of cell writes, in the order in
 * which it performs them; the write lists are functions, and the lemmas
 * beside them say what each list puts where.
 */
module Generator {
  import opened Types
  import opened Constants
  import opened Utils
  import ReedSolomon
  import opened MaskPatterns

  // ---------------------------------------------------------------------------
  // Cell writes
  // ---------------------------------------------------------------------------

  /** One assignment `matrix[row][col] = dark`. */
  datatype Write = Write(row: int, col: int, dark: bool)

  /** The value of cell (row, col) after the writes `ws` on a cell that held `base`: the last write to it wins. */
  function Overlay(ws: seq<Write>, row: int, col: int, base: bool): bool {
    if |ws| == 0 then base
    else if ws[|ws| - 1].row == row && ws[|ws| - 1].col == col then ws[|ws| - 1].dark
    else Overlay(ws[..|ws| - 1], row, col, base)
  }

  lemma OverlaySnoc(ws: seq<Write>, w: Write)
    ensures forall row, col, base ::
      Overlay(ws + [w], row, col, base) == if w.row == row && w.col == col then w.dark else Overlay(ws, row, col, base)
  {
    assert (ws + [w])[..|ws|] == ws;
  }

  /** Writing `a` and then `b` is writing `b` over the result of `a`. */
  lemma {:induction false} OverlayConcat(a: seq<Write>, b: seq<Write>, row: int, col: int, base: bool)
    ensures Overlay(a + b, row, col, base) == Overlay(b, row, col, Overlay(a, row, col, base))
    decreases |b|
  {
    if |b| > 0 {
      var front := b[..|b| - 1];
      var w := b[|b| - 1];
      assert a + b == (a + front) + [w];
      assert b == front + [w];
      OverlaySnoc(a + front, w);
      OverlaySnoc(front, w);
      OverlayConcat(a, front, row, col, base);
    } else {
      assert a + b == a;
    }
  }

  /** A cell no write names keeps its value. */
  lemma {:induction false} OverlayUntouched(ws: seq<Write>, row: int, col: int, base: bool)
    requires forall k | 0 <= k < |ws| :: ws[k].row != row || ws[k].col != col
    ensures Overlay(ws, row, col, base) == base
    decreases |ws|
  {
    if |ws| > 0 {
      OverlayUntouched(ws[..|ws| - 1], row, col, base);
    }
  }

  predicate InGrid(row: int, col: int, size: int) {
    0 <= row < size && 0 <= col < size
  }

  /** Whether (row, col) lies in the k x k box whose top-left cell is (r0, c0). */
  predicate InBox(row: int, col: int, r0: int, c0: int, k: int) {
    r0 <= row < r0 + k && c0 <= col < c0 + k
  }

  // ---------------------------------------------------------------------------
  // Finder patterns
  // ---------------------------------------------------------------------------

  /** Top-left corners of the top-left, top-right and bottom-left finder patterns. */
  function FinderOrigins(size: int): (origins: seq<(int, int)>)
    ensures |origins| == 3
  {
    [(0, 0), (0, size - 7), (size - 7, 0)]
  }

  /**
   * Cell (i, j) of the 7 x 7 finder template is dark: every cell except the
   * ring at distance 2 from the centre.
   */
  predicate FinderDark(i: nat, j: nat)
    requires i < 7 && j < 7
  {
    FinderRing(i, j) != 2
  }

  /** The template the source reads, `FINDER_PATTERN[i][j] === 1`, is FinderDark. */
  lemma FinderTemplate(i: nat, j: nat)
    requires i < 7 && j < 7
    ensures |FINDER_PATTERN| == 7 && |FINDER_PATTERN[i]| == 7
    ensures (FINDER_PATTERN[i][j] == 1) == FinderDark(i, j)
  {
    FinderPatternRings();
  }

  /**
   * Cell (x, y) after the first o finder stamps on a cell that held `base`:
   * the template cell of the last stamp covering it, if any.
   */
  function FinderStamp(size: int, o: nat, x: int, y: int, base: bool): bool
    requires o <= 3
  {
    if o == 0 then base
    else
      var origin := FinderOrigins(size)[o - 1];
      if InBox(x, y, origin.0, origin.1, 7) then FinderDark(x - origin.0, y - origin.1)
      else FinderStamp(size, o - 1, x, y, base)
  }

  /**
   * On a matrix of side at least 14 the three stamps do not overlap: each
   * corner box holds the finder template and every other cell is untouched.
   */
  lemma FinderCells(size: int, x: int, y: int, base: bool)
    requires size >= 14
    ensures FinderStamp(size, 3, x, y, base) ==
      if InBox(x, y, 0, 0, 7) then FinderDark(x, y)
      else if InBox(x, y, 0, size - 7, 7) then FinderDark(x, y - (size - 7))
      else if InBox(x, y, size - 7, 0, 7) then FinderDark(x - (size - 7), y)
      else base
  {
    var origins := FinderOrigins(size);
    assert origins[0] == (0, 0) && origins[1] == (0, size - 7) && origins[2] == (size - 7, 0);
    var v0 := FinderStamp(size, 0, x, y, base);
    var v1 := FinderStamp(size, 1, x, y, base);
    var v2 := FinderStamp(size, 2, x, y, base);
    assert v0 == base;
    assert v1 == if InBox(x, y, 0, 0, 7) then FinderDark(x, y) else v0;
    assert v2 == if InBox(x, y, 0, size - 7, 7) then FinderDark(x, y - (size - 7)) else v1;
  }

  // ---------------------------------------------------------------------------
  // Separators
  // ---------------------------------------------------------------------------

  /** Top-left corners of the three 8 x 8 separator footprints. */
  function SeparatorOrigins(size: int): (origins: seq<(int, int)>)
    ensures |origins| == 3
  {
    [(0, 0), (0, size - 8), (size - 8, 0)]
  }

  /** Offset row 7 or offset column 7 of the 8 x 8 footprint at (r0, c0). */
  predicate SeparatorEdge(x: int, y: int, r0: int, c0: int) {
    InBox(x, y, r0, c0, 8) && (x == r0 + 7 || y == c0 + 7)
  }

  /** Cell (x, y) after the first o separator footprints: light if one of them clears it. */
  function SeparatorStamp(size: int, o: nat, x: int, y: int, base: bool): bool
    requires o <= 3
  {
    if o == 0 then base
    else
      var origin := SeparatorOrigins(size)[o - 1];
      if SeparatorEdge(x, y, origin.0, origin.1) && InGrid(x, y, size) then false
      else SeparatorStamp(size, o - 1, x, y, base)
  }

  /**
   * The top-right footprint starts at column size - 8, one column left of
   * the finder it should border, so its offset column 7 is the last column
   * of the matrix: the separators clear the right edge of the top-right
   * finder (dark in the template) and, symmetrically, the bottom edge of the
   * bottom-left finder.
   */
  lemma SeparatorsEraseFinderEdges(size: int, k: int, base: bool)
    requires size >= 14 && 0 <= k < 7
    ensures FinderDark(k, 6) && FinderDark(6, k)
    ensures FinderStamp(size, 3, k, size - 1, base) && FinderStamp(size, 3, size - 1, k, base)
    ensures !SeparatorStamp(size, 3, k, size - 1, FinderStamp(size, 3, k, size - 1, base))
    ensures !SeparatorStamp(size, 3, size - 1, k, FinderStamp(size, 3, size - 1, k, base))
  {
    FinderCells(size, k, size - 1, base);
    FinderCells(size, size - 1, k, base);
  }

  // ---------------------------------------------------------------------------
  // Timing patterns
  // ---------------------------------------------------------------------------

  /** Cell (x, y) after the timing lines: row 6 and column 6, indices 8 to size - 9, dark on even indices. */
  function TimingStamp(size: int, x: int, y: int, base: bool): bool {
    if y == 6 && 8 <= x < size - 8 then x % 2 == 0
    else if x == 6 && 8 <= y < size - 8 then y % 2 == 0
    else base
  }

  // ---------------------------------------------------------------------------
  // Alignment patterns
  // ---------------------------------------------------------------------------

  /** `isFinderPatternArea`: a centre within reach of one of the three finder corners. */
  predicate IsFinderPatternArea(row: int, col: int, size: int) {
    (row <= 8 && col <= 8) || (row <= 8 && col >= size - 9) || (row >= size - 9 && col <= 8)
  }

  /** Offset (i, j) from an alignment centre is dark: the outer ring of the 5 x 5 and the centre. */
  predicate AlignmentDark(i: int, j: int) {
    Abs(i) == 2 || Abs(j) == 2 || (i == 0 && j == 0)
  }

  /** Whether (x, y) lies in the 5 x 5 block centred on (r, c). */
  predicate NearCentre(x: int, y: int, r: int, c: int) {
    r - 2 <= x <= r + 2 && c - 2 <= y <= c + 2
  }

  /**
   * Cell (x, y) after the centre pairs (pos[a'], pos[b']) that come before
   * (a, b) in row-major order: the pattern of the last stamped block
   * covering it, if any. Pairs in a finder area are skipped.
   */
  function AlignmentStamp(pos: seq<int>, size: int, a: nat, b: nat, x: int, y: int, base: bool): bool
    requires (a < |pos| && b <= |pos|) || (a == |pos| && b == 0)
    decreases a, b
  {
    if b > 0 then
      var r := pos[a];
      var c := pos[b - 1];
      if !IsFinderPatternArea(r, c, size) && NearCentre(x, y, r, c) && InGrid(x, y, size) then AlignmentDark(x - r, y - c)
      else AlignmentStamp(pos, size, a, b - 1, x, y, base)
    else if a > 0 then AlignmentStamp(pos, size, a - 1, |pos|, x, y, base)
    else base
  }

  /** A cell that no stamped block covers keeps its value. */
  lemma {:induction false} AlignmentUntouched(pos: seq<int>, size: int, a: nat, b: nat, x: int, y: int, base: bool)
    requires (a < |pos| && b <= |pos|) || (a == |pos| && b == 0)
    requires forall i, j | 0 <= i < |pos| && 0 <= j < |pos| :: IsFinderPatternArea(pos[i], pos[j], size) || !NearCentre(x, y, pos[i], pos[j])
    ensures AlignmentStamp(pos, size, a, b, x, y, base) == base
    decreases a, b
  {
    if b > 0 {
      assert IsFinderPatternArea(pos[a], pos[b - 1], size) || !NearCentre(x, y, pos[a], pos[b - 1]);
      AlignmentUntouched(pos, size, a, b - 1, x, y, base);
    } else if a > 0 {
      AlignmentUntouched(pos, size, a - 1, |pos|, x, y, base);
    }
  }

  /**
   * The three centre pairs next to the finder corners are skipped, and the
   * pair in the fourth corner is not.
   */
  lemma AlignmentCornerPairs(size: int)
    requires size >= 21
    ensures IsFinderPatternArea(6, 6, size) && IsFinderPatternArea(6, size - 7, size) && IsFinderPatternArea(size - 7, 6, size)
    ensures !IsFinderPatternArea(size - 7, size - 7, size)
  {
  }

  /** The alignment centres of a version: row version - 1 of the table. */
  function AlignmentPositions(version: int): seq<int>
    requires 1 <= version <= 40
  {
    AlignmentTableLow();
    ALIGNMENT_PATTERNS[version - 1]
  }

  // ---------------------------------------------------------------------------
  // Data placement
  // ---------------------------------------------------------------------------

  /**
   * `isOccupied`: the placement's test for a function-pattern cell. It is the
   * same test as the mask module's reserved area and never reads the matrix;
   * in particular it knows nothing of the alignment patterns.
   */
  predicate IsOccupied(row: int, col: int, size: int) {
    IsReservedArea(row, col, size)
  }

  /** The row visited at step `count` of a column pair: bottom-up or top-down. */
  function RowAt(size: int, count: int, upward: bool): int {
    if upward then size - 1 - count else count
  }

  /** The column the pair starting at col actually uses: 6 is the timing column, so 5 instead. */
  function PairColumn(col: int): int {
    if col == 6 then 5 else col
  }

  /** The free cells after visiting v: v joins them unless it is occupied. */
  function FreeStep(free: seq<(int, int)>, v: (int, int), size: int): seq<(int, int)> {
    if IsOccupied(v.0, v.1, size) then free else free + [v]
  }

  /** The free cells after the first c cells of row `row` of the pair at col: column col, then col - 1. */
  function RowFree(free: seq<(int, int)>, row: int, col: int, size: int, c: nat): seq<(int, int)> {
    if c == 0 then free else FreeStep(RowFree(free, row, col, size, c - 1), (row, col - (c - 1)), size)
  }

  /** The free cells after the first `count` rows of the column pair at col. */
  function PairFree(free: seq<(int, int)>, col: int, size: int, upward: bool, count: nat): seq<(int, int)> {
    if count == 0 then free
    else RowFree(PairFree(free, col, size, upward, count - 1), RowAt(size, count - 1, upward), col, size, 2)
  }

  /** The free cells after the zigzag from the pair at col leftwards, direction alternating per pair. */
  function FreeFrom(free: seq<(int, int)>, col: int, size: nat, upward: bool): seq<(int, int)>
    decreases col
  {
    if col <= 0 then free
    else
      var c := PairColumn(col);
      FreeFrom(PairFree(free, c, size, upward, size), c - 2, size, !upward)
  }

  /**
   * The cells that receive data bits, in order: the zigzag from the
   * bottom-right pair, upward first, keeping the cells that are not
   * occupied.
   */
  function FreeCells(size: nat): seq<(int, int)> {
    FreeFrom([], size - 1, size, true)
  }

  /** Bit k of the codeword stream, most significant bit of each codeword first. */
  predicate DataBit(data: seq<byte>, k: nat)
    requires k < 8 * |data|
  {
    (data[k / 8] / Pow2(7 - k % 8)) % 2 == 1
  }

  /** The writes of the placement along `cells`: bit k into cell k, while bits last. */
  function PlacementWrites(cells: seq<(int, int)>, data: seq<byte>): seq<Write>
    decreases |cells|
  {
    if |cells| == 0 then []
    else
      var k := |cells| - 1;
      var front := PlacementWrites(cells[..k], data);
      if k < 8 * |data| then front + [Write(cells[k].0, cells[k].1, DataBit(data, k))] else front
  }

  /** One more free cell adds one more write while bits last. */
  lemma PlacementWritesSnoc(cells: seq<(int, int)>, v: (int, int), data: seq<byte>)
    ensures PlacementWrites(cells + [v], data) ==
      if |cells| < 8 * |data| then PlacementWrites(cells, data) + [Write(v.0, v.1, DataBit(data, |cells|))]
      else PlacementWrites(cells, data)
  {
    assert (cells + [v])[..|cells|] == cells;
  }

  /** Bit `bitIndex` of codeword `dataIndex` is bit 8 * dataIndex + 7 - bitIndex of the stream. */
  lemma BitPosition(data: seq<byte>, dataIndex: nat, bitIndex: nat)
    requires dataIndex < |data| && bitIndex <= 7
    ensures var k := 8 * dataIndex + 7 - bitIndex;
      k < 8 * |data| && k / 8 == dataIndex && k % 8 == 7 - bitIndex
      && (DataBit(data, k) <==> (data[dataIndex] / Pow2(bitIndex)) % 2 == 1)
  {
  }

  /**
   * The state of the placement once `free` are the free cells visited so
   * far: `writes` are the writes so far, and the next bit is bit `bitIndex`
   * of codeword `dataIndex`, which is bit 8 * dataIndex + 7 - bitIndex of
   * the stream.
   */
  ghost predicate Progress(free: seq<(int, int)>, writes: seq<Write>, dataIndex: int, bitIndex: int, data: seq<byte>) {
    0 <= bitIndex <= 7 && 0 <= dataIndex <= |data| && (dataIndex == |data| ==> bitIndex == 7)
    && 8 * dataIndex + 7 - bitIndex == Min(|free|, 8 * |data|)
    && writes == PlacementWrites(free, data)
  }

  /** The bit position after one bit is written: the next lower bit, or the top bit of the next codeword. */
  function Advance(dataIndex: int, bitIndex: int): (int, int) {
    if bitIndex - 1 < 0 then (dataIndex + 1, 7) else (dataIndex, bitIndex - 1)
  }

  /** Writing the next bit into a free cell keeps the placement state in step. */
  lemma ProgressWrite(free: seq<(int, int)>, writes: seq<Write>, dataIndex: int, bitIndex: int, data: seq<byte>, v: (int, int))
    requires Progress(free, writes, dataIndex, bitIndex, data) && dataIndex < |data|
    ensures var next := Advance(dataIndex, bitIndex);
      Progress(free + [v], writes + [Write(v.0, v.1, (data[dataIndex] / Pow2(bitIndex)) % 2 == 1)], next.0, next.1, data)
  {
    PlacementWritesSnoc(free, v, data);
    BitPosition(data, dataIndex, bitIndex);
  }

  /** Once the bits run out, a free cell is visited without a write. */
  lemma ProgressExhausted(free: seq<(int, int)>, writes: seq<Write>, dataIndex: int, bitIndex: int, data: seq<byte>, v: (int, int))
    requires Progress(free, writes, dataIndex, bitIndex, data) && dataIndex == |data|
    ensures Progress(free + [v], writes, dataIndex, bitIndex, data)
  {
    PlacementWritesSnoc(free, v, data);
  }

  /** Every cell of the matrix holds its original value overlaid with `writes`. */
  ghost predicate Holds(matrix: array2<bool>, writes: seq<Write>, orig: Grid, size: int)
    reads matrix
    requires matrix.Length0 == size && matrix.Length1 == size && IsSquare(orig, size)
  {
    forall x, y | 0 <= x < size && 0 <= y < size :: matrix[x, y] == Overlay(writes, x, y, orig[x][y])
  }

  /** No cell occurs twice in s. */
  ghost predicate Distinct(s: seq<(int, int)>) {
    forall i, j | 0 <= i < j < |s| :: s[i] != s[j]
  }

  /** Every cell of s lies in the grid and is not occupied. */
  ghost predicate AllFree(s: seq<(int, int)>, size: int) {
    forall k | 0 <= k < |s| :: InGrid(s[k].0, s[k].1, size) && !IsOccupied(s[k].0, s[k].1, size)
  }

  /** The rows the first `count` steps of a pair visit: the bottom `count` rows upward, the top ones downward. */
  predicate Visited(row: int, count: int, size: int, upward: bool) {
    if upward then size - count <= row < size else 0 <= row < count
  }

  /** One row of a pair adds new free cells of that row and of its two columns only. */
  lemma {:induction false} RowFreeFacts(free: seq<(int, int)>, row: int, col: int, size: int, c: nat)
    requires c <= 2 && 0 <= row < size && 1 <= col < size
    requires Distinct(free) && AllFree(free, size)
    requires forall k | 0 <= k < |free| :: free[k] != (row, col) && free[k] != (row, col - 1)
    ensures var s := RowFree(free, row, col, size, c);
      Distinct(s) && AllFree(s, size) && |free| <= |s| && s[..|free|] == free
      && forall k | |free| <= k < |s| :: s[k].0 == row && col - c < s[k].1 <= col
  {
    if c > 0 {
      RowFreeFacts(free, row, col, size, c - 1);
      var p := RowFree(free, row, col, size, c - 1);
      var v := (row, col - (c - 1));
      if !IsOccupied(v.0, v.1, size) {
        var s := p + [v];
        assert s[..|free|] == p[..|free|];
        forall i, j | 0 <= i < j < |s|
          ensures s[i] != s[j]
        {
          if j == |p| && i >= |free| {
            assert s[i].1 > col - (c - 1);
          }
        }
      }
    }
  }

  /**
   * The first `count` rows of the pair at col add new, distinct free cells
   * of columns col and col - 1 in the rows visited so far.
   */
  lemma {:induction false} PairFreeFacts(free: seq<(int, int)>, col: int, size: int, upward: bool, count: nat)
    requires count <= size && 1 <= col < size
    requires Distinct(free) && AllFree(free, size) && forall k | 0 <= k < |free| :: free[k].1 > col
    ensures var s := PairFree(free, col, size, upward, count);
      Distinct(s) && AllFree(s, size) && |free| <= |s| && s[..|free|] == free
      && forall k | |free| <= k < |s| :: col - 1 <= s[k].1 <= col && Visited(s[k].0, count, size, upward)
  {
    if count > 0 {
      PairFreeFacts(free, col, size, upward, count - 1);
      var p := PairFree(free, col, size, upward, count - 1);
      var row := RowAt(size, count - 1, upward);
      forall k | 0 <= k < |p|
        ensures p[k] != (row, col) && p[k] != (row, col - 1)
      {
        if k < |free| {
          assert p[k] == free[k];
        }
      }
      RowFreeFacts(p, row, col, size, 2);
      var s := RowFree(p, row, col, size, 2);
      assert s[..|free|] == p[..|free|];
    }
  }

  /** The zigzag from the pair at col leftwards adds new, distinct free cells. */
  lemma {:induction false} FreeFromFacts(free: seq<(int, int)>, col: int, size: nat, upward: bool)
    requires col <= size - 1
    requires Distinct(free) && AllFree(free, size) && forall k | 0 <= k < |free| :: free[k].1 > col
    ensures Distinct(FreeFrom(free, col, size, upward)) && AllFree(FreeFrom(free, col, size, upward), size)
    decreases col
  {
    if col > 0 {
      var c := PairColumn(col);
      PairFreeFacts(free, c, size, upward, size);
      var s := PairFree(free, c, size, upward, size);
      forall k | 0 <= k < |s|
        ensures s[k].1 > c - 2
      {
        if k < |free| {
          assert s[k] == free[k];
        }
      }
      FreeFromFacts(s, c - 2, size, !upward);
    }
  }

  /** The data cells are distinct cells of the grid, none of them occupied. */
  lemma FreeCellsFacts(size: nat)
    ensures Distinct(FreeCells(size)) && AllFree(FreeCells(size), size)
  {
    FreeFromFacts([], size - 1, size, true);
  }

  /** Write k of the placement puts bit k of the stream into data cell k, for as many cells as there are bits. */
  lemma {:induction false} PlacementWritesFacts(cells: seq<(int, int)>, data: seq<byte>)
    ensures var ws := PlacementWrites(cells, data);
      |ws| == Min(|cells|, 8 * |data|)
      && forall k | 0 <= k < |ws| :: ws[k] == Write(cells[k].0, cells[k].1, DataBit(data, k))
    decreases |cells|
  {
    if |cells| > 0 {
      PlacementWritesFacts(cells[..|cells| - 1], data);
    }
  }

  /** Among writes to distinct cells, each one survives. */
  lemma {:induction false} OverlayDistinct(ws: seq<Write>, k: nat, base: bool)
    requires k < |ws|
    requires forall i, j | 0 <= i < j < |ws| :: ws[i].row != ws[j].row || ws[i].col != ws[j].col
    ensures Overlay(ws, ws[k].row, ws[k].col, base) == ws[k].dark
    decreases |ws|
  {
    if k < |ws| - 1 {
      OverlayDistinct(ws[..|ws| - 1], k, base);
    }
  }

  /**
   * Bit k of the codeword stream ends up in data cell k, a free cell of the
   * grid, for every k below both the number of bits and the number of free
   * cells.
   */
  lemma PlacedBit(size: nat, data: seq<byte>, k: nat, base: bool)
    requires k < |FreeCells(size)| && k < 8 * |data|
    ensures var v := FreeCells(size)[k];
      InGrid(v.0, v.1, size) && !IsOccupied(v.0, v.1, size)
      && Overlay(PlacementWrites(FreeCells(size), data), v.0, v.1, base) == DataBit(data, k)
  {
    var cells := FreeCells(size);
    FreeCellsFacts(size);
    PlacementWritesFacts(cells, data);
    var ws := PlacementWrites(cells, data);
    forall i, j | 0 <= i < j < |ws|
      ensures ws[i].row != ws[j].row || ws[i].col != ws[j].col
    {
      assert cells[i] != cells[j];
    }
    OverlayDistinct(ws, k, base);
  }

  /**
   * Placement leaves a cell alone when it is occupied, and when it is a data
   * cell beyond the last bit.
   */
  lemma PlacementSpares(size: nat, data: seq<byte>, row: int, col: int, base: bool)
    requires IsOccupied(row, col, size)
      || exists k | 8 * |data| <= k < |FreeCells(size)| :: FreeCells(size)[k] == (row, col)
    ensures Overlay(PlacementWrites(FreeCells(size), data), row, col, base) == base
  {
    var cells := FreeCells(size);
    FreeCellsFacts(size);
    PlacementWritesFacts(cells, data);
    var ws := PlacementWrites(cells, data);
    forall k | 0 <= k < |ws|
      ensures ws[k].row != row || ws[k].col != col
    {
      assert ws[k].row == cells[k].0 && ws[k].col == cells[k].1;
    }
    OverlayUntouched(ws, row, col, base);
  }

  /** A row of a pair keeps the cells before it and adds its own cells that are not occupied. */
  lemma RowCovers(free: seq<(int, int)>, row: int, col: int, size: int)
    ensures forall v | v in free :: v in RowFree(free, row, col, size, 2)
    ensures !IsOccupied(row, col, size) ==> (row, col) in RowFree(free, row, col, size, 2)
    ensures !IsOccupied(row, col - 1, size) ==> (row, col - 1) in RowFree(free, row, col, size, 2)
  {
    assert RowFree(free, row, col, size, 0) == free;
    var one := RowFree(free, row, col, size, 1);
    assert one == FreeStep(free, (row, col), size);
    assert RowFree(free, row, col, size, 2) == FreeStep(one, (row, col - 1), size);
  }

  /** The first `count` rows of a pair add every unoccupied cell of its two columns in those rows. */
  lemma {:induction false} PairCovers(free: seq<(int, int)>, col: int, size: int, upward: bool, count: nat)
    ensures forall v | v in free :: v in PairFree(free, col, size, upward, count)
    ensures forall x, y | Visited(x, count, size, upward) && (y == col || y == col - 1) && !IsOccupied(x, y, size) ::
      (x, y) in PairFree(free, col, size, upward, count)
  {
    if count > 0 {
      PairCovers(free, col, size, upward, count - 1);
      var p := PairFree(free, col, size, upward, count - 1);
      RowCovers(p, RowAt(size, count - 1, upward), col, size);
    }
  }

  /**
   * The zigzag from the pair at col leftwards reaches every unoccupied cell
   * of the grid in columns up to col, as long as it does not stop at
   * column 0 (col is odd, or at least 6).
   */
  lemma {:induction false} FreeFromCovers(free: seq<(int, int)>, col: int, size: nat, upward: bool)
    requires col < 0 || col % 2 == 1 || col >= 6
    ensures forall v | v in free :: v in FreeFrom(free, col, size, upward)
    ensures forall x, y | InGrid(x, y, size) && y <= col && !IsOccupied(x, y, size) :: (x, y) in FreeFrom(free, col, size, upward)
    decreases col
  {
    if col > 0 {
      var c := PairColumn(col);
      PairCovers(free, c, size, upward, size);
      var s := PairFree(free, c, size, upward, size);
      FreeFromCovers(s, c - 2, size, !upward);
      forall x, y | InGrid(x, y, size) && y <= col && !IsOccupied(x, y, size)
        ensures (x, y) in FreeFrom(free, col, size, upward)
      {
        if y >= c - 1 {
          assert Visited(x, size, size, upward);
          assert (x, y) in s;
        }
      }
    }
  }

  /** From size 7 on, every unoccupied cell of the grid is a data cell. */
  lemma FreeCellsCover(size: nat)
    requires size >= 7
    ensures forall x, y | InGrid(x, y, size) && !IsOccupied(x, y, size) :: (x, y) in FreeCells(size)
  {
    FreeFromCovers([], size - 1, size, true);
  }

  /** From version 2 on, the last alignment coordinate is seven cells in from the edge. */
  lemma LastAlignmentCentre(version: int)
    requires 2 <= version <= 40
    ensures var pos := AlignmentPositions(version);
      |pos| >= 2 && pos[|pos| - 1] == SizeOf(version) - 7
  {
    AlignmentTableLow();
    AlignmentTableMiddle();
    AlignmentTableHigh();
    assert AlignmentRowShaped(version - 1);
  }

  /**
   * From version 2 on, the centre of the bottom-right alignment pattern is
   * dark in the template, yet it is a data cell: placement does not treat
   * alignment patterns as occupied and writes a data bit over it once the
   * stream reaches that cell.
   */
  lemma AlignmentCentreIsDataCell(version: int)
    requires 2 <= version <= 40
    ensures var size := SizeOf(version);
      Template(version, size - 7, size - 7) && (size - 7, size - 7) in FreeCells(size)
  {
    var size := SizeOf(version);
    AlignmentCentreDark(version);
    FreeCellsCover(size);
    assert InGrid(size - 7, size - 7, size) && !IsOccupied(size - 7, size - 7, size);
  }

  /** The bottom-right alignment centre is dark in the template. */
  lemma AlignmentCentreDark(version: int)
    requires 2 <= version <= 40
    ensures Template(version, SizeOf(version) - 7, SizeOf(version) - 7)
  {
    var pos, size := AlignmentPositions(version), SizeOf(version);
    LastAlignmentCentre(version);
    CentreStamped(pos, size, version);
    assert Template(version, size - 7, size - 7) == TemplateOf(pos, size, version, size - 7, size - 7);
  }

  /** The centre pair (x, x) drawn last is dark at its own centre, whatever lay beneath. */
  lemma CentreStamped(pos: seq<int>, size: int, version: int)
    requires version >= 2 && size >= 16 && |pos| >= 1 && pos[|pos| - 1] == size - 7
    ensures TemplateOf(pos, size, version, size - 7, size - 7)
  {
    var x := size - 7;
    var base := Timed(size, x, x);
    assert AlignmentStamp(pos, size, |pos|, 0, x, x, base) == AlignmentStamp(pos, size, |pos| - 1, |pos|, x, x, base);
  }

  // ---------------------------------------------------------------------------
  // Matrix template
  // ---------------------------------------------------------------------------

  /** The side of a version's matrix. */
  function SizeOf(version: int): nat
    requires 1 <= version <= 40
  {
    17 + 4 * version
  }

  /** The dark module sits at (4 * version + 9, 8) from version 2 on. */
  predicate IsDarkModule(version: int, x: int, y: int) {
    version >= 2 && x == 4 * version + 9 && y == 8
  }

  /**
   * Cell (x, y) of the function patterns `createMatrix` draws before the
   * data on a matrix of side `size` with alignment centres `pos`: finders,
   * separators, timing lines, alignment blocks (from version 2) and the
   * dark module, each drawn over the previous ones.
   */
  function TemplateOf(pos: seq<int>, size: int, version: int, x: int, y: int): bool {
    if IsDarkModule(version, x, y) then true else Aligned(pos, size, version, x, y)
  }

  /** The cell once the alignment patterns (from version 2 on) are drawn over the timed matrix. */
  function Aligned(pos: seq<int>, size: int, version: int, x: int, y: int): bool {
    if version > 1 then AlignmentStamp(pos, size, |pos|, 0, x, y, Timed(size, x, y)) else Timed(size, x, y)
  }

  /** Finders, separators and timing lines on an all-light matrix. */
  function Timed(size: int, x: int, y: int): bool {
    TimingStamp(size, x, y, SeparatorStamp(size, 3, x, y, FinderStamp(size, 3, x, y, false)))
  }

  /** The function patterns of a version. */
  function Template(version: int, x: int, y: int): bool
    requires 1 <= version <= 40
  {
    TemplateOf(AlignmentPositions(version), SizeOf(version), version, x, y)
  }

  // ---------------------------------------------------------------------------
  // Format information
  // ---------------------------------------------------------------------------

  /** The decimal digits of `n`, most significant first, as JavaScript prints a whole number. */
  function DecimalDigits(n: nat): (s: string)
    ensures 1 <= |s|
    ensures forall i | 0 <= i < |s| :: '0' <= s[i] <= '9'
    ensures |s| == 1 <==> n < 10
    ensures s[|s| - 1] as int == '0' as int + n % 10
  {
    if n < 10 then [('0' as int + n) as char]
    else DecimalDigits(n / 10) + [('0' as int + n % 10) as char]
  }

  /** A whole number as a template literal renders it: a minus sign, then the digits. */
  function Decimal(n: int): (s: string)
    ensures 1 <= |s|
    ensures n < 0 <==> s[0] == '-'
    ensures 0 <= n ==> s == DecimalDigits(n)
  {
    if n < 0 then "-" + DecimalDigits(-n) else DecimalDigits(n)
  }

  /** The key the generator looks up: the level letter followed by the mask as printed. */
  function SourceFormatKey(level: ErrorCorrectionLevel, mask: int): (k: string)
    ensures 0 <= mask < 8 ==> k == FormatKey(level, mask)
  {
    [LevelLetter(level)] + Decimal(mask)
  }

  /**
   * The 15 format bits for a level and mask: the table entry under the key
   * `${level}${mask}`, or the fallback string when no such key exists (a
   * mask outside 0..7).
   */
  function FormatBits(level: ErrorCorrectionLevel, mask: int): (bits: string)
    ensures |bits| == 15 && IsBits(bits)
    ensures 0 <= mask < 8 ==> bits == FORMAT_INFO_TABLE[FormatKey(level, mask)]
  {
    if 0 <= mask < 8 then
      FormatTableComplete(level, mask);
      FORMAT_INFO_TABLE[FormatKey(level, mask)]
    else
      "101010000010010"
  }

  /** The printed key of a mask outside 0-7 is not a key of the format table. */
  lemma SourceKeyMissing(level: ErrorCorrectionLevel, mask: int)
    requires mask < 0 || 8 <= mask
    ensures SourceFormatKey(level, mask) !in FORMAT_INFO_TABLE
  {
    var k := SourceFormatKey(level, mask);
    assert k[1..] == Decimal(mask);
    if mask < 0 {
      assert k[1] == '-';
    } else if mask < 10 {
      assert k[1] as int == '0' as int + mask;
    } else {
      assert |k| > 2;
    }
    if k in FORMAT_INFO_TABLE {
      FormatTableKeyShape(k);
      assert false;
    }
  }

  /**
   * The format bits are the table entry under the printed key "<level><mask>"
   * when the table has that key, and the fallback string when it does not.
   */
  lemma FormatBitsLookup(level: ErrorCorrectionLevel, mask: int)
    ensures SourceFormatKey(level, mask) in FORMAT_INFO_TABLE ==> FormatBits(level, mask) == FORMAT_INFO_TABLE[SourceFormatKey(level, mask)]
    ensures SourceFormatKey(level, mask) !in FORMAT_INFO_TABLE ==> FormatBits(level, mask) == "101010000010010"
  {
    if 0 <= mask < 8 {
      FormatTableComplete(level, mask);
    } else {
      SourceKeyMissing(level, mask);
    }
  }

  /** The cell format bit i goes to: the first copy beside the top-left finder, the second along the other finders. */
  function FormatPosition(size: int, i: int, second: bool): (int, int) {
    if i < 6 then (if second then (size - 1 - i, 8) else (8, i))
    else if i < 8 then (if second then (size - 7 + i, 8) else (8, i + 1))
    else if i == 8 then (if second then (8, size - 8) else (7, 8))
    else (if second then (8, size - 15 + i) else (14 - i, 8))
  }

  /** The write of copy `second` of format bit i. */
  function FormatCopy(size: int, bits: string, i: int, second: bool): Write
    requires |bits| == 15 && 0 <= i < 15
  {
    var v := FormatPosition(size, i, second);
    Write(v.0, v.1, bits[i] == '1')
  }

  /** The writes for the first n format bits: both copies of bit 0, then both of bit 1, and so on. */
  function FormatPairs(size: int, bits: string, n: nat): (ws: seq<Write>)
    requires |bits| == 15 && n <= 15
    ensures |ws| == 2 * n
  {
    if n == 0 then [] else FormatPairs(size, bits, n - 1) + [FormatCopy(size, bits, n - 1, false), FormatCopy(size, bits, n - 1, true)]
  }

  /** The 30 writes the format step attempts, in order. */
  function FormatWrites(size: int, bits: string): (ws: seq<Write>)
    requires |bits| == 15
    ensures |ws| == 30
  {
    FormatPairs(size, bits, |bits|)
  }

  /** The pairs for fewer bits are a prefix, followed by the two copies of the next bit. */
  lemma {:induction false} FormatPairsAt(size: int, bits: string, n: nat, i: nat)
    requires |bits| == 15 && i < n <= 15
    ensures FormatPairs(size, bits, n)[..2 * i] == FormatPairs(size, bits, i)
    ensures FormatPairs(size, bits, n)[2 * i] == FormatCopy(size, bits, i, false)
    ensures FormatPairs(size, bits, n)[2 * i + 1] == FormatCopy(size, bits, i, true)
    decreases n
  {
    if i < n - 1 {
      FormatPairsAt(size, bits, n - 1, i);
      var front := FormatPairs(size, bits, n - 1);
      assert FormatPairs(size, bits, n)[..2 * (n - 1)] == front;
      assert FormatPairs(size, bits, n)[..2 * i] == front[..2 * i];
    } else {
      assert FormatPairs(size, bits, n)[..2 * i] == FormatPairs(size, bits, n - 1);
    }
  }

  /** Write j of the format step is copy j % 2 of bit j / 2. */
  lemma FormatWritesIndex(size: int, bits: string)
    requires |bits| == 15
    ensures forall j | 0 <= j < 30 :: FormatWrites(size, bits)[j] == FormatCopy(size, bits, j / 2, j % 2 == 1)
  {
    forall j | 0 <= j < 30
      ensures FormatWrites(size, bits)[j] == FormatCopy(size, bits, j / 2, j % 2 == 1)
    {
      FormatPairsAt(size, bits, |bits|, j / 2);
    }
  }

  /** The writes that take effect: those before the first whose row lies outside the matrix. */
  function Performed(ws: seq<Write>, size: int): seq<Write> {
    if |ws| == 0 || !(0 <= ws[0].row < size) then [] else [ws[0]] + Performed(ws[1..], size)
  }

  /** The outcome of the writes: the first row outside the matrix raises an error. */
  function WriteOutcome(ws: seq<Write>, size: int): Result<()> {
    if |ws| == 0 then Ok(())
    else if !(0 <= ws[0].row < size) then Err(RowOutOfRange(ws[0].row))
    else WriteOutcome(ws[1..], size)
  }

  /** Writes whose rows all lie in the matrix take effect and raise nothing. */
  lemma PerformedAfter(ws: seq<Write>, size: int, n: nat)
    requires n <= |ws| && forall j | 0 <= j < n :: 0 <= ws[j].row < size
    ensures Performed(ws, size) == ws[..n] + Performed(ws[n..], size)
    ensures WriteOutcome(ws, size) == WriteOutcome(ws[n..], size)
  {
    PerformedPrefix(ws, size, n);
    OutcomeAfter(ws, size, n);
  }

  lemma {:induction false} PerformedPrefix(ws: seq<Write>, size: int, n: nat)
    requires n <= |ws| && forall j | 0 <= j < n :: 0 <= ws[j].row < size
    ensures Performed(ws, size) == ws[..n] + Performed(ws[n..], size)
    decreases n
  {
    if n > 0 {
      var rest := ws[1..];
      assert forall j | 0 <= j < n - 1 :: rest[j] == ws[j + 1];
      PerformedPrefix(rest, size, n - 1);
      var done, later := rest[..n - 1], Performed(rest[n - 1..], size);
      assert rest[n - 1..] == ws[n..];
      FirstThenRest(ws, n);
      ConsAssociates(ws[0], done, later);
    }
  }

  /** A non-empty prefix is its first element followed by the prefix of the rest. */
  lemma FirstThenRest<T>(s: seq<T>, n: nat)
    requires 0 < n <= |s|
    ensures s[..n] == [s[0]] + s[1..][..n - 1]
  {
  }

  lemma ConsAssociates<T>(x: T, a: seq<T>, b: seq<T>)
    ensures [x] + (a + b) == ([x] + a) + b
  {
  }

  lemma {:induction false} OutcomeAfter(ws: seq<Write>, size: int, n: nat)
    requires n <= |ws| && forall j | 0 <= j < n :: 0 <= ws[j].row < size
    ensures WriteOutcome(ws, size) == WriteOutcome(ws[n..], size)
    decreases n
  {
    if n > 0 {
      var rest := ws[1..];
      assert forall j | 0 <= j < n - 1 :: rest[j] == ws[j + 1];
      OutcomeAfter(rest, size, n - 1);
      assert rest[n - 1..] == ws[n..];
    }
  }

  /**
   * Write 15, the second copy of bit 7, targets row size: every matrix makes
   * the format step fail there, after the first 15 writes took effect.
   */
  lemma FormatStepFails(size: int, bits: string)
    requires size >= 9 && |bits| == 15
    ensures WriteOutcome(FormatWrites(size, bits), size) == Err(RowOutOfRange(size))
    ensures Performed(FormatWrites(size, bits), size) == FormatWrites(size, bits)[..15]
  {
    var ws := FormatWrites(size, bits);
    FormatWritesIndex(size, bits);
    PerformedAfter(ws, size, 15);
    assert ws[15].row == size;
  }

  /** A write whose row lies in the matrix takes effect, and the rest decide the outcome. */
  lemma PerformedStep(ws: seq<Write>, size: int, n: nat)
    requires n < |ws| && 0 <= ws[n].row < size
    ensures Performed(ws[n..], size) == [ws[n]] + Performed(ws[n + 1..], size)
    ensures WriteOutcome(ws[n..], size) == WriteOutcome(ws[n + 1..], size)
  {
    assert ws[n..][1..] == ws[n + 1..];
  }

  /** The first n writes took effect and the rest are still to come. */
  ghost predicate Pending(ws: seq<Write>, size: int, n: nat)
    requires n <= |ws|
  {
    Performed(ws, size) == ws[..n] + Performed(ws[n..], size) && WriteOutcome(ws, size) == WriteOutcome(ws[n..], size)
  }

  /** The first n writes took effect and write n failed. */
  ghost predicate Stopped(ws: seq<Write>, size: int, n: nat)
    requires n < |ws|
  {
    Performed(ws, size) == ws[..n] && WriteOutcome(ws, size) == Err(RowOutOfRange(ws[n].row))
  }

  /** No writes take effect and none fails. */
  lemma PerformedNone(ws: seq<Write>, size: int)
    ensures |ws| == 0 ==> Performed(ws, size) == [] && WriteOutcome(ws, size) == Ok(())
  {
  }

  /** A write whose row lies outside the matrix stops the writes with that row as the error. */
  lemma PerformedStop(ws: seq<Write>, size: int, n: nat)
    requires n < |ws| && !(0 <= ws[n].row < size)
    ensures Performed(ws[n..], size) == []
    ensures WriteOutcome(ws[n..], size) == Err(RowOutOfRange(ws[n].row))
  {
  }

  /** A cell takes the value of the last write to it. */
  lemma {:induction false} OverlayLast(ws: seq<Write>, k: nat, base: bool)
    requires k < |ws|
    requires forall j | k < j < |ws| :: ws[j].row != ws[k].row || ws[j].col != ws[k].col
    ensures Overlay(ws, ws[k].row, ws[k].col, base) == ws[k].dark
    decreases |ws|
  {
    if k < |ws| - 1 {
      OverlayLast(ws[..|ws| - 1], k, base);
    }
  }

  /**
   * What the 15 writes that take effect leave in the matrix: bits 0..5 and
   * 6, 7 in row 8 left of column 9 (skipping column 6), and bits 6, 5..1
   * up column 8 from the bottom row; bit 0's second copy is overwritten by
   * bit 6's. Every other cell keeps its value.
   */
  lemma FormatCells(size: int, bits: string, x: int, y: int, base: bool)
    requires size >= 15 && |bits| == 15
    ensures Overlay(FormatWrites(size, bits)[..15], x, y, base) ==
      if x == 8 && 0 <= y < 6 then bits[y] == '1'
      else if x == 8 && y == 7 then bits[6] == '1'
      else if x == 8 && y == 8 then bits[7] == '1'
      else if x == size - 1 && y == 8 then bits[6] == '1'
      else if size - 6 <= x <= size - 2 && y == 8 then bits[size - 1 - x] == '1'
      else base
  {
    var ws := FormatWrites(size, bits)[..15];
    FormatWritesIndex(size, bits);
    if x == 8 && 0 <= y < 6 {
      OverlayLast(ws, 2 * y, base);
    } else if x == 8 && y == 7 {
      OverlayLast(ws, 12, base);
    } else if x == 8 && y == 8 {
      OverlayLast(ws, 14, base);
    } else if x == size - 1 && y == 8 {
      OverlayLast(ws, 13, base);
    } else if size - 6 <= x <= size - 2 && y == 8 {
      OverlayLast(ws, 2 * (size - 1 - x) + 1, base);
    } else {
      OverlayUntouched(ws, x, y, base);
    }
  }

  // ---------------------------------------------------------------------------
  // Version choice
  // ---------------------------------------------------------------------------

  /**
   * getEncodedDataLength: the payload size estimated from the length alone,
   * by the packing rule of the mode; any mode other than numeric and
   * alphanumeric is estimated at 8 bits per character.
   */
  function GetEncodedDataLength(data: string, mode: QRMode): int {
    var n := |data|;
    match mode
    case Numeric => (n + 2) / 3 * 10 - (if n % 3 == 1 then 6 else if n % 3 == 2 then 3 else 0)
    case Alphanumeric => (n + 1) / 2 * 11 - (if n % 2 == 1 then 5 else 0)
    case Byte => n * 8
    case Kanji => n * 8
  }

  /**
   * The estimate is exact: for every mode with an encoder, and characters the
   * mode can carry, it is the length of the payload the encoder produces.
   */
  lemma EncodedDataLengthExact(data: string, mode: QRMode)
    requires mode != Kanji
    requires mode == Numeric ==> AllDigits(data)
    requires mode == Alphanumeric ==> AllAlphanumeric(data)
    requires mode == Byte ==> AllBytes(data)
    ensures GetEncodedDataLength(data, mode) == |EncodedBits(data, mode).value|
  {
    var n := |data|;
    match mode
    case Numeric =>
      NumericBitsLength(data);
      assert (n + 2) / 3 == n / 3 + (if n % 3 == 0 then 0 else 1);
    case Alphanumeric =>
      AlphanumericBitsLength(data);
      assert (n + 1) / 2 == n / 2 + n % 2;
    case Byte =>
      ByteBitsLength(data);
  }

  /** The bits findMinimumVersion asks for: mode indicator, a version-1 count field, and the estimated payload. */
  function RequiredBits(data: string, mode: QRMode): int {
    4 + GetCharCountLength(mode, 1) + GetEncodedDataLength(data, mode)
  }

  /**
   * For text of byte-range characters, the estimate under the chosen mode
   * falls short of the real stream of version v by exactly the growth of the
   * count field from version 1 to v: it is exact up to version 9 and short by
   * 2 to 8 bits from version 10 on.
   */
  lemma RequiredBitsShortfall(data: string, version: int)
    requires AllBytes(data)
    requires |data| < Pow2(GetCharCountLength(GetBestMode(data), version))
    ensures var mode := GetBestMode(data);
      |DataString(data, mode, version).value|
        == RequiredBits(data, mode) + GetCharCountLength(mode, version) - GetCharCountLength(mode, 1)
    ensures version <= 9 ==> |DataString(data, GetBestMode(data), version).value| == RequiredBits(data, GetBestMode(data))
    ensures version >= 10 ==> |DataString(data, GetBestMode(data), version).value| > RequiredBits(data, GetBestMode(data))
  {
    var mode := GetBestMode(data);
    BestModeCharacterization(data);
    DataStringLayout(data, mode, version);
    EncodedDataLengthExact(data, mode);
  }

  /** Bits of data capacity of a version: eight per data codeword. */
  function Capacity(version: int): (bits: nat)
    requires 1 <= version <= 40
  {
    VersionTableShape();
    8 * VERSION_INFO[version - 1].dataCodewords
  }

  /** A larger version never holds fewer data bits. */
  lemma CapacityMonotone(v: int, w: int)
    requires 1 <= v <= w <= 40
    ensures Capacity(v) <= Capacity(w)
  {
    if v < w {
      DataCodewordsIncreasing(v - 1, w - 1);
      assert Capacity(v) == 8 * VERSION_INFO[v - 1].dataCodewords;
      assert Capacity(w) == 8 * VERSION_INFO[w - 1].dataCodewords;
    }
  }

  /** The scan of findMinimumVersion from `version` upwards. */
  function FirstFit(version: int, required: int): Result<int>
    requires 1 <= version <= 41
    decreases 41 - version
  {
    if version > 40 then Err(DataTooLarge)
    else if Capacity(version) >= required then Ok(version)
    else FirstFit(version + 1, required)
  }

  /** findMinimumVersion: a requested version is taken as it is; version 0 asks for the scan. */
  function MinimumVersion(requested: int, required: int): Result<int> {
    if requested > 0 then Ok(requested) else FirstFit(1, required)
  }

  lemma {:induction false} FirstFitFacts(version: int, required: int)
    requires 1 <= version <= 41
    requires forall v | 1 <= v < version :: Capacity(v) < required
    ensures var r := FirstFit(version, required);
      (r.Ok? ==> (version <= r.value <= 40 && Capacity(r.value) >= required
        && forall v | 1 <= v < r.value :: Capacity(v) < required))
      && (r.Err? ==> r.error == DataTooLarge && forall v | 1 <= v <= 40 :: Capacity(v) < required)
    decreases 41 - version
  {
    if version <= 40 && Capacity(version) < required {
      FirstFitFacts(version + 1, required);
    }
  }

  /**
   * Automatic choice gives the smallest version whose data capacity holds the
   * required bits, and fails with DataTooLarge exactly when even version 40
   * is too small.
   */
  lemma MinimumVersionSpec(required: int)
    ensures var r := MinimumVersion(0, required);
      (r.Ok? ==> (1 <= r.value <= 40 && Capacity(r.value) >= required
        && forall v | 1 <= v < r.value :: Capacity(v) < required))
      && (r.Err? <==> Capacity(40) < required)
      && (r.Err? ==> r.error == DataTooLarge)
  {
    FirstFitFacts(1, required);
    var r := MinimumVersion(0, required);
    if r.Ok? && Capacity(40) < required {
      CapacityMonotone(r.value, 40);
    }
  }

  // ---------------------------------------------------------------------------
  // The pipeline
  // ---------------------------------------------------------------------------

  /** `VERSION_INFO[version - 1]`, the table row of a version. */
  function VersionRow(version: int): (info: VersionInfo)
    requires 1 <= version <= 40
    ensures 8 * info.dataCodewords == Capacity(version)
    ensures info.size == SizeOf(version)
  {
    VersionTableShape();
    VERSION_INFO[version - 1]
  }

  /** A byte as a field element, keeping its value (counted up one step at a time). */
  function ToBv8(x: byte): (v: bv8)
    ensures v as int == x
  {
    if x == 0 then 0 else ToBv8(x - 1) + 1
  }

  function AsBv8(bytes: seq<byte>): (b: seq<bv8>)
    ensures |b| == |bytes| && forall i | 0 <= i < |b| :: b[i] as int == bytes[i]
  {
    seq(|bytes|, i requires 0 <= i < |bytes| => ToBv8(bytes[i]))
  }

  function AsBytes(b: seq<bv8>): (bytes: seq<byte>)
    ensures |bytes| == |b| && forall i | 0 <= i < |b| :: bytes[i] == b[i] as int
  {
    seq(|b|, i requires 0 <= i < |b| => b[i] as int)
  }

  /** The stream for `data` at `version`, padded to the data capacity and packed into bytes. */
  function DataCodewords(data: string, version: int): seq<byte>
    requires 1 <= version <= 40
    requires |DataString(data, GetBestMode(data), version).value| <= Capacity(version)
  {
    var mode := GetBestMode(data);
    var stream := DataString(data, mode, version).value;
    BestModeCharacterization(data);
    DataStringIsBits(data, mode, version);
    PaddedFits(stream, Capacity(version));
    PaddedIsBits(stream, Capacity(version));
    BytesOf(Padded(stream, Capacity(version)).value)
  }

  /**
   * The error `generate` throws for `data` under `options`: no version fits,
   * the requested version has no table row, the stream overflows the chosen
   * version's capacity (the padding step's negative repeat), or else the
   * format step's write into row `size`.
   */
  function GenerateError(options: QRCodeOptions, data: string): Error {
    var mode := GetBestMode(data);
    match MinimumVersion(options.version, RequiredBits(data, mode))
    case Err(e) => e
    case Ok(version) =>
      if !(1 <= version <= 40) then InvalidVersion(version)
      else
        var stream := DataString(data, mode, version).value;
        if |stream| > Capacity(version) then NegativeRepeat(Capacity(version) - |stream|)
        else RowOutOfRange(SizeOf(version))
  }

  /**
   * What `generate` throws, by input: a requested version above 40 is
   * invalid; automatic choice fails exactly when version 40 cannot hold the
   * estimate; any stream that fits the chosen version reaches the format
   * step and fails there.
   */
  lemma GenerateErrorCases(options: QRCodeOptions, data: string)
    ensures options.version > 40 ==> GenerateError(options, data) == InvalidVersion(options.version)
    ensures options.version <= 0 ==>
      (GenerateError(options, data) == DataTooLarge <==> Capacity(40) < RequiredBits(data, GetBestMode(data)))
    ensures 1 <= options.version <= 40 ==>
      var stream := DataString(data, GetBestMode(data), options.version).value;
      GenerateError(options, data) == if |stream| <= Capacity(options.version)
        then RowOutOfRange(SizeOf(options.version))
        else NegativeRepeat(Capacity(options.version) - |stream|)
  {
    MinimumVersionSpec(RequiredBits(data, GetBestMode(data)));
  }

  /**
   * Automatic choice for text of byte-range characters that picks a version
   * up to 9 always gets as far as the format step: the estimate is exact
   * there, so the stream fits.
   */
  lemma SmallSymbolsReachFormatStep(options: QRCodeOptions, data: string, version: int)
    requires options.version <= 0 && AllBytes(data)
    requires MinimumVersion(options.version, RequiredBits(data, GetBestMode(data))) == Ok(version)
    requires 1 <= version <= 9
    requires |data| < Pow2(GetCharCountLength(GetBestMode(data), version))
    ensures GenerateError(options, data) == RowOutOfRange(SizeOf(version))
  {
    MinimumVersionSpec(RequiredBits(data, GetBestMode(data)));
    RequiredBitsShortfall(data, version);
  }

  /** Versions 9 and 10 hold 232 and 274 data codewords. */
  lemma CapacityOfVersions9And10()
    ensures Capacity(9) == 1856 && Capacity(10) == 2192
  {
    VersionTableShape();
  }

  /** 2188 bits first fit version 10. */
  lemma FirstFitAtVersion10()
    ensures FirstFit(1, 2188) == Ok(10)
  {
    CapacityOfVersions9And10();
    FirstFitFacts(1, 2188);
    var r := FirstFit(1, 2188);
    if r.Ok? && r.value < 10 {
      CapacityMonotone(r.value, 9);
    }
  }

  /** 272 lowercase letters: byte mode, 2188 bits by the estimate, 2196 in the version-10 stream. */
  lemma LowercaseBitCounts(data: string)
    requires |data| == 272 && forall i | 0 <= i < |data| :: data[i] == 'a'
    ensures GetBestMode(data) == Byte
    ensures RequiredBits(data, Byte) == 2188
    ensures |DataString(data, Byte, 10).value| == 2196
  {
    LowercaseNeedsByteMode(data);
    ByteBitsLength(data);
    ToBinaryWidth(272, 16);
  }

  /**
   * The shortfall shows at version 10: 272 lowercase letters need 2188 bits
   * by the estimate, which version 10 (2192 data bits) holds, but the real
   * stream carries a 16-bit count field and is 2196 bits long, so the
   * padding step throws rather than version 11 being chosen.
   */
  lemma AutomaticChoiceOverflows(data: string)
    requires |data| == 272 && forall i | 0 <= i < |data| :: data[i] == 'a'
    ensures MinimumVersion(0, RequiredBits(data, GetBestMode(data))) == Ok(10)
      && GenerateError(QRCodeOptions(M, 0), data) == NegativeRepeat(-4)
  {
    LowercaseBitCounts(data);
    FirstFitAtVersion10();
    CapacityOfVersions9And10();
  }

  // ---------------------------------------------------------------------------
  // The generator
  // ---------------------------------------------------------------------------

  datatype Option<T> = None | Some(value: T)

  class QRGenerator {
    /** Level and version; the version is 0 when it is to be chosen from the data. */
    var options: QRCodeOptions

    /** Missing options take their defaults: level M, version 0. */
    constructor(errorCorrectionLevel: Option<ErrorCorrectionLevel>, version: Option<int>)
      ensures options.errorCorrectionLevel == if errorCorrectionLevel.Some? then errorCorrectionLevel.value else M
      ensures options.version == if version.Some? then version.value else 0
    {
      options := QRCodeOptions(
        if errorCorrectionLevel.Some? then errorCorrectionLevel.value else M,
        if version.Some? then version.value else 0);
    }

    /**
     * `generate`: mode, version, bit stream, padding, bytes, error
     * correction, matrix, mask, format information. The format step always
     * throws (the second copy of format bit 7 targets row `size`), so no call
     * returns a symbol; GenerateError names the error each input meets first.
     */
    method Generate(data: string) returns (r: Result<QRCodeData>)
      ensures r.Err? && r.error == GenerateError(options, data)
    {
      var mode := GetBestMode(data);
      BestModeCharacterization(data);
      var found := FindMinimumVersion(data, mode);
      if found.Err? {
        return Err(found.error);
      }
      var version := found.value;
      if !(1 <= version <= 40) {
        return Err(InvalidVersion(version));
      }
      var codewords := EncodeCodewords(data, mode, version);
      if codewords.Err? {
        return Err(codewords.error);
      }
      var error := DrawSymbol(codewords.value, version);
      r := Err(error);
    }

    /**
     * The middle of `generate`: the bit stream, padded to the version's data
     * capacity, packed into bytes and followed by its error correction bytes.
     * Padding fails, with the negative repeat count, when the stream
     * overflows the capacity.
     */
    static method EncodeCodewords(data: string, mode: QRMode, version: int) returns (r: Result<seq<byte>>)
      requires 1 <= version <= 40 && mode == GetBestMode(data)
      ensures var stream := DataString(data, mode, version).value;
        (r.Err? <==> |stream| > Capacity(version))
        && (r.Err? ==> r.error == NegativeRepeat(Capacity(version) - |stream|))
      ensures r.Ok? ==>
        var bytes := DataCodewords(data, version);
        r.value == bytes + AsBytes(ReedSolomon.Remainder(AsBv8(bytes), VersionRow(version).errorCorrectionCodewords))
    {
      var versionInfo := VersionRow(version);
      var padded := PackDataCodewords(data, mode, version);
      if padded.Err? {
        return Err(padded.error);
      }
      var dataBytes := padded.value;
      var errorCorrectionBytes := ReedSolomon.EncodeReedSolomon(AsBv8(dataBytes), versionInfo.errorCorrectionCodewords);
      r := Ok(dataBytes + AsBytes(errorCorrectionBytes));
    }

    /** The stream built, padded to the data capacity and packed into bytes. */
    static method PackDataCodewords(data: string, mode: QRMode, version: int) returns (r: Result<seq<byte>>)
      requires 1 <= version <= 40 && mode == GetBestMode(data)
      ensures var stream := DataString(data, mode, version).value;
        (r.Err? <==> |stream| > Capacity(version))
        && (r.Err? ==> r.error == NegativeRepeat(Capacity(version) - |stream|))
      ensures r.Ok? ==> r.value == DataCodewords(data, version)
    {
      BestModeCharacterization(data);
      var versionInfo := VersionRow(version);
      var dataString := CreateDataString(data, mode, version);
      var totalDataBits := versionInfo.dataCodewords * 8;
      assert totalDataBits == Capacity(version);
      var paddedData := AddPadding(dataString.value, totalDataBits);
      PaddedFits(dataString.value, totalDataBits);
      if paddedData.Err? {
        return Err(paddedData.error);
      }
      DataStringIsBits(data, mode, version);
      PaddedIsBits(dataString.value, totalDataBits);
      var dataBytes := BitsToBytes(paddedData.value);
      r := Ok(dataBytes);
    }

    /**
     * The end of `generate`: the matrix with the codewords placed, the best
     * mask applied, then the format information, whose second copy of bit 7
     * targets row `size` and throws.
     */
    method DrawSymbol(finalData: seq<byte>, version: int) returns (error: Error)
      requires 1 <= version <= 40
      ensures error == RowOutOfRange(SizeOf(version))
    {
      var matrix := CreateMatrix(finalData, version);
      var bestMask := FindBestMask(matrix);
      var maskedMatrix := ApplyMask(matrix, bestMask);
      var formatted := AddFormatInformation(maskedMatrix.value, version, bestMask);
      error := formatted.error;
    }

    /**
     * `findMinimumVersion`: a positive requested version is returned as it
     * is; otherwise the versions are scanned upwards for the first whose
     * data capacity holds RequiredBits.
     */
    method FindMinimumVersion(data: string, mode: QRMode) returns (r: Result<int>)
      ensures r == MinimumVersion(options.version, RequiredBits(data, mode))
    {
      if options.version > 0 {
        return Ok(options.version);
      }
      var modeIndicatorLength := 4;
      var charCountLength := GetCharCountLength(mode, 1);
      var encodedDataLength := GetEncodedDataLength(data, mode);
      var requiredBits := modeIndicatorLength + charCountLength + encodedDataLength;
      r := ScanVersions(requiredBits);
    }

    /** The upward scan of findMinimumVersion: the first version whose capacity holds `requiredBits`. */
    static method ScanVersions(requiredBits: int) returns (r: Result<int>)
      ensures r == FirstFit(1, requiredBits)
    {
      for version := 1 to 41
        invariant FirstFit(version, requiredBits) == FirstFit(1, requiredBits)
      {
        var availableBits := AvailableBits(version);
        if availableBits >= requiredBits {
          return Ok(version);
        }
      }
      return Err(DataTooLarge);
    }

    /** `VERSION_INFO[version - 1].dataCodewords * 8`: the data capacity the scan compares against. */
    static method AvailableBits(version: int) returns (bits: int)
      requires 1 <= version <= 40
      ensures bits == Capacity(version)
    {
      bits := VersionRow(version).dataCodewords * 8;
    }

    /**
     * `addFormatInformation`: the format bits for the generator's level and
     * the mask, written in two copies. The second copy of bit 7 targets row
     * size, so the step always fails there, with the first 15 writes done.
     */
    method AddFormatInformation(matrix: array2<bool>, version: int, maskPattern: int) returns (r: Result<()>)
      requires matrix.Length0 == matrix.Length1 && matrix.Length0 >= 9
      modifies matrix
      ensures r == Err(RowOutOfRange(matrix.Length0))
      ensures var ws := FormatWrites(matrix.Length0, FormatBits(options.errorCorrectionLevel, maskPattern));
        forall x, y | 0 <= x < matrix.Length0 && 0 <= y < matrix.Length0 ::
          matrix[x, y] == Overlay(ws[..15], x, y, old(matrix[x, y]))
    {
      var formatBits := FormatBits(options.errorCorrectionLevel, maskPattern);
      ghost var orig := Cells(matrix);
      r := PlaceFormatBits(matrix, formatBits);
      FormatStepFails(matrix.Length0, formatBits);
    }

    /** The loop of addFormatInformation: the writes of FormatWrites, in order, until one falls outside the matrix. */
    method PlaceFormatBits(matrix: array2<bool>, formatBits: string) returns (r: Result<()>)
      requires matrix.Length0 == matrix.Length1 && matrix.Length0 >= 9 && |formatBits| == 15
      modifies matrix
      ensures var ws := FormatWrites(matrix.Length0, formatBits);
        r == WriteOutcome(ws, matrix.Length0)
        && Holds(matrix, Performed(ws, matrix.Length0), old(Cells(matrix)), matrix.Length0)
    {
      var size := matrix.Length0;
      ghost var ws := FormatWrites(size, formatBits);
      ghost var orig := Cells(matrix);
      r := Ok(());
      for i := 0 to 15
        invariant r == Ok(()) && Pending(ws, size, 2 * i) && Holds(matrix, ws[..2 * i], orig, size)
      {
        r := PlaceFormatPair(matrix, formatBits, i, ws, orig);
        if r.Err? {
          return;
        }
      }
      PerformedNone(ws[30..], size);
      assert ws[..30] + [] == ws[..30];
    }

    /** One turn of the format loop: both copies of format bit i, writes 2i and 2i + 1 of `ws`. */
    method PlaceFormatPair(matrix: array2<bool>, formatBits: string, i: nat, ghost ws: seq<Write>, ghost orig: Grid)
      returns (r: Result<()>)
      requires matrix.Length0 == matrix.Length1 && matrix.Length0 >= 9 && |formatBits| == 15 && i < 15
      requires ws == FormatWrites(matrix.Length0, formatBits) && IsSquare(orig, matrix.Length0)
      requires Pending(ws, matrix.Length0, 2 * i) && Holds(matrix, ws[..2 * i], orig, matrix.Length0)
      modifies matrix
      ensures r.Ok? ==> r == Ok(()) && Pending(ws, matrix.Length0, 2 * i + 2) && Holds(matrix, ws[..2 * i + 2], orig, matrix.Length0)
      ensures r.Err? ==> r == WriteOutcome(ws, matrix.Length0) && Holds(matrix, Performed(ws, matrix.Length0), orig, matrix.Length0)
    {
      var size := matrix.Length0;
      var first := FormatCopy(size, formatBits, i, false);
      var second := FormatCopy(size, formatBits, i, true);
      FormatPairsAt(size, formatBits, |formatBits|, i);
      r := AssignCell(matrix, first.row, first.col, first.dark, ws, 2 * i, orig);
      if r.Err? {
        return;
      }
      r := AssignCell(matrix, second.row, second.col, second.dark, ws, 2 * i + 1, orig);
    }

    /**
     * The assignment `matrix[row][col] = dark`, write n of `ws`. A row
     * outside the matrix makes `matrix[row]` undefined and the assignment
     * throws; otherwise the write takes effect.
     */
    method AssignCell(matrix: array2<bool>, row: int, col: int, dark: bool, ghost ws: seq<Write>, ghost n: nat, ghost orig: Grid)
      returns (r: Result<()>)
      requires matrix.Length0 == matrix.Length1 && IsSquare(orig, matrix.Length0)
      requires 0 <= row < matrix.Length0 ==> 0 <= col < matrix.Length0
      requires n < |ws| && ws[n] == Write(row, col, dark)
      requires Pending(ws, matrix.Length0, n) && Holds(matrix, ws[..n], orig, matrix.Length0)
      modifies matrix
      ensures r == if 0 <= row < matrix.Length0 then Ok(()) else Err(RowOutOfRange(row))
      ensures r.Ok? ==> Pending(ws, matrix.Length0, n + 1) && Holds(matrix, ws[..n + 1], orig, matrix.Length0)
      ensures r.Err? ==> Stopped(ws, matrix.Length0, n) && Holds(matrix, ws[..n], orig, matrix.Length0)
    {
      if !(0 <= row < matrix.Length0) {
        PerformedStop(ws, matrix.Length0, n);
        return Err(RowOutOfRange(row));
      }
      PerformedStep(ws, matrix.Length0, n);
      OverlaySnoc(ws[..n], Write(row, col, dark));
      assert ws[..n + 1] == ws[..n] + [ws[n]];
      matrix[row, col] := dark;
      r := Ok(());
    }

    /**
     * `createMatrix`: an all-light matrix of the version's side with the
     * function patterns drawn in source order, then the data placed over
     * them.
     */
    method CreateMatrix(data: seq<byte>, version: int) returns (matrix: array2<bool>)
      requires 1 <= version <= 40
      ensures fresh(matrix)
      ensures matrix.Length0 == SizeOf(version) && matrix.Length1 == SizeOf(version)
      ensures forall x, y | InGrid(x, y, SizeOf(version)) ::
        matrix[x, y] == Overlay(PlacementWrites(FreeCells(SizeOf(version)), data), x, y, Template(version, x, y))
    {
      var size := VersionSize(version);
      matrix := new bool[size, size]((i, j) => false);
      DrawTemplate(matrix, version, size);
      PlaceData(matrix, data, size);
    }

    /** Finders, separators and timing lines drawn on an all-light matrix. */
    method DrawTimed(matrix: array2<bool>, size: int)
      requires matrix.Length0 == size && matrix.Length1 == size && size >= 7
      requires forall x, y | 0 <= x < size && 0 <= y < size :: !matrix[x, y]
      modifies matrix
      ensures forall x, y | InGrid(x, y, size) :: matrix[x, y] == Timed(size, x, y)
    {
      AddFinderPatterns(matrix, size);
      AddSeparators(matrix, size);
      AddTimingPatterns(matrix, size);
    }

    /** The whole function-pattern template of `version`, drawn on an all-light matrix. */
    method DrawTemplate(matrix: array2<bool>, version: int, size: int)
      requires 1 <= version <= 40 && size == SizeOf(version)
      requires matrix.Length0 == size && matrix.Length1 == size
      requires forall x, y | 0 <= x < size && 0 <= y < size :: !matrix[x, y]
      modifies matrix
      ensures forall x, y | InGrid(x, y, size) :: matrix[x, y] == Template(version, x, y)
    {
      DrawTimed(matrix, size);
      DrawAligned(matrix, version, size);
      SetDarkModule(matrix, version, size);
    }

    /** The alignment patterns drawn over the timed matrix (none in version 1). */
    method DrawAligned(matrix: array2<bool>, version: int, size: int)
      requires 1 <= version <= 40
      requires matrix.Length0 == size && matrix.Length1 == size
      requires forall x, y | InGrid(x, y, size) :: matrix[x, y] == Timed(size, x, y)
      modifies matrix
      ensures forall x, y | InGrid(x, y, size) ::
        matrix[x, y] == Aligned(AlignmentPositions(version), size, version, x, y)
    {
      if version > 1 {
        AddAlignmentPatterns(matrix, version);
      }
    }

    /** The always-dark module beside the lower-left finder, from version 2 on. */
    method SetDarkModule(matrix: array2<bool>, version: int, size: int)
      requires 1 <= version <= 40 && size == SizeOf(version)
      requires matrix.Length0 == size && matrix.Length1 == size
      requires forall x, y | InGrid(x, y, size) ::
        matrix[x, y] == Aligned(AlignmentPositions(version), size, version, x, y)
      modifies matrix
      ensures forall x, y | InGrid(x, y, size) :: matrix[x, y] == Template(version, x, y)
    {
      if version >= 2 {
        matrix[4 * version + 9, 8] := true;
      }
    }

    /** `VERSION_INFO[version - 1].size`: the side the table gives a version. */
    static method VersionSize(version: int) returns (size: int)
      requires 1 <= version <= 40
      ensures size == SizeOf(version)
    {
      VersionTableShape();
      size := VERSION_INFO[version - 1].size;
    }

    /** addFinderPatterns: the 7 x 7 template at each of the three corners, in order. */
    method AddFinderPatterns(matrix: array2<bool>, size: int)
      requires matrix.Length0 == size && matrix.Length1 == size && size >= 7
      modifies matrix
      ensures forall x, y | 0 <= x < size && 0 <= y < size ::
        matrix[x, y] == FinderStamp(size, 3, x, y, old(matrix[x, y]))
    {
      var positions := FinderOrigins(size);
      for o := 0 to 3
        invariant forall x, y | 0 <= x < size && 0 <= y < size ::
          matrix[x, y] == FinderStamp(size, o, x, y, old(matrix[x, y]))
      {
        var (row, col) := positions[o];
        DrawFinder(matrix, row, col);
      }
    }

    /** One 7 x 7 finder template with its top-left corner at (row, col). */
    method DrawFinder(matrix: array2<bool>, row: int, col: int)
      requires 0 <= row && row + 7 <= matrix.Length0 && 0 <= col && col + 7 <= matrix.Length1
      modifies matrix
      ensures forall x, y | 0 <= x < matrix.Length0 && 0 <= y < matrix.Length1 ::
        matrix[x, y] == if InBox(x, y, row, col, 7) then FinderDark(x - row, y - col) else old(matrix[x, y])
    {
      for i := 0 to 7
        invariant forall x, y | 0 <= x < matrix.Length0 && 0 <= y < matrix.Length1 ::
          matrix[x, y] ==
            if InBox(x, y, row, col, 7) && x < row + i then FinderDark(x - row, y - col)
            else old(matrix[x, y])
      {
        for j := 0 to 7
          invariant forall x, y | 0 <= x < matrix.Length0 && 0 <= y < matrix.Length1 ::
            matrix[x, y] ==
              if InBox(x, y, row, col, 7) && (x < row + i || (x == row + i && y < col + j)) then FinderDark(x - row, y - col)
              else old(matrix[x, y])
        {
          FinderTemplate(i, j);
          matrix[row + i, col + j] := FINDER_PATTERN[i][j] == 1;
        }
      }
    }

    /** addSeparators: clear offset row 7 and offset column 7 of each 8 x 8 footprint, inside the matrix. */
    method AddSeparators(matrix: array2<bool>, size: int)
      requires matrix.Length0 == size && matrix.Length1 == size
      modifies matrix
      ensures forall x, y | 0 <= x < size && 0 <= y < size ::
        matrix[x, y] == SeparatorStamp(size, 3, x, y, old(matrix[x, y]))
    {
      var positions := SeparatorOrigins(size);
      for o := 0 to 3
        invariant forall x, y | 0 <= x < size && 0 <= y < size ::
          matrix[x, y] == SeparatorStamp(size, o, x, y, old(matrix[x, y]))
      {
        var (row, col) := positions[o];
        for i := 0 to 8
          invariant forall x, y | 0 <= x < size && 0 <= y < size ::
            matrix[x, y] ==
              if SeparatorEdge(x, y, row, col) && x < row + i then false
              else SeparatorStamp(size, o, x, y, old(matrix[x, y]))
        {
          for j := 0 to 8
            invariant forall x, y | 0 <= x < size && 0 <= y < size ::
              matrix[x, y] ==
                if SeparatorEdge(x, y, row, col) && (x < row + i || (x == row + i && y < col + j)) then false
                else SeparatorStamp(size, o, x, y, old(matrix[x, y]))
          {
            if i == 7 || j == 7 {
              if row + i < size && col + j < size && row + i >= 0 && col + j >= 0 {
                matrix[row + i, col + j] := false;
              }
            }
          }
        }
      }
    }

    /** addTimingPatterns: row 6, then column 6, from index 8 up to size - 9, dark on even indices. */
    method AddTimingPatterns(matrix: array2<bool>, size: int)
      requires matrix.Length0 == size && matrix.Length1 == size
      modifies matrix
      ensures forall x, y | 0 <= x < size && 0 <= y < size ::
        matrix[x, y] == TimingStamp(size, x, y, old(matrix[x, y]))
    {
      var i := 8;
      while i < size - 8
        invariant 8 <= i
        invariant forall x, y | 0 <= x < size && 0 <= y < size ::
          matrix[x, y] == if x == 6 && 8 <= y < i && y < size - 8 then y % 2 == 0 else old(matrix[x, y])
        decreases size - i
      {
        matrix[6, i] := i % 2 == 0;
        i := i + 1;
      }
      i := 8;
      while i < size - 8
        invariant 8 <= i
        invariant forall x, y | 0 <= x < size && 0 <= y < size ::
          matrix[x, y] ==
            if y == 6 && 8 <= x < i && x < size - 8 then x % 2 == 0
            else if x == 6 && 8 <= y < size - 8 then y % 2 == 0
            else old(matrix[x, y])
        decreases size - i
      {
        matrix[i, 6] := i % 2 == 0;
        i := i + 1;
      }
    }

    /**
     * addAlignmentPatterns: for every pair of centres from the version's
     * list, row-major, outside the finder areas, the 5 x 5 pattern, clipped
     * to the matrix.
     */
    method AddAlignmentPatterns(matrix: array2<bool>, version: int)
      requires 1 <= version <= 40 && matrix.Length0 == matrix.Length1
      modifies matrix
      ensures var pos := AlignmentPositions(version);
        forall x, y | 0 <= x < matrix.Length0 && 0 <= y < matrix.Length0 ::
          matrix[x, y] == AlignmentStamp(pos, matrix.Length0, |pos|, 0, x, y, old(matrix[x, y]))
    {
      var positions := AlignmentPositions(version);
      AddAlignmentPairs(matrix, positions);
    }

    /** The loops of addAlignmentPatterns over a given list of centres. */
    method AddAlignmentPairs(matrix: array2<bool>, positions: seq<int>)
      requires matrix.Length0 == matrix.Length1
      modifies matrix
      ensures forall x, y | 0 <= x < matrix.Length0 && 0 <= y < matrix.Length0 ::
        matrix[x, y] == AlignmentStamp(positions, matrix.Length0, |positions|, 0, x, y, old(matrix[x, y]))
    {
      var size := matrix.Length0;
      for a := 0 to |positions|
        invariant forall x, y | 0 <= x < size && 0 <= y < size ::
          matrix[x, y] == AlignmentStamp(positions, size, a, 0, x, y, old(matrix[x, y]))
      {
        var row := positions[a];
        for b := 0 to |positions|
          invariant forall x, y | 0 <= x < size && 0 <= y < size ::
            matrix[x, y] == AlignmentStamp(positions, size, a, b, x, y, old(matrix[x, y]))
        {
          var col := positions[b];
          if IsFinderPatternArea(row, col, size) {
            continue;
          }
          AddAlignmentBlock(matrix, row, col);
        }
      }
    }

    /** One 5 x 5 alignment pattern centred on (row, col), clipped to the matrix. */
    method AddAlignmentBlock(matrix: array2<bool>, row: int, col: int)
      requires matrix.Length0 == matrix.Length1
      modifies matrix
      ensures forall x, y | 0 <= x < matrix.Length0 && 0 <= y < matrix.Length0 ::
        matrix[x, y] == if NearCentre(x, y, row, col) then AlignmentDark(x - row, y - col) else old(matrix[x, y])
    {
      var size := matrix.Length0;
      for i := -2 to 3
        invariant forall x, y | 0 <= x < size && 0 <= y < size ::
          matrix[x, y] ==
            if NearCentre(x, y, row, col) && x < row + i then AlignmentDark(x - row, y - col)
            else old(matrix[x, y])
      {
        for j := -2 to 3
          invariant forall x, y | 0 <= x < size && 0 <= y < size ::
            matrix[x, y] ==
              if NearCentre(x, y, row, col) && (x < row + i || (x == row + i && y < col + j)) then AlignmentDark(x - row, y - col)
              else old(matrix[x, y])
        {
          var isDark := Abs(i) == 2 || Abs(j) == 2 || (i == 0 && j == 0);
          if row + i >= 0 && row + i < size && col + j >= 0 && col + j < size {
            matrix[row + i, col + j] := isDark;
          }
        }
      }
    }
    /**
     * placeData: column pairs from the right, skipping the timing column,
     * alternately bottom-up and top-down; every cell that is not occupied
     * takes the next bit of the codewords while bits last.
     */
    method PlaceData(matrix: array2<bool>, data: seq<byte>, size: int)
      requires matrix.Length0 == size && matrix.Length1 == size
      modifies matrix
      ensures forall x, y | 0 <= x < size && 0 <= y < size ::
        matrix[x, y] == Overlay(PlacementWrites(FreeCells(size), data), x, y, old(matrix[x, y]))
    {
      ghost var orig := Cells(matrix);
      var dataIndex := 0;
      var bitIndex := 7;
      var upward := true;
      ghost var free: seq<(int, int)> := [];
      ghost var writes: seq<Write> := [];
      var col := size - 1;
      while col > 0
        invariant col <= size - 1
        invariant FreeFrom(free, col, size, upward) == FreeCells(size)
        invariant Progress(free, writes, dataIndex, bitIndex, data)
        invariant Holds(matrix, writes, orig, size)
        decreases col
      {
        if col == 6 {
          col := col - 1;
        }
        dataIndex, bitIndex, writes := PlacePair(matrix, data, size, col, upward, dataIndex, bitIndex, free, writes, orig);
        free := PairFree(free, col, size, upward, size);
        upward := !upward;
        col := col - 2;
      }
    }

    /** The two inner loops of placeData: the column pair (col, col - 1), row by row in the given direction. */
    method PlacePair(matrix: array2<bool>, data: seq<byte>, size: int, col: int, upward: bool,
                     dataIndex: int, bitIndex: int, ghost free: seq<(int, int)>, ghost writes: seq<Write>, ghost orig: Grid)
      returns (nextDataIndex: int, nextBitIndex: int, ghost nextWrites: seq<Write>)
      requires matrix.Length0 == size && matrix.Length1 == size && 1 <= col < size && IsSquare(orig, size)
      requires Progress(free, writes, dataIndex, bitIndex, data)
      requires Holds(matrix, writes, orig, size)
      modifies matrix
      ensures Progress(PairFree(free, col, size, upward, size), nextWrites, nextDataIndex, nextBitIndex, data)
      ensures Holds(matrix, nextWrites, orig, size)
    {
      nextDataIndex, nextBitIndex, nextWrites := dataIndex, bitIndex, writes;
      for count := 0 to size
        invariant Progress(PairFree(free, col, size, upward, count), nextWrites, nextDataIndex, nextBitIndex, data)
        invariant Holds(matrix, nextWrites, orig, size)
      {
        var row := if upward then size - 1 - count else count;
        nextDataIndex, nextBitIndex, nextWrites :=
          PlaceRow(matrix, data, size, row, col, nextDataIndex, nextBitIndex, PairFree(free, col, size, upward, count), nextWrites, orig);
      }
    }

    /** placeData's innermost loop: the cells (row, col) and (row, col - 1), in that order. */
    method PlaceRow(matrix: array2<bool>, data: seq<byte>, size: int, row: int, col: int,
                    dataIndex: int, bitIndex: int, ghost free: seq<(int, int)>, ghost writes: seq<Write>, ghost orig: Grid)
      returns (nextDataIndex: int, nextBitIndex: int, ghost nextWrites: seq<Write>)
      requires matrix.Length0 == size && matrix.Length1 == size && 0 <= row < size && 1 <= col < size && IsSquare(orig, size)
      requires Progress(free, writes, dataIndex, bitIndex, data)
      requires Holds(matrix, writes, orig, size)
      modifies matrix
      ensures Progress(RowFree(free, row, col, size, 2), nextWrites, nextDataIndex, nextBitIndex, data)
      ensures Holds(matrix, nextWrites, orig, size)
    {
      nextDataIndex, nextBitIndex, nextWrites := dataIndex, bitIndex, writes;
      for c := 0 to 2
        invariant Progress(RowFree(free, row, col, size, c), nextWrites, nextDataIndex, nextBitIndex, data)
        invariant Holds(matrix, nextWrites, orig, size)
      {
        var currentCol := col - c;
        nextDataIndex, nextBitIndex, nextWrites :=
          VisitCell(matrix, data, size, row, currentCol, nextDataIndex, nextBitIndex, RowFree(free, row, col, size, c), nextWrites, orig);
      }
    }

    /**
     * The body of placeData's innermost loop for the cell (row, col): skip it
     * if it is occupied, otherwise write the next bit, if any, and advance
     * the bit position.
     */
    method VisitCell(matrix: array2<bool>, data: seq<byte>, size: int, row: int, col: int,
                     dataIndex: int, bitIndex: int, ghost free: seq<(int, int)>, ghost writes: seq<Write>, ghost orig: Grid)
      returns (nextDataIndex: int, nextBitIndex: int, ghost nextWrites: seq<Write>)
      requires matrix.Length0 == size && matrix.Length1 == size && InGrid(row, col, size) && IsSquare(orig, size)
      requires Progress(free, writes, dataIndex, bitIndex, data)
      requires Holds(matrix, writes, orig, size)
      modifies matrix
      ensures Progress(FreeStep(free, (row, col), size), nextWrites, nextDataIndex, nextBitIndex, data)
      ensures Holds(matrix, nextWrites, orig, size)
    {
      nextDataIndex, nextBitIndex, nextWrites := dataIndex, bitIndex, writes;
      if IsOccupied(row, col, size) {
        return;
      }
      if dataIndex < |data| {
        var bit := (data[dataIndex] / Pow2(bitIndex)) % 2;
        ProgressWrite(free, writes, dataIndex, bitIndex, data, (row, col));
        OverlaySnoc(writes, Write(row, col, bit == 1));
        matrix[row, col] := bit == 1;
        nextWrites := writes + [Write(row, col, bit == 1)];
        nextBitIndex := bitIndex - 1;
        if nextBitIndex < 0 {
          nextBitIndex := 7;
          nextDataIndex := dataIndex + 1;
        }
      } else {
        ProgressExhausted(free, writes, dataIndex, bitIndex, data, (row, col));
      }
    }
  }
}
