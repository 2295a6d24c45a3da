/**
 * Index arithmetic over a rows x cols Slitherlink grid. Borders live in one flat array:
 * each grid row contributes `cols` horizontal borders followed by `cols + 1` vertical
 * ones, and the bottom edge adds a final `cols` horizontal borders.
 */
module BoardTools {
  import opened Outcomes
  import opened Enums

  type Cell = (int, int)

  /**
   * (cols * 2 + 1) * row: the first index of the band of grid row `row`, by repeated
   * addition of the band length (RowStartIsProduct ties it to the product).
   */
  function RowStart(cols: int, row: int): int
    decreases if row < 0 then -row else row
  {
    if row == 0 then 0
    else if row > 0 then RowStart(cols, row - 1) + cols * 2 + 1
    else RowStart(cols, row + 1) - (cols * 2 + 1)
  }

  lemma {:induction false} RowStartIsProduct(cols: int, row: int)
    ensures RowStart(cols, row) == (cols * 2 + 1) * row
    decreases if row < 0 then -row else row
  {
    if row > 0 {
      RowStartIsProduct(cols, row - 1);
    } else if row < 0 {
      RowStartIsProduct(cols, row + 1);
    }
  }

  /** Consecutive bands are one band length apart. */
  lemma RowStartNext(cols: int, row: int)
    ensures RowStart(cols, row + 1) == RowStart(cols, row) + cols * 2 + 1
  {
  }

  /** Bands are laid out in increasing order, a full band length apart. */
  lemma {:induction false} RowStartMono(cols: int, r1: int, r2: int)
    requires cols >= 0 && r1 <= r2
    ensures RowStart(cols, r1) + (if r1 < r2 then cols * 2 + 1 else 0) <= RowStart(cols, r2)
    decreases r2 - r1
  {
    if r1 < r2 {
      RowStartMono(cols, r1, r2 - 1);
      RowStartNext(cols, r2 - 1);
    }
  }

  lemma RowStartNonNegative(cols: int, row: int)
    requires cols >= 0 && row >= 0
    ensures RowStart(cols, row) >= 0
  {
    RowStartMono(cols, 0, row);
  }

  /** Number of borders: the bands of all grid rows, then the bottom edge's `cols` borders. */
  function NumBorders(rows: int, cols: int): int
  {
    RowStart(cols, rows) + cols
  }

  /** (rows + 1) rows of horizontal borders and rows rows of vertical ones. */
  lemma NumBordersCount(rows: int, cols: int)
    ensures NumBorders(rows, cols) == (rows + 1) * cols + rows * (cols + 1)
  {
    RowStartIsProduct(cols, rows);
  }

  predicate IsValidCellIdx(rows: int, cols: int, row: int, col: int)
  {
    0 <= row < rows && 0 <= col < cols
  }

  predicate IsValidBorderIdx(rows: int, cols: int, b: int)
  {
    0 <= b < NumBorders(rows, cols)
  }

  /** Row of the cell one diagonal step from `row` towards `dxn`. */
  function DiagRow(row: int, dxn: DiagonalDirection): int
  {
    if dxn.IsUpper() then row - 1 else row + 1
  }

  /** Column of the cell one diagonal step from `col` towards `dxn`. */
  function DiagCol(col: int, dxn: DiagonalDirection): int
  {
    if dxn.IsLeft() then col - 1 else col + 1
  }

  /** The diagonally adjacent cell at a corner, or None when it is off the grid. */
  function CellIdxAtAdjCorner(rows: int, cols: int, row: int, col: int, dxn: DiagonalDirection): (r: Option<Cell>)
    ensures r.Some? <==> IsValidCellIdx(rows, cols, DiagRow(row, dxn), DiagCol(col, dxn))
    ensures r.Some? ==> r.value == (DiagRow(row, dxn), DiagCol(col, dxn))
  {
    var (targetRow, targetCol) :=
      match dxn
      case ULEFT => (row - 1, col - 1)
      case URIGHT => (row - 1, col + 1)
      case LRIGHT => (row + 1, col + 1)
      case LLEFT => (row + 1, col - 1);
    if !IsValidCellIdx(rows, cols, targetRow, targetCol) then None else Some((targetRow, targetCol))
  }

  /** The side facing `d` across a shared border. */
  function Facing(d: CardinalDirection): (r: CardinalDirection)
    ensures r != d
  {
    match d
    case TOP => BOT
    case RIGHT => LEFT
    case BOT => TOP
    case LEFT => RIGHT
  }

  /**
   * The in-grid cell across side d of (row, col), or None on the grid edge: the behaviour
   * every caller of BoardTools.getCellIdxOfAdjCell relies on. BoardTools defines no such
   * method, so this is the intended one.
   */
  function AdjCell(rows: int, cols: int, row: int, col: int, d: CardinalDirection): (r: Option<Cell>)
    ensures r.Some? ==> IsValidCellIdx(rows, cols, r.value.0, r.value.1)
  {
    var (adjRow, adjCol) :=
      match d
      case TOP => (row - 1, col)
      case RIGHT => (row, col + 1)
      case BOT => (row + 1, col)
      case LEFT => (row, col - 1);
    if IsValidCellIdx(rows, cols, adjRow, adjCol) then Some((adjRow, adjCol)) else None
  }

  /** Index of the border on side `d` of cell (row, col). */
  function BorderIdx(cols: int, row: int, col: int, d: CardinalDirection): int
  {
    var idx := RowStart(cols, row);
    match d
    case TOP => idx + col
    case LEFT => idx + cols + col
    case RIGHT => idx + cols + col + 1
    case BOT => idx + cols * 2 + 1 + col
  }

  /** The (TOP, RIGHT, BOT, LEFT) border indices of a cell. */
  function CellBorders(cols: int, row: int, col: int): (r: (int, int, int, int))
    ensures r.0 == BorderIdx(cols, row, col, TOP) && r.1 == BorderIdx(cols, row, col, RIGHT)
    ensures r.2 == BorderIdx(cols, row, col, BOT) && r.3 == BorderIdx(cols, row, col, LEFT)
  {
    (BorderIdx(cols, row, col, TOP), BorderIdx(cols, row, col, RIGHT),
     BorderIdx(cols, row, col, BOT), BorderIdx(cols, row, col, LEFT))
  }

  /** The four border indices of a cell as a sequence indexed by CardinalValue. */
  function CellBorderSeq(cols: int, row: int, col: int): (s: seq<int>)
    ensures |s| == 4
    ensures forall d :: s[CardinalValue(d)] == BorderIdx(cols, row, col, d)
  {
    [BorderIdx(cols, row, col, TOP), BorderIdx(cols, row, col, RIGHT),
     BorderIdx(cols, row, col, BOT), BorderIdx(cols, row, col, LEFT)]
  }

  /**
   * A border is horizontal when its offset inside its (cols * 2 + 1)-long band is below
   * cols; a negative index counts as horizontal.
   */
  predicate IsHorizontalIdx(cols: int, b: int)
    requires cols >= 0
    decreases b
  {
    b < cols || (b >= cols * 2 + 1 && IsHorizontalIdx(cols, b - (cols * 2 + 1)))
  }

  /** The threshold walk of the source: alternate horizontal and vertical runs up to the index. */
  method IsBorderHorizontal(cols: int, borderIdx: int) returns (isHorizontal: bool)
    requires cols >= 0
    ensures isHorizontal == IsHorizontalIdx(cols, borderIdx)
  {
    isHorizontal := true;
    var thresholdIdx := cols;
    ghost var q := 0;
    while thresholdIdx <= borderIdx
      invariant q >= 0 && (q == 0 || RowStart(cols, q) <= borderIdx)
      invariant IsHorizontalIdx(cols, borderIdx) == IsHorizontalIdx(cols, borderIdx - RowStart(cols, q))
      invariant isHorizontal ==> thresholdIdx == RowStart(cols, q) + cols
      invariant !isHorizontal ==> thresholdIdx == RowStart(cols, q) + cols * 2 + 1 && RowStart(cols, q) + cols <= borderIdx
      decreases 2 * (borderIdx - thresholdIdx) + (if isHorizontal then 0 else 1)
    {
      if isHorizontal {
        thresholdIdx := thresholdIdx + cols + 1;
      } else {
        RowStartNext(cols, q);
        thresholdIdx := thresholdIdx + cols;
        q := q + 1;
      }
      isHorizontal := !isHorizontal;
    }
  }

  lemma MulAtLeast(x: int, p: int)
    requires x >= 1 && p > 0
    ensures x * p >= p
  {
    var y := x - 1;
    assert x * p == y * p + p;
    assert y * p >= 0;
  }

  /** The horizontal test at offset m of band q. */
  lemma {:induction false} HorizontalAt(cols: int, q: int, m: int)
    requires cols >= 1 && q >= 0 && 0 <= m < cols * 2 + 1
    ensures IsHorizontalIdx(cols, RowStart(cols, q) + m) == (m < cols)
  {
    if q > 0 {
      RowStartNonNegative(cols, q - 1);
      HorizontalAt(cols, q - 1, m);
    }
  }

  /** The band and offset of a non-negative index. */
  function BandOf(cols: int, b: int): (r: (int, int))
    requires cols >= 0 && b >= 0
    ensures r.0 >= 0 && 0 <= r.1 < cols * 2 + 1 && RowStart(cols, r.0) + r.1 == b
    decreases b
  {
    if b < cols * 2 + 1 then (0, b)
    else
      var (q, m) := BandOf(cols, b - (cols * 2 + 1));
      RowStartNext(cols, q);
      (q + 1, m)
  }

  function Keep(ok: bool, x: int): (r: seq<int>)
    ensures |r| <= 1 && forall y | y in r :: ok && y == x
  {
    if ok then [x] else []
  }

  /** The candidates among three whose guards hold, in order. */
  function Keep3(g1: bool, x1: int, g2: bool, x2: int, g3: bool, x3: int): (r: seq<int>)
    ensures |r| <= 3
    ensures forall y | y in r :: (g1 && y == x1) || (g2 && y == x2) || (g3 && y == x3)
  {
    Keep(g1, x1) + Keep(g2, x2) + Keep(g3, x3)
  }

  /**
   * The borders touching each endpoint of border b: the left (horizontal b) or top
   * (vertical b) endpoint first, then the right or bottom one.
   */
  function ConnectedBorders(rows: int, cols: int, b: int): (r: (seq<int>, seq<int>))
    requires cols >= 1
    ensures |r.0| <= 3 && |r.1| <= 3
    ensures forall x | x in r.0 :: IsValidBorderIdx(rows, cols, x) && x != b
    ensures forall x | x in r.1 :: IsValidBorderIdx(rows, cols, x) && x != b
  {
    if IsHorizontalIdx(cols, b) then
      (Keep3(IsValidBorderIdx(rows, cols, b - (cols + 1)), b - (cols + 1),
             IsHorizontalIdx(cols, b - 1) && IsValidBorderIdx(rows, cols, b - 1), b - 1,
             IsValidBorderIdx(rows, cols, b + cols), b + cols),
       Keep3(IsValidBorderIdx(rows, cols, b - cols), b - cols,
             IsHorizontalIdx(cols, b + 1) && IsValidBorderIdx(rows, cols, b + 1), b + 1,
             IsValidBorderIdx(rows, cols, b + cols + 1), b + cols + 1))
    else
      (Keep3(IsValidBorderIdx(rows, cols, b - (cols + 1)) && IsHorizontalIdx(cols, b - (cols + 1)), b - (cols + 1),
             IsValidBorderIdx(rows, cols, b - (cols * 2 + 1)), b - (cols * 2 + 1),
             IsValidBorderIdx(rows, cols, b - cols) && IsHorizontalIdx(cols, b - cols), b - cols),
       Keep3(IsValidBorderIdx(rows, cols, b + cols) && IsHorizontalIdx(cols, b + cols), b + cols,
             IsValidBorderIdx(rows, cols, b + (cols * 2 + 1)), b + (cols * 2 + 1),
             IsValidBorderIdx(rows, cols, b + cols + 1) && IsHorizontalIdx(cols, b + cols + 1), b + cols + 1))
  }

  /** Both endpoint lists of a border, concatenated. */
  function ConnectedBordersList(rows: int, cols: int, b: int): (r: seq<int>)
    requires cols >= 1
    ensures |r| <= 6
    ensures forall x | x in r :: IsValidBorderIdx(rows, cols, x) && x != b
    ensures forall x :: x in r <==> x in ConnectedBorders(rows, cols, b).0 || x in ConnectedBorders(rows, cols, b).1
  {
    var conn := ConnectedBorders(rows, cols, b);
    conn.0 + conn.1
  }

  /**
   * Connection is symmetric: a border touching b at an endpoint has b among its own
   * connected borders.
   */
  lemma ConnectedSymmetric(rows: int, cols: int, b: int, x: int)
    requires cols >= 1 && IsValidBorderIdx(rows, cols, b) && x in ConnectedBordersList(rows, cols, b)
    ensures b in ConnectedBordersList(rows, cols, x)
  {
    var (q, m) := BandOf(cols, b);
    HorizontalIs(cols, q, m, b);
    ConnectedCandidates(rows, cols, b, x);
    if m < cols {
      HorizontalSymmetric(rows, cols, q, m, b, x);
    } else {
      VerticalSymmetric(rows, cols, q, m, b, x);
    }
  }

  /** The borders connected to b are the candidates of its orientation whose guards hold. */
  lemma ConnectedCandidates(rows: int, cols: int, b: int, x: int)
    requires cols >= 1 && x in ConnectedBordersList(rows, cols, b)
    ensures IsValidBorderIdx(rows, cols, x)
    ensures IsHorizontalIdx(cols, b) ==>
              || x == b - (cols + 1) || (x == b - 1 && IsHorizontalIdx(cols, x)) || x == b + cols
              || x == b - cols || (x == b + 1 && IsHorizontalIdx(cols, x)) || x == b + cols + 1
    ensures !IsHorizontalIdx(cols, b) ==>
              || (x == b - (cols + 1) && IsHorizontalIdx(cols, x)) || x == b - (cols * 2 + 1)
              || (x == b - cols && IsHorizontalIdx(cols, x)) || (x == b + cols && IsHorizontalIdx(cols, x))
              || x == b + cols * 2 + 1 || (x == b + cols + 1 && IsHorizontalIdx(cols, x))
  {
    if IsHorizontalIdx(cols, b) {
      HorizontalCandidates(rows, cols, b, x);
    } else {
      VerticalCandidates(rows, cols, b, x);
    }
  }

  lemma HorizontalCandidates(rows: int, cols: int, b: int, x: int)
    requires cols >= 1 && IsHorizontalIdx(cols, b) && x in ConnectedBordersList(rows, cols, b)
    ensures || x == b - (cols + 1) || (x == b - 1 && IsHorizontalIdx(cols, x)) || x == b + cols
            || x == b - cols || (x == b + 1 && IsHorizontalIdx(cols, x)) || x == b + cols + 1
  {
    var c := ConnectedBorders(rows, cols, b);
    var l := Keep3(IsValidBorderIdx(rows, cols, b - (cols + 1)), b - (cols + 1),
                   IsHorizontalIdx(cols, b - 1) && IsValidBorderIdx(rows, cols, b - 1), b - 1,
                   IsValidBorderIdx(rows, cols, b + cols), b + cols);
    var r := Keep3(IsValidBorderIdx(rows, cols, b - cols), b - cols,
                   IsHorizontalIdx(cols, b + 1) && IsValidBorderIdx(rows, cols, b + 1), b + 1,
                   IsValidBorderIdx(rows, cols, b + cols + 1), b + cols + 1);
    assert c == (l, r);
    assert x in l || x in r;
  }

  lemma VerticalCandidates(rows: int, cols: int, b: int, x: int)
    requires cols >= 1 && !IsHorizontalIdx(cols, b) && x in ConnectedBordersList(rows, cols, b)
    ensures || (x == b - (cols + 1) && IsHorizontalIdx(cols, x)) || x == b - (cols * 2 + 1)
            || (x == b - cols && IsHorizontalIdx(cols, x)) || (x == b + cols && IsHorizontalIdx(cols, x))
            || x == b + cols * 2 + 1 || (x == b + cols + 1 && IsHorizontalIdx(cols, x))
  {
    var c := ConnectedBorders(rows, cols, b);
    var g1 := IsHorizontalIdx(cols, b - (cols + 1));
    var g3 := IsHorizontalIdx(cols, b - cols);
    var g4 := IsHorizontalIdx(cols, b + cols);
    var g6 := IsHorizontalIdx(cols, b + cols + 1);
    var l := Keep3(IsValidBorderIdx(rows, cols, b - (cols + 1)) && g1, b - (cols + 1),
                   IsValidBorderIdx(rows, cols, b - (cols * 2 + 1)), b - (cols * 2 + 1),
                   IsValidBorderIdx(rows, cols, b - cols) && g3, b - cols);
    var r := Keep3(IsValidBorderIdx(rows, cols, b + cols) && g4, b + cols,
                   IsValidBorderIdx(rows, cols, b + (cols * 2 + 1)), b + (cols * 2 + 1),
                   IsValidBorderIdx(rows, cols, b + cols + 1) && g6, b + cols + 1);
    assert c == (l, r);
    assert x in l || x in r;
    if x == b - (cols + 1) {
      assert g1;
    } else if x == b - cols {
      assert g3;
    } else if x == b + cols {
      assert g4;
    } else if x == b + cols + 1 {
      assert g6;
    }
  }

  /** HorizontalAt for an index given by name. */
  lemma HorizontalIs(cols: int, q: int, m: int, y: int)
    requires cols >= 1 && q >= 0 && 0 <= m < cols * 2 + 1 && y == RowStart(cols, q) + m
    ensures IsHorizontalIdx(cols, y) == (m < cols)
  {
    HorizontalAt(cols, q, m);
  }

  /** The orientation of an index x in the band above b's, from its offset there. */
  lemma AboveBand(cols: int, q: int, m: int, b: int, x: int)
    requires cols >= 1 && q >= 1 && 0 <= m < cols * 2 + 1 && b == RowStart(cols, q) + m
    requires 0 <= m + (cols * 2 + 1) - (b - x) < cols * 2 + 1
    ensures IsHorizontalIdx(cols, x) == (m + (cols * 2 + 1) - (b - x) < cols)
  {
    RowStartNext(cols, q - 1);
    RowStartNonNegative(cols, q - 1);
    HorizontalIs(cols, q - 1, m + (cols * 2 + 1) - (b - x), x);
  }

  /** The orientation of an index x in b's band, from its offset there. */
  lemma SameBand(cols: int, q: int, m: int, b: int, x: int)
    requires cols >= 1 && q >= 0 && 0 <= m < cols * 2 + 1 && b == RowStart(cols, q) + m
    requires 0 <= m + (x - b) < cols * 2 + 1
    ensures IsHorizontalIdx(cols, x) == (m + (x - b) < cols)
  {
    HorizontalIs(cols, q, m + (x - b), x);
  }

  /** The orientation of an index x in the band below b's, from its offset there. */
  lemma BelowBand(cols: int, q: int, m: int, b: int, x: int)
    requires cols >= 1 && q >= 0 && 0 <= m < cols * 2 + 1 && b == RowStart(cols, q) + m
    requires 0 <= m + (x - b) - (cols * 2 + 1) < cols * 2 + 1
    ensures IsHorizontalIdx(cols, x) == (m + (x - b) - (cols * 2 + 1) < cols)
  {
    RowStartNext(cols, q);
    RowStartNonNegative(cols, q);
    HorizontalIs(cols, q + 1, m + (x - b) - (cols * 2 + 1), x);
  }

  /** A candidate at the left endpoint of a horizontal border x whose guard holds is connected to x. */
  lemma HorizontalFirstHas(rows: int, cols: int, x: int, y: int)
    requires cols >= 1 && IsHorizontalIdx(cols, x)
    requires || (IsValidBorderIdx(rows, cols, x - (cols + 1)) && y == x - (cols + 1))
             || (IsHorizontalIdx(cols, x - 1) && IsValidBorderIdx(rows, cols, x - 1) && y == x - 1)
             || (IsValidBorderIdx(rows, cols, x + cols) && y == x + cols)
    ensures y in ConnectedBordersList(rows, cols, x)
  {
    var c := ConnectedBorders(rows, cols, x);
    assert c.0 == Keep3(IsValidBorderIdx(rows, cols, x - (cols + 1)), x - (cols + 1),
            IsHorizontalIdx(cols, x - 1) && IsValidBorderIdx(rows, cols, x - 1), x - 1,
            IsValidBorderIdx(rows, cols, x + cols), x + cols);
    InKeep3(IsValidBorderIdx(rows, cols, x - (cols + 1)), x - (cols + 1),
            IsHorizontalIdx(cols, x - 1) && IsValidBorderIdx(rows, cols, x - 1), x - 1,
            IsValidBorderIdx(rows, cols, x + cols), x + cols, y);
    assert y in c.0;
  }

  /** A candidate at the right endpoint of a horizontal border x whose guard holds is connected to x. */
  lemma HorizontalSecondHas(rows: int, cols: int, x: int, y: int)
    requires cols >= 1 && IsHorizontalIdx(cols, x)
    requires || (IsValidBorderIdx(rows, cols, x - cols) && y == x - cols)
             || (IsHorizontalIdx(cols, x + 1) && IsValidBorderIdx(rows, cols, x + 1) && y == x + 1)
             || (IsValidBorderIdx(rows, cols, x + cols + 1) && y == x + cols + 1)
    ensures y in ConnectedBordersList(rows, cols, x)
  {
    var c := ConnectedBorders(rows, cols, x);
    assert c.1 == Keep3(IsValidBorderIdx(rows, cols, x - cols), x - cols,
            IsHorizontalIdx(cols, x + 1) && IsValidBorderIdx(rows, cols, x + 1), x + 1,
            IsValidBorderIdx(rows, cols, x + cols + 1), x + cols + 1);
    InKeep3(IsValidBorderIdx(rows, cols, x - cols), x - cols,
            IsHorizontalIdx(cols, x + 1) && IsValidBorderIdx(rows, cols, x + 1), x + 1,
            IsValidBorderIdx(rows, cols, x + cols + 1), x + cols + 1, y);
    assert y in c.1;
  }

  /** A candidate at the top endpoint of a vertical border x whose guard holds is connected to x. */
  lemma VerticalFirstHas(rows: int, cols: int, x: int, y: int)
    requires cols >= 1 && !IsHorizontalIdx(cols, x)
    requires || (IsValidBorderIdx(rows, cols, x - (cols + 1)) && IsHorizontalIdx(cols, x - (cols + 1)) && y == x - (cols + 1))
             || (IsValidBorderIdx(rows, cols, x - (cols * 2 + 1)) && y == x - (cols * 2 + 1))
             || (IsValidBorderIdx(rows, cols, x - cols) && IsHorizontalIdx(cols, x - cols) && y == x - cols)
    ensures y in ConnectedBordersList(rows, cols, x)
  {
    var c := ConnectedBorders(rows, cols, x);
    assert c.0 == Keep3(IsValidBorderIdx(rows, cols, x - (cols + 1)) && IsHorizontalIdx(cols, x - (cols + 1)), x - (cols + 1),
            IsValidBorderIdx(rows, cols, x - (cols * 2 + 1)), x - (cols * 2 + 1),
            IsValidBorderIdx(rows, cols, x - cols) && IsHorizontalIdx(cols, x - cols), x - cols);
    InKeep3(IsValidBorderIdx(rows, cols, x - (cols + 1)) && IsHorizontalIdx(cols, x - (cols + 1)), x - (cols + 1),
            IsValidBorderIdx(rows, cols, x - (cols * 2 + 1)), x - (cols * 2 + 1),
            IsValidBorderIdx(rows, cols, x - cols) && IsHorizontalIdx(cols, x - cols), x - cols, y);
    assert y in c.0;
  }

  /** A candidate at the bottom endpoint of a vertical border x whose guard holds is connected to x. */
  lemma VerticalSecondHas(rows: int, cols: int, x: int, y: int)
    requires cols >= 1 && !IsHorizontalIdx(cols, x)
    requires || (IsValidBorderIdx(rows, cols, x + cols) && IsHorizontalIdx(cols, x + cols) && y == x + cols)
             || (IsValidBorderIdx(rows, cols, x + (cols * 2 + 1)) && y == x + (cols * 2 + 1))
             || (IsValidBorderIdx(rows, cols, x + cols + 1) && IsHorizontalIdx(cols, x + cols + 1) && y == x + cols + 1)
    ensures y in ConnectedBordersList(rows, cols, x)
  {
    var c := ConnectedBorders(rows, cols, x);
    assert c.1 == Keep3(IsValidBorderIdx(rows, cols, x + cols) && IsHorizontalIdx(cols, x + cols), x + cols,
            IsValidBorderIdx(rows, cols, x + (cols * 2 + 1)), x + (cols * 2 + 1),
            IsValidBorderIdx(rows, cols, x + cols + 1) && IsHorizontalIdx(cols, x + cols + 1), x + cols + 1);
    InKeep3(IsValidBorderIdx(rows, cols, x + cols) && IsHorizontalIdx(cols, x + cols), x + cols,
            IsValidBorderIdx(rows, cols, x + (cols * 2 + 1)), x + (cols * 2 + 1),
            IsValidBorderIdx(rows, cols, x + cols + 1) && IsHorizontalIdx(cols, x + cols + 1), x + cols + 1, y);
    assert y in c.1;
  }

  lemma InKeep3(g1: bool, x1: int, g2: bool, x2: int, g3: bool, x3: int, y: int)
    requires (g1 && y == x1) || (g2 && y == x2) || (g3 && y == x3)
    ensures y in Keep3(g1, x1, g2, x2, g3, x3)
  {
  }

  /** ConnectedSymmetric for a horizontal b at offset m of band q. */
  lemma HorizontalSymmetric(rows: int, cols: int, q: int, m: int, b: int, x: int)
    requires cols >= 1 && q >= 0 && 0 <= m < cols && b == RowStart(cols, q) + m
    requires IsValidBorderIdx(rows, cols, b) && IsHorizontalIdx(cols, b)
    requires || x == b - (cols + 1) || (x == b - 1 && IsHorizontalIdx(cols, x)) || x == b + cols
             || x == b - cols || (x == b + 1 && IsHorizontalIdx(cols, x)) || x == b + cols + 1
    requires IsValidBorderIdx(rows, cols, x)
    ensures b in ConnectedBordersList(rows, cols, x)
  {
    if x == b - (cols + 1) || x == b - cols {
      AboveBand(cols, q, m, b, x);
      VerticalSecondHas(rows, cols, x, b);
    } else if x == b + cols || x == b + cols + 1 {
      SameBand(cols, q, m, b, x);
      VerticalFirstHas(rows, cols, x, b);
    } else if x == b - 1 {
      HorizontalSecondHas(rows, cols, x, b);
    } else {
      HorizontalFirstHas(rows, cols, x, b);
    }
  }

  /** ConnectedSymmetric for a vertical b at offset m of band q. */
  lemma VerticalSymmetric(rows: int, cols: int, q: int, m: int, b: int, x: int)
    requires cols >= 1 && q >= 0 && cols <= m < cols * 2 + 1 && b == RowStart(cols, q) + m
    requires IsValidBorderIdx(rows, cols, b) && !IsHorizontalIdx(cols, b)
    requires || (x == b - (cols + 1) && IsHorizontalIdx(cols, x)) || x == b - (cols * 2 + 1)
             || (x == b - cols && IsHorizontalIdx(cols, x)) || (x == b + cols && IsHorizontalIdx(cols, x))
             || x == b + cols * 2 + 1 || (x == b + cols + 1 && IsHorizontalIdx(cols, x))
    requires IsValidBorderIdx(rows, cols, x)
    ensures b in ConnectedBordersList(rows, cols, x)
  {
    if x == b - (cols + 1) {
      HorizontalSecondHas(rows, cols, x, b);
    } else if x == b - (cols * 2 + 1) {
      AboveBand(cols, q, m, b, x);
      VerticalSecondHas(rows, cols, x, b);
    } else if x == b - cols {
      HorizontalFirstHas(rows, cols, x, b);
    } else if x == b + cols {
      HorizontalSecondHas(rows, cols, x, b);
    } else if x == b + cols * 2 + 1 {
      BelowBand(cols, q, m, b, x);
      VerticalFirstHas(rows, cols, x, b);
    } else {
      HorizontalFirstHas(rows, cols, x, b);
    }
  }

  /** The endpoint list of b1 that holds b2 (the first list is checked first), or None. */
  function CommonVertex(rows: int, cols: int, b1: int, b2: int): (r: Option<seq<int>>)
    requires cols >= 1
    ensures r.Some? <==> b2 in ConnectedBordersList(rows, cols, b1)
    ensures r.Some? ==> b2 in r.value && forall x | x in r.value :: IsValidBorderIdx(rows, cols, x) && x != b1
    ensures r.Some? ==> forall k | 0 <= k < |r.value| :: IsValidBorderIdx(rows, cols, r.value[k])
    ensures r.Some? ==> r.value == (if b2 in ConnectedBorders(rows, cols, b1).0
                                   then ConnectedBorders(rows, cols, b1).0
                                   else ConnectedBorders(rows, cols, b1).1)
  {
    var conn := ConnectedBorders(rows, cols, b1);
    if b2 in conn.0 then Some(conn.0)
    else if b2 in conn.1 then Some(conn.1)
    else None
  }

  /** The two borders meeting at a corner: its horizontal side, then its vertical side. */
  function CornerBorderIndices(cols: int, row: int, col: int, cornerDir: DiagonalDirection): (r: (int, int))
    ensures r.0 == BorderIdx(cols, row, col, if cornerDir.IsUpper() then TOP else BOT)
    ensures r.1 == BorderIdx(cols, row, col, if cornerDir.IsLeft() then LEFT else RIGHT)
  {
    var (d1, d2) :=
      match cornerDir
      case ULEFT => (TOP, LEFT)
      case URIGHT => (TOP, RIGHT)
      case LRIGHT => (BOT, RIGHT)
      case LLEFT => (BOT, LEFT);
    (BorderIdx(cols, row, col, d1), BorderIdx(cols, row, col, d2))
  }

  /** The elements of s other than a and b, in order. */
  function Without(s: seq<int>, a: int, b: int): (r: seq<int>)
    ensures |r| <= |s|
    ensures forall x :: x in r <==> x in s && x != a && x != b
  {
    if s == [] then []
    else (if s[0] != a && s[0] != b then [s[0]] else []) + Without(s[1..], a, b)
  }

  /** The arms of a cell at a corner: the other borders at that corner's vertex. */
  function Arms(rows: int, cols: int, row: int, col: int, cornerDir: DiagonalDirection): seq<int>
    requires cols >= 1
  {
    var top := BorderIdx(cols, row, col, TOP);
    var right := BorderIdx(cols, row, col, RIGHT);
    var bot := BorderIdx(cols, row, col, BOT);
    var left := BorderIdx(cols, row, col, LEFT);
    match cornerDir
    case ULEFT => Without(ConnectedBorders(rows, cols, top).0, top, left)
    case URIGHT => Without(ConnectedBorders(rows, cols, top).1, top, right)
    case LRIGHT => Without(ConnectedBorders(rows, cols, bot).1, bot, right)
    case LLEFT => Without(ConnectedBorders(rows, cols, bot).0, bot, left)
  }

  /** The arms at the four corners, indexed by DiagonalValue; IndexError for an invalid cell. */
  function ArmsOfCell(rows: int, cols: int, row: int, col: int): (r: Result<seq<seq<int>>>)
    requires cols >= 1
    ensures r.Ok? <==> IsValidCellIdx(rows, cols, row, col)
    ensures r.Err? ==> r.error == IndexError
    ensures r.Ok? ==> |r.value| == 4 && forall d :: r.value[DiagonalValue(d)] == Arms(rows, cols, row, col, d)
  {
    if IsValidCellIdx(rows, cols, row, col) then
      Ok([Arms(rows, cols, row, col, ULEFT), Arms(rows, cols, row, col, URIGHT),
          Arms(rows, cols, row, col, LRIGHT), Arms(rows, cols, row, col, LLEFT)])
    else Err(IndexError)
  }

  /** Neighbouring cells share a side: a cell's BOT is the TOP of the cell below, its RIGHT the LEFT of the cell to the right. */
  lemma SharedSides(cols: int, row: int, col: int)
    ensures BorderIdx(cols, row, col, BOT) == BorderIdx(cols, row + 1, col, TOP)
    ensures BorderIdx(cols, row, col, RIGHT) == BorderIdx(cols, row, col + 1, LEFT)
  {
    RowStartNext(cols, row);
  }

  lemma MulMonotone(x: int, y: int, p: int)
    requires 0 <= x <= y && p > 0
    ensures x * p <= y * p
  {
    if x < y {
      MulAtLeast(y - x, p);
      assert y * p == x * p + (y - x) * p;
    }
  }

  /** The four sides of a valid cell are valid, pairwise distinct borders. */
  lemma CellBordersValid(rows: int, cols: int, row: int, col: int)
    requires cols >= 1 && IsValidCellIdx(rows, cols, row, col)
    ensures forall d :: IsValidBorderIdx(rows, cols, BorderIdx(cols, row, col, d))
    ensures forall d, e :: d != e ==> BorderIdx(cols, row, col, d) != BorderIdx(cols, row, col, e)
  {
    RowStartNonNegative(cols, row);
    RowStartMono(cols, row + 1, rows);
    RowStartNext(cols, row);
  }

  /** The four indices of a valid cell, in TOP, RIGHT, BOT, LEFT order, are valid border indices. */
  lemma CellBorderSeqValid(rows: int, cols: int, row: int, col: int)
    requires cols >= 1 && IsValidCellIdx(rows, cols, row, col)
    ensures forall k | 0 <= k < 4 :: IsValidBorderIdx(rows, cols, CellBorderSeq(cols, row, col)[k])
  {
    CellBordersValid(rows, cols, row, col);
    var s := CellBorderSeq(cols, row, col);
    assert s[0] == BorderIdx(cols, row, col, TOP) && s[1] == BorderIdx(cols, row, col, RIGHT);
    assert s[2] == BorderIdx(cols, row, col, BOT) && s[3] == BorderIdx(cols, row, col, LEFT);
  }

  /** TOP and BOT of a cell are horizontal borders, LEFT and RIGHT vertical ones. */
  lemma CellBordersOrientation(cols: int, row: int, col: int)
    requires cols >= 1 && row >= 0 && 0 <= col < cols
    ensures forall d :: IsHorizontalIdx(cols, BorderIdx(cols, row, col, d)) <==> d == TOP || d == BOT
  {
    HorizontalAt(cols, row, col);
    HorizontalAt(cols, row, cols + col);
    HorizontalAt(cols, row, cols + col + 1);
    HorizontalAt(cols, row + 1, col);
    RowStartNext(cols, row);
  }

  /** A side of a valid cell and its direction: every valid border is one. */
  function SideOf(rows: int, cols: int, b: int): (r: (Cell, CardinalDirection))
    requires rows >= 1 && cols >= 1 && IsValidBorderIdx(rows, cols, b)
    ensures IsValidCellIdx(rows, cols, r.0.0, r.0.1)
    ensures BorderIdx(cols, r.0.0, r.0.1, r.1) == b
  {
    var (q, m) := BandOf(cols, b);
    if m < cols then
      assert q <= rows by {
        if q > rows {
          RowStartMono(cols, rows, q);
        }
      }
      if q < rows then ((q, m), TOP)
      else
        RowStartNext(cols, q - 1);
        ((q - 1, m), BOT)
    else
      assert q < rows by {
        if q >= rows {
          RowStartMono(cols, rows, q);
        }
      }
      if m - cols < cols then ((q, m - cols), LEFT) else ((q, cols - 1), RIGHT)
  }

  /** Without distributes over concatenation. */
  lemma {:induction false} WithoutAppend(s: seq<int>, t: seq<int>, a: int, b: int)
    ensures Without(s + t, a, b) == Without(s, a, b) + Without(t, a, b)
  {
    if s == [] {
      assert s + t == t;
    } else {
      assert (s + t)[1..] == s[1..] + t;
      WithoutAppend(s[1..], t, a, b);
    }
  }

  lemma WithoutKeep(g: bool, x: int, a: int, b: int)
    ensures Without(Keep(g, x), a, b) == Keep(g && x != a && x != b, x)
  {
    if g {
      assert Keep(g, x)[1..] == [];
    }
  }

  /** Filtering three guarded candidates keeps exactly those that hold and differ from a and b. */
  lemma WithoutKeep3(g1: bool, x1: int, g2: bool, x2: int, g3: bool, x3: int, a: int, b: int,
                     h1: bool, h2: bool, h3: bool)
    requires h1 == (g1 && x1 != a && x1 != b) && h2 == (g2 && x2 != a && x2 != b) && h3 == (g3 && x3 != a && x3 != b)
    ensures Without(Keep3(g1, x1, g2, x2, g3, x3), a, b) == Keep(h1, x1) + Keep(h2, x2) + Keep(h3, x3)
  {
    WithoutAppend(Keep(g1, x1) + Keep(g2, x2), Keep(g3, x3), a, b);
    WithoutAppend(Keep(g1, x1), Keep(g2, x2), a, b);
    WithoutKeep(g1, x1, a, b);
    WithoutKeep(g2, x2, a, b);
    WithoutKeep(g3, x3, a, b);
  }

  /**
   * The arms of a corner described geometrically: the sides of the neighbouring cells
   * that meet at the corner's vertex, in the order the source lists them.
   */
  function CornerArms(rows: int, cols: int, row: int, col: int, dxn: DiagonalDirection): seq<int>
  {
    match dxn
    case ULEFT => Keep(row > 0, BorderIdx(cols, row - 1, col, LEFT)) + Keep(col > 0, BorderIdx(cols, row, col - 1, TOP))
    case URIGHT => Keep(row > 0, BorderIdx(cols, row - 1, col, RIGHT)) + Keep(col < cols - 1, BorderIdx(cols, row, col + 1, TOP))
    case LRIGHT => Keep(col < cols - 1, BorderIdx(cols, row, col + 1, BOT)) + Keep(row < rows - 1, BorderIdx(cols, row + 1, col, RIGHT))
    case LLEFT => Keep(col > 0, BorderIdx(cols, row, col - 1, BOT)) + Keep(row < rows - 1, BorderIdx(cols, row + 1, col, LEFT))
  }

  /** The border before the top side is horizontal and valid exactly when a cell lies to the left. */
  lemma UpperPrev(rows: int, cols: int, row: int, col: int)
    requires cols >= 1 && IsValidCellIdx(rows, cols, row, col)
    ensures var t := BorderIdx(cols, row, col, TOP);
      (IsHorizontalIdx(cols, t - 1) && IsValidBorderIdx(rows, cols, t - 1)) == (col > 0)
  {
    CellBordersValid(rows, cols, row, col);
    if col > 0 {
      RowStartNonNegative(cols, row);
      HorizontalAt(cols, row, col - 1);
    } else if row > 0 {
      RowStartNext(cols, row - 1);
      HorizontalAt(cols, row - 1, cols * 2);
    }
  }

  /** The border after the top side is horizontal and valid exactly when a cell lies to the right. */
  lemma UpperNext(rows: int, cols: int, row: int, col: int)
    requires cols >= 1 && IsValidCellIdx(rows, cols, row, col)
    ensures var t := BorderIdx(cols, row, col, TOP);
      (IsHorizontalIdx(cols, t + 1) && IsValidBorderIdx(rows, cols, t + 1)) == (col < cols - 1)
  {
    if col < cols - 1 {
      HorizontalAt(cols, row, col + 1);
      CellBordersValid(rows, cols, row, col + 1);
      assert IsValidBorderIdx(rows, cols, BorderIdx(cols, row, col + 1, TOP));
    } else {
      HorizontalAt(cols, row, cols);
    }
  }

  /** The vertical borders above the top side exist exactly when a row lies above. */
  lemma UpperValid(rows: int, cols: int, row: int, col: int)
    requires cols >= 1 && IsValidCellIdx(rows, cols, row, col)
    ensures var t := BorderIdx(cols, row, col, TOP);
      && IsValidBorderIdx(rows, cols, t - (cols + 1)) == (row > 0)
      && IsValidBorderIdx(rows, cols, t - cols) == (row > 0)
  {
    CellBordersValid(rows, cols, row, col);
    if row > 0 {
      RowStartNext(cols, row - 1);
      RowStartNonNegative(cols, row - 1);
    }
  }

  /** The left endpoint list of a cell's top side, its guards decided. */
  lemma UpperLeftList(rows: int, cols: int, row: int, col: int)
    requires cols >= 1 && IsValidCellIdx(rows, cols, row, col)
    ensures var t := BorderIdx(cols, row, col, TOP);
      ConnectedBorders(rows, cols, t).0 == Keep3(row > 0, t - (cols + 1), col > 0, t - 1, true, t + cols)
    ensures BorderIdx(cols, row, col, LEFT) == BorderIdx(cols, row, col, TOP) + cols
  {
    var t := BorderIdx(cols, row, col, TOP);
    assert IsHorizontalIdx(cols, t) by { HorizontalAt(cols, row, col); }
    UpperValid(rows, cols, row, col);
    UpperPrev(rows, cols, row, col);
    CellBordersValid(rows, cols, row, col);
    assert BorderIdx(cols, row, col, LEFT) == t + cols;
  }

  /** The right endpoint list of a cell's top side, its guards decided. */
  lemma UpperRightList(rows: int, cols: int, row: int, col: int)
    requires cols >= 1 && IsValidCellIdx(rows, cols, row, col)
    ensures var t := BorderIdx(cols, row, col, TOP);
      ConnectedBorders(rows, cols, t).1 == Keep3(row > 0, t - cols, col < cols - 1, t + 1, true, t + cols + 1)
  {
    var t := BorderIdx(cols, row, col, TOP);
    assert IsHorizontalIdx(cols, t) by { HorizontalAt(cols, row, col); }
    UpperValid(rows, cols, row, col);
    UpperNext(rows, cols, row, col);
    CellBordersValid(rows, cols, row, col);
    assert BorderIdx(cols, row, col, RIGHT) == t + cols + 1;
  }

  /** At the upper-left corner the arms filter the top side's left endpoint list. */
  lemma UpperLeftEnds(rows: int, cols: int, row: int, col: int)
    requires cols >= 1 && IsValidCellIdx(rows, cols, row, col)
    ensures var t := BorderIdx(cols, row, col, TOP);
      var left := BorderIdx(cols, row, col, LEFT);
      Arms(rows, cols, row, col, ULEFT) == Without(Keep3(row > 0, t - (cols + 1), col > 0, t - 1, true, left), t, left)
  {
    var side, other := BorderIdx(cols, row, col, TOP), BorderIdx(cols, row, col, LEFT);
    assert Arms(rows, cols, row, col, ULEFT) == Without(ConnectedBorders(rows, cols, side).0, side, other);
    UpperLeftList(rows, cols, row, col);
  }

  /** At the upper-right corner the arms filter the top side's right endpoint list. */
  lemma UpperRightEnds(rows: int, cols: int, row: int, col: int)
    requires cols >= 1 && IsValidCellIdx(rows, cols, row, col)
    ensures var t := BorderIdx(cols, row, col, TOP);
      var right := BorderIdx(cols, row, col, RIGHT);
      Arms(rows, cols, row, col, URIGHT) == Without(Keep3(row > 0, t - cols, col < cols - 1, t + 1, true, right), t, right)
  {
    var side, other := BorderIdx(cols, row, col, TOP), BorderIdx(cols, row, col, RIGHT);
    assert Arms(rows, cols, row, col, URIGHT) == Without(ConnectedBorders(rows, cols, side).1, side, other);
    UpperRightList(rows, cols, row, col);
  }

  /** What survives the filter at the upper-left corner is the geometric description. */
  lemma UpperLeftKept(rows: int, cols: int, row: int, col: int)
    requires cols >= 1 && IsValidCellIdx(rows, cols, row, col)
    ensures var t := BorderIdx(cols, row, col, TOP);
      var left := BorderIdx(cols, row, col, LEFT);
      Keep(row > 0, t - (cols + 1)) + Keep(col > 0, t - 1) + Keep(false, left) == CornerArms(rows, cols, row, col, ULEFT)
  {
    RowStartNext(cols, row - 1);
  }

  /** What survives the filter at the upper-right corner is the geometric description. */
  lemma UpperRightKept(rows: int, cols: int, row: int, col: int)
    requires cols >= 1 && IsValidCellIdx(rows, cols, row, col)
    ensures var t := BorderIdx(cols, row, col, TOP);
      var right := BorderIdx(cols, row, col, RIGHT);
      Keep(row > 0, t - cols) + Keep(col < cols - 1, t + 1) + Keep(false, right) == CornerArms(rows, cols, row, col, URIGHT)
  {
    RowStartNext(cols, row - 1);
  }

  /** Filtering the endpoint list at this corner leaves its geometric arms. */
  lemma UpperLeftFiltered(rows: int, cols: int, row: int, col: int)
    requires cols >= 1 && IsValidCellIdx(rows, cols, row, col)
    ensures var t := BorderIdx(cols, row, col, TOP);
      var left := BorderIdx(cols, row, col, LEFT);
      Without(Keep3(row > 0, t - (cols + 1), col > 0, t - 1, true, left), t, left) == CornerArms(rows, cols, row, col, ULEFT)
  {
    var t := BorderIdx(cols, row, col, TOP);
    var left := BorderIdx(cols, row, col, LEFT);
    WithoutKeep3(row > 0, t - (cols + 1), col > 0, t - 1, true, left, t, left, row > 0, col > 0, false);
    UpperLeftKept(rows, cols, row, col);
  }

  lemma ArmsULeft(rows: int, cols: int, row: int, col: int)
    requires cols >= 1 && IsValidCellIdx(rows, cols, row, col)
    ensures Arms(rows, cols, row, col, ULEFT) == CornerArms(rows, cols, row, col, ULEFT)
  {
    UpperLeftEnds(rows, cols, row, col);
    UpperLeftFiltered(rows, cols, row, col);
  }

  /** Filtering the endpoint list at this corner leaves its geometric arms. */
  lemma UpperRightFiltered(rows: int, cols: int, row: int, col: int)
    requires cols >= 1 && IsValidCellIdx(rows, cols, row, col)
    ensures var t := BorderIdx(cols, row, col, TOP);
      var right := BorderIdx(cols, row, col, RIGHT);
      Without(Keep3(row > 0, t - cols, col < cols - 1, t + 1, true, right), t, right) == CornerArms(rows, cols, row, col, URIGHT)
  {
    var t := BorderIdx(cols, row, col, TOP);
    var right := BorderIdx(cols, row, col, RIGHT);
    WithoutKeep3(row > 0, t - cols, col < cols - 1, t + 1, true, right, t, right, row > 0, col < cols - 1, false);
    UpperRightKept(rows, cols, row, col);
  }

  lemma ArmsURight(rows: int, cols: int, row: int, col: int)
    requires cols >= 1 && IsValidCellIdx(rows, cols, row, col)
    ensures Arms(rows, cols, row, col, URIGHT) == CornerArms(rows, cols, row, col, URIGHT)
  {
    UpperRightEnds(rows, cols, row, col);
    UpperRightFiltered(rows, cols, row, col);
  }

  /** The bottom side of a cell is a horizontal border. */
  lemma LowerHorizontal(cols: int, row: int, col: int)
    requires cols >= 1 && row >= 0 && 0 <= col < cols
    ensures IsHorizontalIdx(cols, BorderIdx(cols, row, col, BOT))
  {
    SharedSides(cols, row, col);
    HorizontalAt(cols, row + 1, col);
  }

  /** The border after the bottom side is horizontal and valid exactly when a cell lies to the right. */
  lemma LowerNext(rows: int, cols: int, row: int, col: int)
    requires cols >= 1 && IsValidCellIdx(rows, cols, row, col)
    ensures var t := BorderIdx(cols, row, col, BOT);
      (IsHorizontalIdx(cols, t + 1) && IsValidBorderIdx(rows, cols, t + 1)) == (col < cols - 1)
  {
    var t := BorderIdx(cols, row, col, BOT);
    SharedSides(cols, row, col);
    if col < cols - 1 {
      SharedSides(cols, row, col + 1);
      HorizontalAt(cols, row + 1, col + 1);
      CellBordersValid(rows, cols, row, col + 1);
    } else {
      HorizontalAt(cols, row + 1, cols);
    }
  }

  /** The border before the bottom side is horizontal and valid exactly when a cell lies to the left. */
  lemma LowerPrev(rows: int, cols: int, row: int, col: int)
    requires cols >= 1 && IsValidCellIdx(rows, cols, row, col)
    ensures var t := BorderIdx(cols, row, col, BOT);
      (IsHorizontalIdx(cols, t - 1) && IsValidBorderIdx(rows, cols, t - 1)) == (col > 0)
  {
    var t := BorderIdx(cols, row, col, BOT);
    CellBordersValid(rows, cols, row, col);
    SharedSides(cols, row, col);
    if col > 0 {
      HorizontalAt(cols, row + 1, col - 1);
    } else {
      HorizontalAt(cols, row, cols * 2);
    }
  }

  /** The vertical borders below the bottom side exist exactly when a row lies below. */
  lemma LowerValid(rows: int, cols: int, row: int, col: int)
    requires cols >= 1 && IsValidCellIdx(rows, cols, row, col)
    ensures var t := BorderIdx(cols, row, col, BOT);
      && IsValidBorderIdx(rows, cols, t + cols + 1) == (row < rows - 1)
      && IsValidBorderIdx(rows, cols, t + cols) == (row < rows - 1)
  {
    RowStartNext(cols, row);
    RowStartNonNegative(cols, row);
    if row < rows - 1 {
      RowStartNext(cols, row + 1);
      RowStartMono(cols, row + 2, rows);
    }
  }

  /** The right endpoint list of a cell's bottom side, its guards decided. */
  lemma LowerRightList(rows: int, cols: int, row: int, col: int)
    requires cols >= 1 && IsValidCellIdx(rows, cols, row, col)
    ensures var t := BorderIdx(cols, row, col, BOT);
      ConnectedBorders(rows, cols, t).1 == Keep3(true, t - cols, col < cols - 1, t + 1, row < rows - 1, t + cols + 1)
  {
    var t := BorderIdx(cols, row, col, BOT);
    LowerHorizontal(cols, row, col);
    CellBordersValid(rows, cols, row, col);
    assert BorderIdx(cols, row, col, RIGHT) == t - cols;
    LowerNext(rows, cols, row, col);
    LowerValid(rows, cols, row, col);
  }

  /** The left endpoint list of a cell's bottom side, its guards decided. */
  lemma LowerLeftList(rows: int, cols: int, row: int, col: int)
    requires cols >= 1 && IsValidCellIdx(rows, cols, row, col)
    ensures var t := BorderIdx(cols, row, col, BOT);
      ConnectedBorders(rows, cols, t).0 == Keep3(true, t - (cols + 1), col > 0, t - 1, row < rows - 1, t + cols)
  {
    var t := BorderIdx(cols, row, col, BOT);
    LowerHorizontal(cols, row, col);
    CellBordersValid(rows, cols, row, col);
    assert BorderIdx(cols, row, col, LEFT) == t - (cols + 1);
    LowerPrev(rows, cols, row, col);
    LowerValid(rows, cols, row, col);
  }

  /** At the lower-right corner the arms filter the bottom side's right endpoint list. */
  lemma LowerRightEnds(rows: int, cols: int, row: int, col: int)
    requires cols >= 1 && IsValidCellIdx(rows, cols, row, col)
    ensures var t := BorderIdx(cols, row, col, BOT);
      var right := BorderIdx(cols, row, col, RIGHT);
      Arms(rows, cols, row, col, LRIGHT) == Without(Keep3(true, right, col < cols - 1, t + 1, row < rows - 1, t + cols + 1), t, right)
  {
    var side, other := BorderIdx(cols, row, col, BOT), BorderIdx(cols, row, col, RIGHT);
    assert Arms(rows, cols, row, col, LRIGHT) == Without(ConnectedBorders(rows, cols, side).1, side, other);
    LowerRightList(rows, cols, row, col);
  }

  /** At the lower-left corner the arms filter the bottom side's left endpoint list. */
  lemma LowerLeftEnds(rows: int, cols: int, row: int, col: int)
    requires cols >= 1 && IsValidCellIdx(rows, cols, row, col)
    ensures var t := BorderIdx(cols, row, col, BOT);
      var left := BorderIdx(cols, row, col, LEFT);
      Arms(rows, cols, row, col, LLEFT) == Without(Keep3(true, left, col > 0, t - 1, row < rows - 1, t + cols), t, left)
  {
    var side, other := BorderIdx(cols, row, col, BOT), BorderIdx(cols, row, col, LEFT);
    assert Arms(rows, cols, row, col, LLEFT) == Without(ConnectedBorders(rows, cols, side).0, side, other);
    LowerLeftList(rows, cols, row, col);
  }

  /** What survives the filter at the lower-right corner is the geometric description. */
  lemma LowerRightKept(rows: int, cols: int, row: int, col: int)
    requires cols >= 1 && IsValidCellIdx(rows, cols, row, col)
    ensures var t := BorderIdx(cols, row, col, BOT);
      var right := BorderIdx(cols, row, col, RIGHT);
      Keep(false, right) + Keep(col < cols - 1, t + 1) + Keep(row < rows - 1, t + cols + 1)
      == CornerArms(rows, cols, row, col, LRIGHT)
  {
    SharedSides(cols, row, col);
    SharedSides(cols, row, col + 1);
  }

  /** What survives the filter at the lower-left corner is the geometric description. */
  lemma LowerLeftKept(rows: int, cols: int, row: int, col: int)
    requires cols >= 1 && IsValidCellIdx(rows, cols, row, col)
    ensures var t := BorderIdx(cols, row, col, BOT);
      var left := BorderIdx(cols, row, col, LEFT);
      Keep(false, left) + Keep(col > 0, t - 1) + Keep(row < rows - 1, t + cols)
      == CornerArms(rows, cols, row, col, LLEFT)
  {
    SharedSides(cols, row, col);
    SharedSides(cols, row, col - 1);
  }

  /** Filtering the endpoint list at this corner leaves its geometric arms. */
  lemma LowerRightFiltered(rows: int, cols: int, row: int, col: int)
    requires cols >= 1 && IsValidCellIdx(rows, cols, row, col)
    ensures var t := BorderIdx(cols, row, col, BOT);
      var right := BorderIdx(cols, row, col, RIGHT);
      Without(Keep3(true, right, col < cols - 1, t + 1, row < rows - 1, t + cols + 1), t, right) == CornerArms(rows, cols, row, col, LRIGHT)
  {
    var t := BorderIdx(cols, row, col, BOT);
    var right := BorderIdx(cols, row, col, RIGHT);
    WithoutKeep3(true, right, col < cols - 1, t + 1, row < rows - 1, t + cols + 1, t, right, false, col < cols - 1, row < rows - 1);
    LowerRightKept(rows, cols, row, col);
  }

  lemma ArmsLRight(rows: int, cols: int, row: int, col: int)
    requires cols >= 1 && IsValidCellIdx(rows, cols, row, col)
    ensures Arms(rows, cols, row, col, LRIGHT) == CornerArms(rows, cols, row, col, LRIGHT)
  {
    LowerRightEnds(rows, cols, row, col);
    LowerRightFiltered(rows, cols, row, col);
  }

  /** Filtering the endpoint list at this corner leaves its geometric arms. */
  lemma LowerLeftFiltered(rows: int, cols: int, row: int, col: int)
    requires cols >= 1 && IsValidCellIdx(rows, cols, row, col)
    ensures var t := BorderIdx(cols, row, col, BOT);
      var left := BorderIdx(cols, row, col, LEFT);
      Without(Keep3(true, left, col > 0, t - 1, row < rows - 1, t + cols), t, left) == CornerArms(rows, cols, row, col, LLEFT)
  {
    var t := BorderIdx(cols, row, col, BOT);
    var left := BorderIdx(cols, row, col, LEFT);
    WithoutKeep3(true, left, col > 0, t - 1, row < rows - 1, t + cols, t, left, false, col > 0, row < rows - 1);
    LowerLeftKept(rows, cols, row, col);
  }

  lemma ArmsLLeft(rows: int, cols: int, row: int, col: int)
    requires cols >= 1 && IsValidCellIdx(rows, cols, row, col)
    ensures Arms(rows, cols, row, col, LLEFT) == CornerArms(rows, cols, row, col, LLEFT)
  {
    LowerLeftEnds(rows, cols, row, col);
    LowerLeftFiltered(rows, cols, row, col);
  }

  /** The arms computed from the endpoint lists are exactly the geometric arms of the corner. */
  lemma ArmsGeometry(rows: int, cols: int, row: int, col: int, dxn: DiagonalDirection)
    requires cols >= 1 && IsValidCellIdx(rows, cols, row, col)
    ensures Arms(rows, cols, row, col, dxn) == CornerArms(rows, cols, row, col, dxn)
  {
    match dxn
    case ULEFT => ArmsULeft(rows, cols, row, col);
    case URIGHT => ArmsURight(rows, cols, row, col);
    case LRIGHT => ArmsLRight(rows, cols, row, col);
    case LLEFT => ArmsLLeft(rows, cols, row, col);
  }

  /** A neighbouring cell's side at a corner is a valid border and not a side of this cell. */
  lemma NeighbourSide(rows: int, cols: int, row: int, col: int, nr: int, nc: int, d: CardinalDirection)
    requires cols >= 1 && IsValidCellIdx(rows, cols, row, col) && IsValidCellIdx(rows, cols, nr, nc)
    requires (nr == row - 1 && nc == col && (d == LEFT || d == RIGHT))
          || (nr == row + 1 && nc == col && (d == LEFT || d == RIGHT))
          || (nr == row && nc == col - 1 && (d == TOP || d == BOT))
          || (nr == row && nc == col + 1 && (d == TOP || d == BOT))
    ensures IsValidBorderIdx(rows, cols, BorderIdx(cols, nr, nc, d))
    ensures BorderIdx(cols, nr, nc, d) !in CellBorderSeq(cols, row, col)
  {
    CellBordersValid(rows, cols, nr, nc);
    RowStartNext(cols, row);
    RowStartNext(cols, row - 1);
  }

  /** The geometric arms of a corner: at most two, valid, and none of them a side of the cell. */
  lemma CornerArmsBounds(rows: int, cols: int, row: int, col: int, dxn: DiagonalDirection)
    requires cols >= 1 && IsValidCellIdx(rows, cols, row, col)
    ensures |CornerArms(rows, cols, row, col, dxn)| <= 2
    ensures CellIdxAtAdjCorner(rows, cols, row, col, dxn).None? ==> |CornerArms(rows, cols, row, col, dxn)| <= 1
    ensures forall x | x in CornerArms(rows, cols, row, col, dxn) ::
              IsValidBorderIdx(rows, cols, x) && x !in CellBorderSeq(cols, row, col)
  {
    var vr := if dxn.IsUpper() then row - 1 else row + 1;
    var vc := if dxn.IsLeft() then col - 1 else col + 1;
    var vd := if dxn.IsLeft() then LEFT else RIGHT;
    var hd := if dxn.IsUpper() then TOP else BOT;
    if IsValidCellIdx(rows, cols, vr, col) {
      NeighbourSide(rows, cols, row, col, vr, col, vd);
    }
    if IsValidCellIdx(rows, cols, row, vc) {
      NeighbourSide(rows, cols, row, col, row, vc, hd);
    }
  }

  /**
   * Arms are valid borders that are not sides of the cell; a corner has at most two,
   * and at most one when the diagonal neighbour at that corner is off the grid.
   */
  lemma ArmsBounds(rows: int, cols: int, row: int, col: int, dxn: DiagonalDirection)
    requires cols >= 1 && IsValidCellIdx(rows, cols, row, col)
    ensures |Arms(rows, cols, row, col, dxn)| <= 2
    ensures CellIdxAtAdjCorner(rows, cols, row, col, dxn).None? ==> |Arms(rows, cols, row, col, dxn)| <= 1
    ensures forall x | x in Arms(rows, cols, row, col, dxn) ::
              IsValidBorderIdx(rows, cols, x) && x !in CellBorderSeq(cols, row, col)
  {
    ArmsGeometry(rows, cols, row, col, dxn);
    CornerArmsBounds(rows, cols, row, col, dxn);
  }

  /** Every arm is a valid border index. */
  lemma ArmsInRange(rows: int, cols: int, row: int, col: int, dxn: DiagonalDirection)
    requires cols >= 1 && IsValidCellIdx(rows, cols, row, col)
    ensures forall k | 0 <= k < |Arms(rows, cols, row, col, dxn)| :: 0 <= Arms(rows, cols, row, col, dxn)[k] < NumBorders(rows, cols)
  {
    ArmsBounds(rows, cols, row, col, dxn);
    var arms := Arms(rows, cols, row, col, dxn);
    forall k | 0 <= k < |arms| ensures 0 <= arms[k] < NumBorders(rows, cols) {
      assert arms[k] in arms;
    }
  }

  /**
   * A valid cell has a neighbour across side d exactly when that side is not on the grid
   * edge, and the two cells share that border from facing sides.
   */
  lemma AdjCellSharesSide(rows: int, cols: int, row: int, col: int, d: CardinalDirection)
    requires IsValidCellIdx(rows, cols, row, col)
    ensures AdjCell(rows, cols, row, col, d).None? <==>
              match d
              case TOP => row == 0
              case RIGHT => col == cols - 1
              case BOT => row == rows - 1
              case LEFT => col == 0
    ensures AdjCell(rows, cols, row, col, d).Some? ==>
              var (r, c) := AdjCell(rows, cols, row, col, d).value;
              BorderIdx(cols, r, c, Facing(d)) == BorderIdx(cols, row, col, d)
  {
    SharedSides(cols, row, col);
    SharedSides(cols, row - 1, col);
    SharedSides(cols, row, col - 1);
  }
}
