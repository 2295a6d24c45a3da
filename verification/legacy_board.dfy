/**
 * The older board of the repository root: the clues as a grid and the borders as a
 * (rows + 1) x (cols + 1) grid of statuses, with a constructor that checks sizes, a
 * constructor from a clue string, a copy and the list of UNSET borders.
 */
module LegacyBoardModel {
  import opened Outcomes
  import opened Enums
  import opened BoardModel

  /**
   * The checks of Board(rows, cols, cells, borders), in the order the constructor makes them.
   * borderDims is the number of rows of the border grid and the length of its first row.
   */
  function LegacyConstructorError(rows: int, cols: int, cells: Option<seq<seq<Option<int>>>>,
                                  borderDims: Option<(int, int)>): (e: Option<Error>)
    ensures e.Some? ==> e.value == ValueError
    ensures e.None? <==> rows > 0 && cols > 0
                         && (cells.Some? ==> |cells.value| == rows && |cells.value[0]| == cols)
                         && (borderDims.Some? ==> borderDims.value == (rows + 1, cols + 1))
  {
    if rows <= 0 || cols <= 0 then Some(ValueError)
    else if cells.Some? && (|cells.value| != rows || |cells.value[0]| != cols) then Some(ValueError)
    else if borderDims.Some? && (borderDims.value.0 != rows + 1 || borderDims.value.1 != cols + 1) then Some(ValueError)
    else None
  }

  /** (a, b) comes before (c, d) in row-major order. */
  predicate RowMajorBefore(p: (int, int), q: (int, int))
  {
    p.0 < q.0 || (p.0 == q.0 && p.1 < q.1)
  }

  class LegacyBoard {
    const rows: int
    const cols: int
    /** The clue of each cell, None for no clue. */
    const cells: seq<seq<Option<int>>>
    /** The status of each border, by (row, col) of its grid. */
    const borders: array2<BorderStatus>

    /** What the constructor guarantees. */
    ghost predicate Valid()
      reads this
    {
      rows > 0 && cols > 0 && |cells| == rows && |cells[0]| == cols
      && borders.Length0 == rows + 1 && borders.Length1 == cols + 1
    }

    constructor Init(rows: int, cols: int, cells: seq<seq<Option<int>>>, borders: array2<BorderStatus>)
      requires LegacyConstructorError(rows, cols, Some(cells), Some((borders.Length0, borders.Length1))).None?
      ensures Valid()
      ensures this.rows == rows && this.cols == cols && this.cells == cells && this.borders == borders
    {
      this.rows := rows;
      this.cols := cols;
      this.cells := cells;
      this.borders := borders;
    }

    /**
     * Board(rows, cols, cells, borders): ValueError when a size check fails; otherwise a board
     * that keeps the given grids (the same border grid, not a copy) or, for a grid not given,
     * clues all None and borders all UNSET.
     */
    static method New(rows: int, cols: int, cells: Option<seq<seq<Option<int>>>>,
                      borders: Option<array2<BorderStatus>>) returns (r: Result<LegacyBoard>)
      ensures r.Ok? <==> LegacyConstructorError(rows, cols, cells,
                           if borders.Some? then Some((borders.value.Length0, borders.value.Length1)) else None).None?
      ensures r.Err? ==> r.error == ValueError
      ensures r.Ok? ==> r.value.Valid() && r.value.rows == rows && r.value.cols == cols
      ensures r.Ok? && cells.Some? ==> r.value.cells == cells.value
      ensures r.Ok? && cells.None? ==> IsGrid(r.value.cells, rows, cols)
                                       && forall i, j | 0 <= i < rows && 0 <= j < cols :: r.value.cells[i][j].None?
      ensures r.Ok? && borders.Some? ==> r.value.borders == borders.value
      ensures r.Ok? && borders.None? ==> fresh(r.value.borders)
                                         && forall i, j | 0 <= i <= rows && 0 <= j <= cols :: r.value.borders[i, j] == UNSET
    {
      var dims := if borders.Some? then Some((borders.value.Length0, borders.value.Length1)) else None;
      var e := LegacyConstructorError(rows, cols, cells, dims);
      if e.Some? {
        return Err(e.value);
      }
      var cs := if cells.Some? then cells.value else seq(rows, _ => seq(cols, _ => None));
      var bs: array2<BorderStatus>;
      if borders.Some? {
        bs := borders.value;
      } else {
        bs := new BorderStatus[rows + 1, cols + 1]((_, _) => UNSET);
      }
      var board := new LegacyBoard.Init(rows, cols, cs, bs);
      return Ok(board);
    }

    /**
     * Board.fromString: ValueError for a non-positive size, a string whose length is not
     * rows * cols, or a character that is neither '.' nor a digit; otherwise the board with
     * those clues, row by row, and all borders UNSET.
     */
    static method FromString(rows: int, cols: int, s: string) returns (r: Result<LegacyBoard>)
      ensures r.Ok? <==> rows > 0 && cols > 0 && |s| == rows * cols && forall k | 0 <= k < |s| :: IsCellChar(s[k])
      ensures r.Err? ==> r.error == ValueError
      ensures r.Ok? ==> r.value.Valid() && r.value.rows == rows && r.value.cols == cols
                        && IsGrid(r.value.cells, rows, cols)
      ensures r.Ok? ==> forall i, j | 0 <= i < rows && 0 <= j < cols ::
                          0 <= i * cols + j < |s| && CellValue(s[i * cols + j]) == Ok(r.value.cells[i][j])
      ensures r.Ok? ==> fresh(r.value.borders)
                        && forall i, j | 0 <= i <= rows && 0 <= j <= cols :: r.value.borders[i, j] == UNSET
    {
      var parsed := ParseCells(rows, cols, s);
      if parsed.Err? {
        return Err(parsed.error);
      }
      r := New(rows, cols, Some(parsed.value), None);
    }

    /**
     * Board.copy as written: a new board object built from the same clue grid and the same
     * border grid, so the copy and the original share their borders.
     */
    method Copy() returns (r: LegacyBoard)
      requires Valid()
      ensures fresh(r) && r.Valid()
      ensures r.rows == rows && r.cols == cols && r.cells == cells
      ensures r.borders == borders
    {
      r := new LegacyBoard.Init(rows, cols, cells, borders);
    }

    /** The copy the documentation promises: equal contents in a border grid of its own. */
    method DeepCopy() returns (r: LegacyBoard)
      requires Valid()
      ensures fresh(r) && fresh(r.borders) && r.Valid()
      ensures r.rows == rows && r.cols == cols && r.cells == cells
      ensures forall i, j | 0 <= i <= rows && 0 <= j <= cols :: r.borders[i, j] == borders[i, j]
    {
      var bs := new BorderStatus[rows + 1, cols + 1]((i, j) reads borders =>
        if 0 <= i < borders.Length0 && 0 <= j < borders.Length1 then borders[i, j] else UNSET);
      r := new LegacyBoard.Init(rows, cols, cells, bs);
    }

    /**
     * Board.getUnsetBorders: the (row, col) position of every UNSET border and of nothing
     * else, in row-major order without repeats.
     */
    method GetUnsetBorders() returns (r: seq<(int, int)>)
      ensures forall p :: p in r <==> 0 <= p.0 < borders.Length0 && 0 <= p.1 < borders.Length1
                                       && borders[p.0, p.1] == UNSET
      ensures forall a, b | 0 <= a < b < |r| :: RowMajorBefore(r[a], r[b])
    {
      r := [];
      for i := 0 to borders.Length0
        invariant forall p :: p in r <==> 0 <= p.0 < i && 0 <= p.1 < borders.Length1 && borders[p.0, p.1] == UNSET
        invariant forall a, b | 0 <= a < b < |r| :: RowMajorBefore(r[a], r[b])
        invariant forall a | 0 <= a < |r| :: r[a].0 < i
      {
        for j := 0 to borders.Length1
          invariant forall p :: p in r <==> (0 <= p.0 < i && 0 <= p.1 < borders.Length1 && borders[p.0, p.1] == UNSET)
                                            || (p.0 == i && 0 <= p.1 < j && borders[p.0, p.1] == UNSET)
          invariant forall a, b | 0 <= a < b < |r| :: RowMajorBefore(r[a], r[b])
          invariant forall a | 0 <= a < |r| :: r[a].0 < i || (r[a].0 == i && r[a].1 < j)
        {
          if borders[i, j] == UNSET {
            r := r + [(i, j)];
          }
        }
      }
    }
  }

  /**
   * The shallow copy at work: a write through the copy's borders shows up in the original,
   * whatever the original held there before.
   */
  method CopySharesBorders(board: LegacyBoard) returns (c: LegacyBoard)
    requires board.Valid()
    modifies board.borders
    ensures c.Valid() && c.borders == board.borders
    ensures board.borders[0, 0] == ACTIVE
  {
    c := board.Copy();
    c.borders[0, 0] := ACTIVE;
  }

  /** With the deep copy, the same write leaves the original untouched. */
  method DeepCopyIsolated(board: LegacyBoard) returns (c: LegacyBoard)
    requires board.Valid()
    ensures c.Valid() && c.borders != board.borders && c.borders[0, 0] == ACTIVE
    ensures forall i, j | 0 <= i <= board.rows && 0 <= j <= board.cols :: board.borders[i, j] == old(board.borders[i, j])
  {
    c := board.DeepCopy();
    c.borders[0, 0] := ACTIVE;
  }
}
