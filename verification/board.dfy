/**
 * The game board: the clue of each cell and the flat array of border statuses,
 * plus the per-cell state the solver keeps on it (cell groups, corner entries, pokes).
 */
module BoardModel {
  import opened Outcomes
  import opened Enums
  import opened BoardTools

  /** g has `rows` rows of `cols` entries each. */
  ghost predicate IsGrid<T>(g: seq<seq<T>>, rows: int, cols: int)
  {
    |g| == rows && forall r | 0 <= r < |g| :: |g[r]| == cols
  }

  /** The clue of one character of a cell string: '.' is no clue, a digit its value, anything else ValueError. */
  function CellValue(c: char): (r: Result<Option<int>>)
    ensures r.Ok? <==> c == '.' || '0' <= c <= '9'
    ensures r.Err? ==> r.error == ValueError
    ensures r.Ok? && r.value.Some? ==> 0 <= r.value.value <= 9 && c == ('0' as int + r.value.value) as char
  {
    if c == '.' then Ok(None)
    else match DigitValue(c)
      case Some(v) => Ok(Some(v))
      case None => Err(ValueError)
  }

  predicate IsCellChar(c: char)
  {
    c == '.' || '0' <= c <= '9'
  }

  /**
   * Parse a cell string row by row: character i * cols + j gives the clue of cell (i, j).
   * ValueError for a non-positive size, a length other than rows * cols, or a bad character.
   */
  method ParseCells(rows: int, cols: int, s: string) returns (r: Result<seq<seq<Option<int>>>>)
    ensures r.Ok? <==> rows > 0 && cols > 0 && |s| == rows * cols && forall k | 0 <= k < |s| :: IsCellChar(s[k])
    ensures r.Err? ==> r.error == ValueError
    ensures r.Ok? ==> IsGrid(r.value, rows, cols)
    ensures r.Ok? ==> forall i, j | 0 <= i < rows && 0 <= j < cols ::
                        0 <= i * cols + j < |s| && CellValue(s[i * cols + j]) == Ok(r.value[i][j])
  {
    if rows <= 0 || cols <= 0 {
      return Err(ValueError);
    }
    if |s| != rows * cols {
      return Err(ValueError);
    }
    var idx := 0;
    var cells: seq<seq<Option<int>>> := [];
    for i := 0 to rows
      invariant idx == i * cols && idx <= |s|
      invariant forall k | 0 <= k < idx :: IsCellChar(s[k])
      invariant RowsParsed(s, cells, i, cols)
    {
      assert idx + cols <= |s| by {
        MulMonotone(i + 1, rows, cols);
        assert (i + 1) * cols == idx + cols;
      }
      var rowArr := ParseRow(s, idx, cols);
      if rowArr.Err? {
        return Err(ValueError);
      }
      RowsParsedNext(s, cells, i, cols, rowArr.value);
      cells := cells + [rowArr.value];
      idx := idx + cols;
    }
    return Ok(cells);
  }

  /** cells holds the clues of the first n rows of s, cols characters per row. */
  ghost predicate RowsParsed(s: string, cells: seq<seq<Option<int>>>, n: int, cols: int)
  {
    && IsGrid(cells, n, cols)
    && forall a, b | 0 <= a < n && 0 <= b < cols ::
         0 <= a * cols + b < |s| && CellValue(s[a * cols + b]) == Ok(cells[a][b])
  }

  lemma RowsParsedNext(s: string, cells: seq<seq<Option<int>>>, n: int, cols: int, row: seq<Option<int>>)
    requires 0 <= n && 0 <= cols && n * cols + cols <= |s|
    requires RowsParsed(s, cells, n, cols)
    requires |row| == cols && forall b | 0 <= b < cols :: CellValue(s[n * cols + b]) == Ok(row[b])
    ensures RowsParsed(s, cells + [row], n + 1, cols)
  {
    var next := cells + [row];
    forall a, b | 0 <= a < n + 1 && 0 <= b < cols
      ensures 0 <= a * cols + b < |s| && CellValue(s[a * cols + b]) == Ok(next[a][b])
    {
      if a < n {
        assert next[a] == cells[a];
      } else {
        assert next[a] == row;
      }
    }
  }

  /** The inner loop of the parse: the clues of the `cols` characters from `start` on. */
  method ParseRow(s: string, start: int, cols: int) returns (r: Result<seq<Option<int>>>)
    requires 0 <= start && 0 <= cols && start + cols <= |s|
    ensures r.Ok? <==> forall k | start <= k < start + cols :: IsCellChar(s[k])
    ensures r.Err? ==> r.error == ValueError
    ensures r.Ok? ==> |r.value| == cols && forall b | 0 <= b < cols :: CellValue(s[start + b]) == Ok(r.value[b])
  {
    var rowArr: seq<Option<int>> := [];
    for j := 0 to cols
      invariant |rowArr| == j
      invariant forall k | start <= k < start + j :: IsCellChar(s[k])
      invariant forall b | 0 <= b < j :: CellValue(s[start + b]) == Ok(rowArr[b])
    {
      var val := CellValue(s[start + j]);
      if val.Err? {
        return Err(ValueError);
      }
      rowArr := rowArr + [val.value];
    }
    return Ok(rowArr);
  }

  /** Board.__init__'s argument checks: the exception it raises, if any. */
  function ConstructorError(rows: int, cols: int, cells: Option<seq<seq<Option<int>>>>,
                            borders: Option<seq<BorderStatus>>): (e: Option<Error>)
    ensures (rows <= 0 || cols <= 0) ==> e == Some(ValueError)
    ensures e.None? <==> rows > 0 && cols > 0 && borders.None? &&
                         (cells.Some? ==> |cells.value| == rows && |cells.value[0]| == cols)
    ensures (rows > 0 && cols > 0 && cells.Some? && (|cells.value| != rows || |cells.value[0]| != cols)) ==>
              e == Some(ValueError)
    ensures (rows > 0 && cols > 0 && (cells.Some? ==> |cells.value| == rows && |cells.value[0]| == cols) && borders.Some?) ==>
              e == Some(if |borders.value| != rows + 1 then ValueError else TypeError)
  {
    if rows <= 0 || cols <= 0 then Some(ValueError)
    else if cells.Some? && (|cells.value| != rows || |cells.value[0]| != cols) then Some(ValueError)
    else if borders.Some? && |borders.value| != rows + 1 then Some(ValueError)
    // len() of the first entry: a status is not a sequence
    else if borders.Some? then Some(TypeError)
    else None
  }

  /** The statuses at the given border indices, in order. */
  function Statuses(bs: seq<BorderStatus>, idxs: seq<int>): (s: seq<BorderStatus>)
    requires forall k | 0 <= k < |idxs| :: 0 <= idxs[k] < |bs|
    ensures |s| == |idxs| && forall k | 0 <= k < |idxs| :: s[k] == bs[idxs[k]]
  {
    if idxs == [] then [] else [bs[idxs[0]]] + Statuses(bs, idxs[1..])
  }

  /** The cells with a clue, in row-major order. */
  function RowReqCells(row: seq<Option<int>>, r: int, c: nat): (s: seq<Cell>)
    ensures forall x :: x in s <==> x.0 == r && c <= x.1 < |row| && row[x.1].Some?
    decreases |row| - c
  {
    if c >= |row| then [] else (if row[c].Some? then [(r, c)] else []) + RowReqCells(row, r, c + 1)
  }

  function ReqCellsFrom(cells: seq<seq<Option<int>>>, r: nat): (s: seq<Cell>)
    ensures forall x :: x in s <==> r <= x.0 < |cells| && 0 <= x.1 < |cells[x.0]| && cells[x.0][x.1].Some?
    decreases |cells| - r
  {
    if r >= |cells| then [] else RowReqCells(cells[r], r, 0) + ReqCellsFrom(cells, r + 1)
  }

  /** Positive dimensions and a full grid of clues: the shape the rules rely on, from constant fields only. */
  ghost predicate IsShaped(board: Board)
  {
    board.rows >= 1 && board.cols >= 1 && IsGrid(board.cells, board.rows, board.cols)
  }

  class Board {
    const rows: int
    const cols: int
    /** The clue of each cell, None for no clue. */
    const cells: seq<seq<Option<int>>>
    /** The status of each border, indexed as in BoardTools. */
    const borders: array<BorderStatus>
    /** The inside/outside group (0 outside, 1 inside) known for each cell. */
    var cellGroups: seq<seq<Option<int>>>
    /** How the loop enters each corner of each cell, indexed by DiagonalValue. */
    var cornerEntries: seq<seq<seq<CornerEntry>>>
    /** The (row, col, corner) pokes already handled. */
    var pokes: set<(int, int, DiagonalDirection)>
    /** True for a copy made to evaluate a guess. */
    var isClone: bool

    /** What the constructor establishes and every operation keeps. */
    ghost predicate Valid()
      reads this
    {
      && rows >= 1 && cols >= 1
      && borders.Length == NumBorders(rows, cols)
      && |cells| == rows && |cells[0]| == cols
      && IsGrid(cellGroups, rows, cols)
      && IsGrid(cornerEntries, rows, cols)
      && (forall r, c | 0 <= r < rows && 0 <= c < cols :: |cornerEntries[r][c]| == 4)
    }

    /** Valid, and every row of clues (not just the first) has `cols` entries. */
    ghost predicate WellFormed()
      reads this
    {
      Valid() && IsGrid(cells, rows, cols)
    }

    /** The cells with a clue, in row-major order. */
    function ReqCells(): (s: seq<Cell>)
      ensures forall x :: x in s <==> 0 <= x.0 < |cells| && 0 <= x.1 < |cells[x.0]| && cells[x.0][x.1].Some?
    {
      ReqCellsFrom(cells, 0)
    }

    /** The clue of a valid cell. */
    function ReqNum(row: int, col: int): Option<int>
      requires 0 <= row < |cells| && 0 <= col < |cells[row]|
    {
      cells[row][col]
    }

    constructor Init(rows: int, cols: int, cells: seq<seq<Option<int>>>)
      requires rows > 0 && cols > 0 && |cells| == rows && |cells[0]| == cols
      ensures Valid() && fresh(borders)
      ensures this.rows == rows && this.cols == cols && this.cells == cells
      ensures forall i | 0 <= i < borders.Length :: borders[i] == UNSET
      ensures forall r, c | 0 <= r < rows && 0 <= c < cols :: cellGroups[r][c].None?
      ensures forall r, c, d | 0 <= r < rows && 0 <= c < cols && 0 <= d < 4 :: cornerEntries[r][c][d] == UNKNOWN
      ensures pokes == {} && !isClone
    {
      this.rows := rows;
      this.cols := cols;
      this.cells := cells;
      RowStartNonNegative(cols, rows);
      borders := new BorderStatus[NumBorders(rows, cols)](_ => UNSET);
      cellGroups := seq(rows, _ => seq(cols, _ => None));
      cornerEntries := seq(rows, _ => seq(cols, _ => [UNKNOWN, UNKNOWN, UNKNOWN, UNKNOWN]));
      pokes := {};
      isClone := false;
    }

    /** Board(rows, cols, cells, borders): the checks of ConstructorError, then an all-UNSET board. */
    static method New(rows: int, cols: int, cells: Option<seq<seq<Option<int>>>>,
                      borders: Option<seq<BorderStatus>>) returns (r: Result<Board>)
      ensures r.Err? <==> ConstructorError(rows, cols, cells, borders).Some?
      ensures r.Err? ==> r.error == ConstructorError(rows, cols, cells, borders).value
      ensures r.Ok? ==> fresh(r.value) && fresh(r.value.borders) && r.value.Valid()
      ensures r.Ok? ==> r.value.rows == rows && r.value.cols == cols
      ensures r.Ok? ==> r.value.cells == (if cells.Some? then cells.value else seq(rows, _ => seq(cols, _ => None)))
      ensures r.Ok? ==> forall i | 0 <= i < r.value.borders.Length :: r.value.borders[i] == UNSET
    {
      var e := ConstructorError(rows, cols, cells, borders);
      if e.Some? {
        return Err(e.value);
      }
      var c := if cells.Some? then cells.value else seq(rows, _ => seq(cols, _ => None));
      var b := new Board.Init(rows, cols, c);
      return Ok(b);
    }

    /** Board.fromString: parse the clues, then construct. */
    static method FromString(rows: int, cols: int, s: string) returns (r: Result<Board>)
      ensures r.Ok? <==> rows > 0 && cols > 0 && |s| == rows * cols && forall k | 0 <= k < |s| :: IsCellChar(s[k])
      ensures r.Err? ==> r.error == ValueError
      ensures r.Ok? ==> fresh(r.value) && r.value.WellFormed() && r.value.rows == rows && r.value.cols == cols
      ensures r.Ok? ==> forall i, j | 0 <= i < rows && 0 <= j < cols ::
                          0 <= i * cols + j < |s| && CellValue(s[i * cols + j]) == Ok(r.value.cells[i][j])
    {
      var cells :- ParseCells(rows, cols, s);
      r := New(rows, cols, Some(cells), None);
    }

    /** Board.copy hands the flat border list to the constructor, whose 2-D check always rejects it. */
    method Copy() returns (r: Result<Board>)
      requires Valid()
      ensures r == Err(ValueError)
    {
      FlatBordersNeverFit(rows, cols);
      r := New(rows, cols, Some(cells), Some(borders[..]));
    }

    /**
     * The copy that Board.copy's docstring promises: a fresh board with the same clues and its
     * own border array holding the same statuses, and the solver's bookkeeping as the
     * constructor leaves it.
     */
    method DeepCopy() returns (b: Board)
      requires Valid()
      ensures fresh(b) && fresh(b.borders) && b.Valid() && !b.isClone
      ensures b.rows == rows && b.cols == cols && b.cells == cells
      ensures b.borders[..] == borders[..]
    {
      b := new Board.Init(rows, cols, cells);
      forall i | 0 <= i < borders.Length {
        b.borders[i] := borders[i];
      }
    }

    /** Board.getBorderIdx: the same formula as BoardTools.BorderIdx. */
    function GetBorderIdx(row: int, col: int, d: CardinalDirection): (idx: int)
      ensures idx == BorderIdx(cols, row, col, d)
    {
      RowStartIsProduct(cols, row);
      var base := (cols * 2 + 1) * row;
      match d
      case TOP => base + col
      case LEFT => base + cols + col
      case RIGHT => base + cols + col + 1
      case BOT => base + cols * 2 + 1 + col
    }

    /**
     * Board.getBorderStatus: Python list indexing of the border list, so a negative
     * index counts from the end and anything else out of range raises IndexError.
     */
    function GetBorderStatus(row: int, col: int, d: CardinalDirection): (r: Result<BorderStatus>)
      reads borders
      ensures r.Ok? <==> -borders.Length <= GetBorderIdx(row, col, d) < borders.Length
      ensures r.Err? ==> r.error == IndexError
      ensures 0 <= GetBorderIdx(row, col, d) < borders.Length ==> r == Ok(borders[GetBorderIdx(row, col, d)])
      ensures -borders.Length <= GetBorderIdx(row, col, d) < 0 ==> r == Ok(borders[borders.Length + GetBorderIdx(row, col, d)])
    {
      var idx := GetBorderIdx(row, col, d);
      if 0 <= idx < borders.Length then Ok(borders[idx])
      else if -borders.Length <= idx < 0 then Ok(borders[borders.Length + idx])
      else Err(IndexError)
    }

    /** The status of each arm at a corner of a valid cell. */
    function ArmsStatus(row: int, col: int, dxn: DiagonalDirection): (s: seq<BorderStatus>)
      reads this, borders
      requires Valid() && IsValidCellIdx(rows, cols, row, col)
      ensures |s| == |Arms(rows, cols, row, col, dxn)|
      ensures forall k | 0 <= k < |s| ::
                0 <= Arms(rows, cols, row, col, dxn)[k] < borders.Length && s[k] == borders[Arms(rows, cols, row, col, dxn)[k]]
    {
      ArmsInRange(rows, cols, row, col, dxn);
      Statuses(borders[..], Arms(rows, cols, row, col, dxn))
    }

    /** reset: every border UNSET, no groups, no corner entries, no pokes. */
    method Reset()
      requires Valid()
      modifies this, borders
      ensures Valid() && isClone == old(isClone)
      ensures forall i | 0 <= i < borders.Length :: borders[i] == UNSET
      ensures forall r, c | 0 <= r < rows && 0 <= c < cols :: cellGroups[r][c].None?
      ensures forall r, c, d | 0 <= r < rows && 0 <= c < cols && 0 <= d < 4 :: cornerEntries[r][c][d] == UNKNOWN
      ensures pokes == {}
    {
      forall i | 0 <= i < borders.Length {
        borders[i] := UNSET;
      }
      cellGroups := seq(rows, _ => seq(cols, _ => None));
      cornerEntries := seq(rows, _ => seq(cols, _ => [UNKNOWN, UNKNOWN, UNKNOWN, UNKNOWN]));
      pokes := {};
    }

    /** clone: an independent copy of every field, marked as a clone. */
    method Clone() returns (b: Board)
      requires Valid()
      ensures fresh(b) && fresh(b.borders) && b.Valid() && b.isClone
      ensures b.rows == rows && b.cols == cols && b.cells == cells
      ensures b.borders[..] == borders[..]
      ensures b.cellGroups == cellGroups && b.cornerEntries == cornerEntries && b.pokes == pokes
    {
      b := new Board.Init(rows, cols, cells);
      forall i | 0 <= i < borders.Length {
        b.borders[i] := borders[i];
      }
      b.cellGroups := cellGroups;
      b.cornerEntries := cornerEntries;
      b.pokes := pokes;
      b.isClone := true;
    }
  }

  /** A flat border list never has rows + 1 entries. */
  lemma FlatBordersNeverFit(rows: int, cols: int)
    requires rows >= 1 && cols >= 1
    ensures NumBorders(rows, cols) != rows + 1
  {
    RowStartIsProduct(cols, rows);
    MulMonotone(3, cols * 2 + 1, rows);
  }
}
