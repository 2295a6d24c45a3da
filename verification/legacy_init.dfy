/**
 * The older first pass of the solver. Every write reports whether it agreed with the
 * border, a failed write stops the writes after it, and a 3-cell looks only at its
 * immediate diagonal neighbours (no run of 2-cells in between).
 */
module LegacyInit {
  import opened Outcomes
  import opened Enums
  import opened BoardTools
  import opened BoardModel
  import opened SetBorder
  import opened Initial

  /** _setBorder: an UNSET border takes the status; true exactly when the border was UNSET or already had it. */
  method LegacySetBorder(board: Board, idx: int, st: BorderStatus) returns (ok: bool)
    requires 0 <= idx < board.borders.Length
    modifies board.borders
    ensures ok <==> old(board.borders[idx]) == UNSET || old(board.borders[idx]) == st
    ensures board.borders[..] == Fill(old(board.borders[..]), [idx], st)
  {
    if board.borders[idx] == st {
    } else if board.borders[idx] == UNSET {
      board.borders[idx] := st;
    } else {
      return false;
    }
    return true;
  }

  /** The position of the first listed border whose set status is not st, or |idxs| when there is none. */
  function FirstConflict(bs: seq<BorderStatus>, idxs: seq<int>, st: BorderStatus): (j: nat)
    requires forall k | 0 <= k < |idxs| :: 0 <= idxs[k] < |bs|
    ensures j <= |idxs|
    ensures forall k | 0 <= k < j :: bs[idxs[k]] == UNSET || bs[idxs[k]] == st
    ensures j < |idxs| ==> bs[idxs[j]] != UNSET && bs[idxs[j]] != st
  {
    if idxs == [] then 0
    else if bs[idxs[0]] != UNSET && bs[idxs[0]] != st then 0
    else 1 + FirstConflict(bs, idxs[1..], st)
  }

  /**
   * `ok = ok and _setBorder(b, st)` for each listed border in turn: the borders before the
   * first conflict are filled and nothing from the conflict on is written; the flag stays
   * true exactly when no listed border had the other set status. A false flag on entry
   * writes nothing.
   */
  function SetRun(bs: seq<BorderStatus>, idxs: seq<int>, st: BorderStatus, ok: bool): (r: (seq<BorderStatus>, bool))
    requires forall k | 0 <= k < |idxs| :: 0 <= idxs[k] < |bs|
    ensures |r.0| == |bs| && Grows(bs, r.0)
    ensures r.1 <==> ok && forall k | 0 <= k < |idxs| :: bs[idxs[k]] == UNSET || bs[idxs[k]] == st
  {
    if !ok then (bs, false)
    else
      var j := FirstConflict(bs, idxs, st);
      (Fill(bs, idxs[..j], st), j == |idxs|)
  }

  /** Filling a border whose status is set changes nothing. */
  lemma FillSetBorder(bs: seq<BorderStatus>, x: int, st: BorderStatus)
    requires 0 <= x < |bs| && bs[x] != UNSET
    ensures Fill(bs, [x], st) == bs
  {
    var r := Fill(bs, [x], st);
    forall i | 0 <= i < |bs| ensures r[i] == bs[i] {
    }
  }

  /** The loop `for b in idxs: ok = ok and _setBorder(board, b, st)`. */
  method SetBordersWhileOk(board: Board, idxs: seq<int>, st: BorderStatus, ok0: bool) returns (ok: bool)
    requires forall k | 0 <= k < |idxs| :: 0 <= idxs[k] < board.borders.Length
    modifies board.borders
    ensures (board.borders[..], ok) == SetRun(old(board.borders[..]), idxs, st, ok0)
  {
    ghost var start := board.borders[..];
    ghost var j := FirstConflict(start, idxs, st);
    ok := ok0;
    for n := 0 to |idxs|
      invariant ok <==> ok0 && n <= j
      invariant board.borders[..] == (if !ok0 then start else Fill(start, idxs[..if n <= j then n else j], st))
    {
      if ok {
        ghost var before := board.borders[..];
        ok := LegacySetBorder(board, idxs[n], st);
        if n < j {
          FillSnoc(start, idxs[..n], idxs[n], st);
          assert idxs[..n] + [idxs[n]] == idxs[..n + 1];
        } else {
          assert before[idxs[n]] == start[idxs[n]];
          FillSetBorder(before, idxs[n], st);
        }
      }
    }
    assert idxs[..|idxs|] == idxs;
  }

  /** Every listed border is a border of bs with status st. */
  ghost predicate HasAll(bs: seq<BorderStatus>, idxs: seq<int>, st: BorderStatus)
  {
    forall k | 0 <= k < |idxs| :: 0 <= idxs[k] < |bs| && bs[idxs[k]] == st
  }

  /** A set status survives growth. */
  lemma HasAllGrows(a: seq<BorderStatus>, b: seq<BorderStatus>, idxs: seq<int>, st: BorderStatus)
    requires st != UNSET && HasAll(a, idxs, st) && Grows(a, b)
    ensures HasAll(b, idxs, st)
  {
  }

  /** A run that kept its flag gave every listed border the status st. */
  lemma SetRunExact(bs: seq<BorderStatus>, idxs: seq<int>, st: BorderStatus, ok: bool)
    requires st != UNSET && forall k | 0 <= k < |idxs| :: 0 <= idxs[k] < |bs|
    requires SetRun(bs, idxs, st, ok).1
    ensures HasAll(SetRun(bs, idxs, st, ok).0, idxs, st)
  {
    assert idxs[..|idxs|] == idxs;
  }

  /** The cell across side d of (row, col), on or off the grid. */
  function Beside(row: int, col: int, d: CardinalDirection): (c: Cell)
    ensures c == (if d == TOP then row - 1 else if d == BOT then row + 1 else row,
                  if d == LEFT then col - 1 else if d == RIGHT then col + 1 else col)
  {
    match d
    case TOP => (row - 1, col)
    case RIGHT => (row, col + 1)
    case BOT => (row + 1, col)
    case LEFT => (row, col - 1)
  }

  /**
   * `cell in reqCells and board.cells[row][col] == 3`. The cells of reqCells are valid, so
   * the validity conjunct only makes the indexing total.
   */
  predicate IsReq3(board: Board, reqCells: seq<Cell>, cell: Cell)
    requires IsGrid(board.cells, board.rows, board.cols)
  {
    cell in reqCells && IsValidCellIdx(board.rows, board.cols, cell.0, cell.1) && board.cells[cell.0][cell.1] == Some(3)
  }

  /** _setAdj3CellBorders: the parallel pair ACTIVE, then the outer borders at the shared side BLANK. */
  function LegacyAdj3Pair(board: Board, bs: seq<BorderStatus>, row: int, col: int, d: CardinalDirection): (r: (seq<BorderStatus>, bool))
    requires IsShaped(board) && IsValidCellIdx(board.rows, board.cols, row, col) && |bs| == NumBorders(board.rows, board.cols)
    ensures |r.0| == |bs| && Grows(bs, r.0)
    ensures r.1 ==> HasAll(r.0, Adj3Active(board.cols, row, col, d), ACTIVE)
    ensures r.1 ==> HasAll(r.0, Adj3Blank(board.rows, board.cols, row, col, d, Beside(row, col, d)), BLANK)
  {
    Adj3ActiveValid(board.rows, board.cols, row, col, d);
    var active := Adj3Active(board.cols, row, col, d);
    var blank := Adj3Blank(board.rows, board.cols, row, col, d, Beside(row, col, d));
    assert forall k | 0 <= k < |blank| :: blank[k] in blank;
    var a := SetRun(bs, active, ACTIVE, true);
    var b := SetRun(a.0, blank, BLANK, a.1);
    if b.1 then
      SetRunExact(bs, active, ACTIVE, true);
      HasAllGrows(a.0, b.0, active, ACTIVE);
      SetRunExact(a.0, blank, BLANK, a.1);
      b
    else b
  }

  /** One neighbour check of _handleAdjacent3Cells: a failed flag skips the call. */
  function LegacyAdj3Step(board: Board, reqCells: seq<Cell>, p: (seq<BorderStatus>, bool), row: int, col: int,
                          d: CardinalDirection): (r: (seq<BorderStatus>, bool))
    requires IsShaped(board) && IsValidCellIdx(board.rows, board.cols, row, col) && |p.0| == NumBorders(board.rows, board.cols)
    ensures |r.0| == |p.0| && Grows(p.0, r.0) && (r.1 ==> p.1)
  {
    if p.1 && IsReq3(board, reqCells, Beside(row, col, d)) then LegacyAdj3Pair(board, p.0, row, col, d) else p
  }

  /** _handleAdjacent3Cells: the neighbours TOP, RIGHT, BOT, LEFT in turn, starting from success. */
  function LegacyAdjacent3(board: Board, reqCells: seq<Cell>, bs: seq<BorderStatus>, row: int, col: int): (r: (seq<BorderStatus>, bool))
    requires IsShaped(board) && IsValidCellIdx(board.rows, board.cols, row, col) && |bs| == NumBorders(board.rows, board.cols)
    ensures |r.0| == |bs| && Grows(bs, r.0)
    ensures (forall d :: !IsReq3(board, reqCells, Beside(row, col, d))) ==> r == (bs, true)
  {
    var s1 := LegacyAdj3Step(board, reqCells, (bs, true), row, col, TOP);
    var s2 := LegacyAdj3Step(board, reqCells, s1, row, col, RIGHT);
    var s3 := LegacyAdj3Step(board, reqCells, s2, row, col, BOT);
    LegacyAdj3Step(board, reqCells, s3, row, col, LEFT)
  }

  /** _setCorner: the corner's two sides ACTIVE, then its arms BLANK. */
  function LegacyCorner(board: Board, bs: seq<BorderStatus>, row: int, col: int, corner: DiagonalDirection): (r: (seq<BorderStatus>, bool))
    requires IsShaped(board) && IsValidCellIdx(board.rows, board.cols, row, col) && |bs| == NumBorders(board.rows, board.cols)
    ensures |r.0| == |bs| && Grows(bs, r.0)
    ensures r.1 ==> HasAll(r.0, CornerPair(board.cols, row, col, corner), ACTIVE)
    ensures r.1 ==> HasAll(r.0, Arms(board.rows, board.cols, row, col, corner), BLANK)
  {
    CellBordersValid(board.rows, board.cols, row, col);
    ArmsInRange(board.rows, board.cols, row, col, corner);
    var pair := CornerPair(board.cols, row, col, corner);
    var arms := Arms(board.rows, board.cols, row, col, corner);
    var a := SetRun(bs, pair, ACTIVE, true);
    var b := SetRun(a.0, arms, BLANK, a.1);
    if b.1 then
      SetRunExact(bs, pair, ACTIVE, true);
      HasAllGrows(a.0, b.0, pair, ACTIVE);
      SetRunExact(a.0, arms, BLANK, a.1);
      b
    else b
  }

  /** One diagonal check of _handleDiagonallyAdjacent3Cells: only the immediate diagonal neighbour counts. */
  function LegacyDiagStep(board: Board, reqCells: seq<Cell>, p: (seq<BorderStatus>, bool), row: int, col: int,
                          dxn: DiagonalDirection): (r: (seq<BorderStatus>, bool))
    requires IsShaped(board) && IsValidCellIdx(board.rows, board.cols, row, col) && |p.0| == NumBorders(board.rows, board.cols)
    ensures |r.0| == |p.0| && Grows(p.0, r.0) && (r.1 ==> p.1)
  {
    if p.1 && IsReq3(board, reqCells, (DiagRow(row, dxn), DiagCol(col, dxn))) then LegacyCorner(board, p.0, row, col, dxn.Opposite())
    else p
  }

  /** _handleDiagonallyAdjacent3Cells: the diagonals ULEFT, URIGHT, LRIGHT, LLEFT in turn, starting from success. */
  function LegacyDiagonal3(board: Board, reqCells: seq<Cell>, bs: seq<BorderStatus>, row: int, col: int): (r: (seq<BorderStatus>, bool))
    requires IsShaped(board) && IsValidCellIdx(board.rows, board.cols, row, col) && |bs| == NumBorders(board.rows, board.cols)
    ensures |r.0| == |bs| && Grows(bs, r.0)
    ensures (forall dxn :: !IsReq3(board, reqCells, (DiagRow(row, dxn), DiagCol(col, dxn)))) ==> r == (bs, true)
  {
    var s1 := LegacyDiagStep(board, reqCells, (bs, true), row, col, ULEFT);
    var s2 := LegacyDiagStep(board, reqCells, s1, row, col, URIGHT);
    var s3 := LegacyDiagStep(board, reqCells, s2, row, col, LRIGHT);
    LegacyDiagStep(board, reqCells, s3, row, col, LLEFT)
  }

  /** The border state and success flag after solveInit's loop body for one clue cell. */
  function LegacyCell(board: Board, reqCells: seq<Cell>, bs: seq<BorderStatus>, cell: Cell): (r: (seq<BorderStatus>, bool))
    requires IsShaped(board) && IsValidCellIdx(board.rows, board.cols, cell.0, cell.1) && |bs| == NumBorders(board.rows, board.cols)
    ensures |r.0| == |bs| && Grows(bs, r.0)
  {
    var (row, col) := cell;
    if board.cells[row][col] == Some(0) then
      CellBorderSeqValid(board.rows, board.cols, row, col);
      SetRun(bs, CellBorderSeq(board.cols, row, col), BLANK, true)
    else if board.cells[row][col] == Some(3) then
      var a := LegacyAdjacent3(board, reqCells, bs, row, col);
      if a.1 then LegacyDiagonal3(board, reqCells, a.0, row, col) else a
    else (bs, true)
  }

  /**
   * The border state after solveInit's loop over `cells`, and how many cells succeeded:
   * the count is |cells| when every cell succeeded, and otherwise the position of the
   * cell that failed, after which no cell is handled.
   */
  function LegacyRun(board: Board, reqCells: seq<Cell>, bs: seq<BorderStatus>, cells: seq<Cell>): (r: (seq<BorderStatus>, nat))
    requires IsShaped(board) && |bs| == NumBorders(board.rows, board.cols)
    requires forall k | 0 <= k < |cells| :: IsValidCellIdx(board.rows, board.cols, cells[k].0, cells[k].1)
    ensures |r.0| == |bs| && Grows(bs, r.0) && r.1 <= |cells|
  {
    if cells == [] then (bs, 0)
    else
      var n := |cells|;
      var p := LegacyRun(board, reqCells, bs, cells[..n - 1]);
      if p.1 < n - 1 then p
      else
        var c := LegacyCell(board, reqCells, p.0, cells[n - 1]);
        (c.0, if c.1 then n else n - 1)
  }

  /** Once a cell has failed, the cells after it change nothing. */
  lemma {:induction false} LegacyRunStops(board: Board, reqCells: seq<Cell>, bs: seq<BorderStatus>, cells: seq<Cell>, i: nat)
    requires IsShaped(board) && |bs| == NumBorders(board.rows, board.cols)
    requires forall k | 0 <= k < |cells| :: IsValidCellIdx(board.rows, board.cols, cells[k].0, cells[k].1)
    requires i <= |cells| && LegacyRun(board, reqCells, bs, cells[..i]).1 < i
    ensures LegacyRun(board, reqCells, bs, cells) == LegacyRun(board, reqCells, bs, cells[..i])
    decreases |cells|
  {
    if i < |cells| {
      var n := |cells|;
      assert cells[..n - 1][..i] == cells[..i];
      LegacyRunStops(board, reqCells, bs, cells[..n - 1], i);
    } else {
      assert cells[..i] == cells;
    }
  }

  /**
   * The old solveInit over reqCells in the given order: after a failure it answers
   * Some(false) at the top of the next iteration; otherwise it falls off the end of the
   * function and answers None, so it never answers Some(true).
   */
  method LegacySolveInit(board: Board, reqCells: seq<Cell>) returns (r: Option<bool>)
    requires board.WellFormed()
    requires forall k | 0 <= k < |reqCells| :: IsValidCellIdx(board.rows, board.cols, reqCells[k].0, reqCells[k].1)
    modifies board.borders
    ensures board.borders[..] == LegacyRun(board, reqCells, old(board.borders[..]), reqCells).0
    ensures r == (if LegacyRun(board, reqCells, old(board.borders[..]), reqCells).1 + 1 < |reqCells| then Some(false) else None)
  {
    ghost var start := board.borders[..];
    r := None;
    var isSuccess := true;
    for i := 0 to |reqCells|
      invariant board.borders[..] == LegacyRun(board, reqCells, start, reqCells[..i]).0
      invariant isSuccess <==> LegacyRun(board, reqCells, start, reqCells[..i]).1 == i
      invariant i > 0 ==> LegacyRun(board, reqCells, start, reqCells[..i]).1 >= i - 1
    {
      if !isSuccess {
        LegacyRunStops(board, reqCells, start, reqCells, i);
        return Some(false);
      }
      assert reqCells[..i + 1][..i] == reqCells[..i];
      isSuccess := LegacyOneCell(board, reqCells, reqCells[i].0, reqCells[i].1);
    }
    assert reqCells[..|reqCells|] == reqCells;
  }

  /** solveInit's loop body for one clue cell, entered with a true flag. */
  method LegacyOneCell(board: Board, reqCells: seq<Cell>, row: int, col: int) returns (ok: bool)
    requires board.WellFormed() && IsValidCellIdx(board.rows, board.cols, row, col)
    modifies board.borders
    ensures (board.borders[..], ok) == LegacyCell(board, reqCells, old(board.borders[..]), (row, col))
  {
    if board.cells[row][col] == Some(0) {
      CellBorderSeqValid(board.rows, board.cols, row, col);
      ok := SetBordersWhileOk(board, CellBorderSeq(board.cols, row, col), BLANK, true);
    } else if board.cells[row][col] == Some(3) {
      ok := LegacyHandleAdjacent3Cells(board, reqCells, row, col);
      if ok {
        ok := LegacyHandleDiagonal3Cells(board, reqCells, row, col);
      }
    } else {
      ok := true;
    }
  }

  /** _setAdj3CellBorders. */
  method LegacySetAdj3CellBorders(board: Board, row: int, col: int, d: CardinalDirection) returns (ok: bool)
    requires board.WellFormed() && IsValidCellIdx(board.rows, board.cols, row, col)
    modifies board.borders
    ensures (board.borders[..], ok) == LegacyAdj3Pair(board, old(board.borders[..]), row, col, d)
  {
    Adj3ActiveValid(board.rows, board.cols, row, col, d);
    var blank := Adj3Blank(board.rows, board.cols, row, col, d, Beside(row, col, d));
    assert forall k | 0 <= k < |blank| :: blank[k] in blank;
    ok := SetBordersWhileOk(board, Adj3Active(board.cols, row, col, d), ACTIVE, true);
    ok := SetBordersWhileOk(board, blank, BLANK, ok);
  }

  /** One `if (neighbour in reqCells and its clue is 3): isSuccess = isSuccess and _setAdj3CellBorders(...)`. */
  method LegacyAdj3Check(board: Board, reqCells: seq<Cell>, ok0: bool, row: int, col: int, d: CardinalDirection) returns (ok: bool)
    requires board.WellFormed() && IsValidCellIdx(board.rows, board.cols, row, col)
    modifies board.borders
    ensures (board.borders[..], ok) == LegacyAdj3Step(board, reqCells, (old(board.borders[..]), ok0), row, col, d)
  {
    ok := ok0;
    if ok && IsReq3(board, reqCells, Beside(row, col, d)) {
      ok := LegacySetAdj3CellBorders(board, row, col, d);
    }
  }

  /** _handleAdjacent3Cells. */
  method LegacyHandleAdjacent3Cells(board: Board, reqCells: seq<Cell>, row: int, col: int) returns (ok: bool)
    requires board.WellFormed() && IsValidCellIdx(board.rows, board.cols, row, col)
    modifies board.borders
    ensures (board.borders[..], ok) == LegacyAdjacent3(board, reqCells, old(board.borders[..]), row, col)
  {
    ok := LegacyAdj3Check(board, reqCells, true, row, col, TOP);
    ok := LegacyAdj3Check(board, reqCells, ok, row, col, RIGHT);
    ok := LegacyAdj3Check(board, reqCells, ok, row, col, BOT);
    ok := LegacyAdj3Check(board, reqCells, ok, row, col, LEFT);
  }

  /** _setCorner. */
  method LegacySetCorner(board: Board, row: int, col: int, corner: DiagonalDirection) returns (ok: bool)
    requires board.WellFormed() && IsValidCellIdx(board.rows, board.cols, row, col)
    modifies board.borders
    ensures (board.borders[..], ok) == LegacyCorner(board, old(board.borders[..]), row, col, corner)
  {
    CellBordersValid(board.rows, board.cols, row, col);
    ArmsInRange(board.rows, board.cols, row, col, corner);
    ok := SetBordersWhileOk(board, CornerPair(board.cols, row, col, corner), ACTIVE, true);
    ok := SetBordersWhileOk(board, Arms(board.rows, board.cols, row, col, corner), BLANK, ok);
  }

  /** One `if (diagonal cell in reqCells and its clue is 3): isSuccess = isSuccess and _setCorner(opposite corner)`. */
  method LegacyDiagCheck(board: Board, reqCells: seq<Cell>, ok0: bool, row: int, col: int, dxn: DiagonalDirection) returns (ok: bool)
    requires board.WellFormed() && IsValidCellIdx(board.rows, board.cols, row, col)
    modifies board.borders
    ensures (board.borders[..], ok) == LegacyDiagStep(board, reqCells, (old(board.borders[..]), ok0), row, col, dxn)
  {
    ok := ok0;
    if ok && IsReq3(board, reqCells, (DiagRow(row, dxn), DiagCol(col, dxn))) {
      ok := LegacySetCorner(board, row, col, dxn.Opposite());
    }
  }

  /** _handleDiagonallyAdjacent3Cells: the diagonal cells up-left, up-right, down-right, down-left. */
  method LegacyHandleDiagonal3Cells(board: Board, reqCells: seq<Cell>, row: int, col: int) returns (ok: bool)
    requires board.WellFormed() && IsValidCellIdx(board.rows, board.cols, row, col)
    modifies board.borders
    ensures (board.borders[..], ok) == LegacyDiagonal3(board, reqCells, old(board.borders[..]), row, col)
  {
    ok := LegacyDiagCheck(board, reqCells, true, row, col, ULEFT);
    ok := LegacyDiagCheck(board, reqCells, ok, row, col, URIGHT);
    ok := LegacyDiagCheck(board, reqCells, ok, row, col, LRIGHT);
    ok := LegacyDiagCheck(board, reqCells, ok, row, col, LLEFT);
  }

  /**
   * What a successful pass guarantees about a clue cell: a 0-cell has four BLANK sides; a
   * 3-cell with a 3-cell of reqCells beside it has the parallel pair ACTIVE and the outer
   * borders at the shared side BLANK; a 3-cell with a 3-cell of reqCells at a diagonal has
   * the opposite corner's sides ACTIVE and its arms BLANK.
   */
  ghost predicate LegacySettled(board: Board, reqCells: seq<Cell>, bs: seq<BorderStatus>, cell: Cell)
    requires IsShaped(board) && IsValidCellIdx(board.rows, board.cols, cell.0, cell.1)
  {
    var (row, col) := cell;
    && (board.cells[row][col] == Some(0) ==> HasAll(bs, CellBorderSeq(board.cols, row, col), BLANK))
    && (board.cells[row][col] == Some(3) ==> LegacyAdjacentSettled(board, reqCells, bs, row, col)
                                             && LegacyDiagonalSettled(board, reqCells, bs, row, col))
  }

  ghost predicate LegacyAdjacentSettled(board: Board, reqCells: seq<Cell>, bs: seq<BorderStatus>, row: int, col: int)
    requires IsShaped(board)
  {
    forall d | IsReq3(board, reqCells, Beside(row, col, d)) ::
      HasAll(bs, Adj3Active(board.cols, row, col, d), ACTIVE)
      && HasAll(bs, Adj3Blank(board.rows, board.cols, row, col, d, Beside(row, col, d)), BLANK)
  }

  ghost predicate LegacyDiagonalSettled(board: Board, reqCells: seq<Cell>, bs: seq<BorderStatus>, row: int, col: int)
    requires IsShaped(board)
  {
    forall dxn | IsReq3(board, reqCells, (DiagRow(row, dxn), DiagCol(col, dxn))) ::
      HasAll(bs, CornerPair(board.cols, row, col, dxn.Opposite()), ACTIVE)
      && HasAll(bs, Arms(board.rows, board.cols, row, col, dxn.Opposite()), BLANK)
  }

  lemma LegacyAdjacentSettledGrows(board: Board, reqCells: seq<Cell>, a: seq<BorderStatus>, b: seq<BorderStatus>, row: int, col: int)
    requires IsShaped(board) && LegacyAdjacentSettled(board, reqCells, a, row, col) && Grows(a, b)
    ensures LegacyAdjacentSettled(board, reqCells, b, row, col)
  {
    forall d | IsReq3(board, reqCells, Beside(row, col, d))
      ensures HasAll(b, Adj3Active(board.cols, row, col, d), ACTIVE)
      ensures HasAll(b, Adj3Blank(board.rows, board.cols, row, col, d, Beside(row, col, d)), BLANK)
    {
      HasAllGrows(a, b, Adj3Active(board.cols, row, col, d), ACTIVE);
      HasAllGrows(a, b, Adj3Blank(board.rows, board.cols, row, col, d, Beside(row, col, d)), BLANK);
    }
  }

  lemma LegacyDiagonalSettledGrows(board: Board, reqCells: seq<Cell>, a: seq<BorderStatus>, b: seq<BorderStatus>, row: int, col: int)
    requires IsShaped(board) && LegacyDiagonalSettled(board, reqCells, a, row, col) && Grows(a, b)
    ensures LegacyDiagonalSettled(board, reqCells, b, row, col)
  {
    forall dxn | IsReq3(board, reqCells, (DiagRow(row, dxn), DiagCol(col, dxn)))
      ensures HasAll(b, CornerPair(board.cols, row, col, dxn.Opposite()), ACTIVE)
      ensures HasAll(b, Arms(board.rows, board.cols, row, col, dxn.Opposite()), BLANK)
    {
      HasAllGrows(a, b, CornerPair(board.cols, row, col, dxn.Opposite()), ACTIVE);
      HasAllGrows(a, b, Arms(board.rows, board.cols, row, col, dxn.Opposite()), BLANK);
    }
  }

  lemma LegacySettledGrows(board: Board, reqCells: seq<Cell>, a: seq<BorderStatus>, b: seq<BorderStatus>, cell: Cell)
    requires IsShaped(board) && IsValidCellIdx(board.rows, board.cols, cell.0, cell.1)
    requires LegacySettled(board, reqCells, a, cell) && Grows(a, b)
    ensures LegacySettled(board, reqCells, b, cell)
  {
    var (row, col) := cell;
    if board.cells[row][col] == Some(0) {
      HasAllGrows(a, b, CellBorderSeq(board.cols, row, col), BLANK);
    } else if board.cells[row][col] == Some(3) {
      LegacyAdjacentSettledGrows(board, reqCells, a, b, row, col);
      LegacyDiagonalSettledGrows(board, reqCells, a, b, row, col);
    }
  }

  /** A successful _handleAdjacent3Cells settles every neighbouring 3-cell of reqCells. */
  lemma LegacyAdjacent3Settles(board: Board, reqCells: seq<Cell>, bs: seq<BorderStatus>, row: int, col: int)
    requires IsShaped(board) && IsValidCellIdx(board.rows, board.cols, row, col) && |bs| == NumBorders(board.rows, board.cols)
    requires LegacyAdjacent3(board, reqCells, bs, row, col).1
    ensures LegacyAdjacentSettled(board, reqCells, LegacyAdjacent3(board, reqCells, bs, row, col).0, row, col)
  {
    var s1 := LegacyAdj3Step(board, reqCells, (bs, true), row, col, TOP);
    var s2 := LegacyAdj3Step(board, reqCells, s1, row, col, RIGHT);
    var s3 := LegacyAdj3Step(board, reqCells, s2, row, col, BOT);
    var r := LegacyAdj3Step(board, reqCells, s3, row, col, LEFT);
    forall d | IsReq3(board, reqCells, Beside(row, col, d))
      ensures HasAll(r.0, Adj3Active(board.cols, row, col, d), ACTIVE)
      ensures HasAll(r.0, Adj3Blank(board.rows, board.cols, row, col, d, Beside(row, col, d)), BLANK)
    {
      var after := match d case TOP => s1 case RIGHT => s2 case BOT => s3 case LEFT => r;
      HasAllGrows(after.0, r.0, Adj3Active(board.cols, row, col, d), ACTIVE);
      HasAllGrows(after.0, r.0, Adj3Blank(board.rows, board.cols, row, col, d, Beside(row, col, d)), BLANK);
    }
  }

  /** A successful _handleDiagonallyAdjacent3Cells settles every diagonal 3-cell of reqCells. */
  lemma LegacyDiagonal3Settles(board: Board, reqCells: seq<Cell>, bs: seq<BorderStatus>, row: int, col: int)
    requires IsShaped(board) && IsValidCellIdx(board.rows, board.cols, row, col) && |bs| == NumBorders(board.rows, board.cols)
    requires LegacyDiagonal3(board, reqCells, bs, row, col).1
    ensures LegacyDiagonalSettled(board, reqCells, LegacyDiagonal3(board, reqCells, bs, row, col).0, row, col)
  {
    var s1 := LegacyDiagStep(board, reqCells, (bs, true), row, col, ULEFT);
    var s2 := LegacyDiagStep(board, reqCells, s1, row, col, URIGHT);
    var s3 := LegacyDiagStep(board, reqCells, s2, row, col, LRIGHT);
    var r := LegacyDiagStep(board, reqCells, s3, row, col, LLEFT);
    forall dxn | IsReq3(board, reqCells, (DiagRow(row, dxn), DiagCol(col, dxn)))
      ensures HasAll(r.0, CornerPair(board.cols, row, col, dxn.Opposite()), ACTIVE)
      ensures HasAll(r.0, Arms(board.rows, board.cols, row, col, dxn.Opposite()), BLANK)
    {
      var after := match dxn case ULEFT => s1 case URIGHT => s2 case LRIGHT => s3 case LLEFT => r;
      HasAllGrows(after.0, r.0, CornerPair(board.cols, row, col, dxn.Opposite()), ACTIVE);
      HasAllGrows(after.0, r.0, Arms(board.rows, board.cols, row, col, dxn.Opposite()), BLANK);
    }
  }

  /** A cell whose loop body succeeded is settled. */
  lemma LegacyCellSettles(board: Board, reqCells: seq<Cell>, bs: seq<BorderStatus>, cell: Cell)
    requires IsShaped(board) && IsValidCellIdx(board.rows, board.cols, cell.0, cell.1) && |bs| == NumBorders(board.rows, board.cols)
    requires LegacyCell(board, reqCells, bs, cell).1
    ensures LegacySettled(board, reqCells, LegacyCell(board, reqCells, bs, cell).0, cell)
  {
    var (row, col) := cell;
    if board.cells[row][col] == Some(0) {
      CellBorderSeqValid(board.rows, board.cols, row, col);
      SetRunExact(bs, CellBorderSeq(board.cols, row, col), BLANK, true);
    } else if board.cells[row][col] == Some(3) {
      var a := LegacyAdjacent3(board, reqCells, bs, row, col);
      LegacyAdjacent3Settles(board, reqCells, bs, row, col);
      LegacyAdjacentSettledGrows(board, reqCells, a.0, LegacyDiagonal3(board, reqCells, a.0, row, col).0, row, col);
      LegacyDiagonal3Settles(board, reqCells, a.0, row, col);
    }
  }

  /** When every cell succeeded, every handled cell is settled at the end. */
  lemma {:induction false} LegacyRunSettled(board: Board, reqCells: seq<Cell>, bs: seq<BorderStatus>, cells: seq<Cell>)
    requires IsShaped(board) && |bs| == NumBorders(board.rows, board.cols)
    requires forall k | 0 <= k < |cells| :: IsValidCellIdx(board.rows, board.cols, cells[k].0, cells[k].1)
    requires LegacyRun(board, reqCells, bs, cells).1 == |cells|
    ensures forall k | 0 <= k < |cells| :: LegacySettled(board, reqCells, LegacyRun(board, reqCells, bs, cells).0, cells[k])
  {
    if cells != [] {
      var n := |cells|;
      var prefix := cells[..n - 1];
      var mid := LegacyRun(board, reqCells, bs, prefix);
      var last := LegacyCell(board, reqCells, mid.0, cells[n - 1]);
      assert mid.1 == n - 1 && last.1;
      assert LegacyRun(board, reqCells, bs, cells).0 == last.0;
      LegacyRunSettled(board, reqCells, bs, prefix);
      LegacyCellSettles(board, reqCells, mid.0, cells[n - 1]);
      forall k | 0 <= k < n ensures LegacySettled(board, reqCells, last.0, cells[k]) {
        if k < n - 1 {
          assert prefix[k] == cells[k];
          LegacySettledGrows(board, reqCells, mid.0, last.0, prefix[k]);
        }
      }
    }
  }

  /**
   * solveInit as its documentation describes it: true when every cell succeeded, false
   * as soon as one failed (the cells after a failure are not handled).
   */
  method SolveInitReporting(board: Board, reqCells: seq<Cell>) returns (ok: bool)
    requires board.WellFormed()
    requires forall k | 0 <= k < |reqCells| :: IsValidCellIdx(board.rows, board.cols, reqCells[k].0, reqCells[k].1)
    modifies board.borders
    ensures board.borders[..] == LegacyRun(board, reqCells, old(board.borders[..]), reqCells).0
    ensures ok <==> LegacyRun(board, reqCells, old(board.borders[..]), reqCells).1 == |reqCells|
    ensures ok ==> forall k | 0 <= k < |reqCells| :: LegacySettled(board, reqCells, board.borders[..], reqCells[k])
  {
    ghost var start := board.borders[..];
    ok := true;
    for i := 0 to |reqCells|
      invariant board.borders[..] == LegacyRun(board, reqCells, start, reqCells[..i]).0
      invariant ok <==> LegacyRun(board, reqCells, start, reqCells[..i]).1 == i
    {
      if !ok {
        LegacyRunStops(board, reqCells, start, reqCells, i);
        return false;
      }
      assert reqCells[..i + 1][..i] == reqCells[..i];
      ok := LegacyOneCell(board, reqCells, reqCells[i].0, reqCells[i].1);
    }
    assert reqCells[..|reqCells|] == reqCells;
    if ok {
      LegacyRunSettled(board, reqCells, start, reqCells);
    }
  }
}
