/**
 * The first pass of the solver: 0-cells, adjacent 3-cells and 3-cells facing each other
 * diagonally (possibly through a run of 2-cells). Every write here keeps a border that
 * is already set, so conflicts are silently ignored.
 */
module Initial {
  import opened Outcomes
  import opened Enums
  import opened BoardTools
  import opened BoardModel
  import opened SetBorder

  /**
   * The listed borders that were UNSET take status st; every other border keeps its status.
   * A list in which an index repeats, or a later fill with the same status, changes nothing more.
   */
  function Fill(bs: seq<BorderStatus>, idxs: seq<int>, st: BorderStatus): (r: seq<BorderStatus>)
    ensures |r| == |bs| && Grows(bs, r)
    ensures forall i | 0 <= i < |bs| :: r[i] != bs[i] ==> bs[i] == UNSET && i in idxs && r[i] == st
    ensures st != UNSET ==> forall k | 0 <= k < |idxs| && 0 <= idxs[k] < |bs| :: r[idxs[k]] != UNSET
  {
    seq(|bs|, i requires 0 <= i < |bs| => if bs[i] == UNSET && i in idxs then st else bs[i])
  }

  /** Some listed border is UNSET. */
  predicate AnyUnset(bs: seq<BorderStatus>, idxs: seq<int>)
  {
    exists k | 0 <= k < |idxs| :: 0 <= idxs[k] < |bs| && bs[idxs[k]] == UNSET
  }

  /**
   * A loop that calls setBorder on each listed border that is UNSET when its turn comes:
   * those borders take status st, and a move is found exactly when there was one.
   */
  function FillStep(bs: seq<BorderStatus>, idxs: seq<int>, st: BorderStatus): (s: Step)
    ensures |s.0| == |bs| && s.1.Ok?
  {
    (Fill(bs, idxs, st), Ok(AnyUnset(bs, idxs)))
  }

  /** Such a loop never raises and is a sound step. */
  lemma FillStepSound(bs: seq<BorderStatus>, idxs: seq<int>, st: BorderStatus)
    requires st != UNSET
    ensures Sound(bs, FillStep(bs, idxs, st))
  {
    var f := Fill(bs, idxs, st);
    if AnyUnset(bs, idxs) {
      var k :| 0 <= k < |idxs| && 0 <= idxs[k] < |bs| && bs[idxs[k]] == UNSET;
      assert f[idxs[k]] != UNSET;
    } else {
      assert forall i | 0 <= i < |bs| :: f[i] == bs[i];
      assert f == bs;
    }
  }

  /**
   * The loop itself: for each listed border, setBorder if it is UNSET at that point
   * (a write never fails then).
   */
  method FillUnset(board: Board, idxs: seq<int>, st: BorderStatus) returns (found: bool)
    requires forall k | 0 <= k < |idxs| :: 0 <= idxs[k] < board.borders.Length
    modifies board.borders
    ensures (board.borders[..], Ok(found)) == FillStep(old(board.borders[..]), idxs, st)
  {
    ghost var start := board.borders[..];
    found := false;
    for n := 0 to |idxs|
      invariant board.borders[..] == Fill(start, idxs[..n], st)
      invariant found <==> AnyUnset(start, idxs[..n])
    {
      FillSnoc(start, idxs[..n], idxs[n], st);
      assert idxs[..n + 1] == idxs[..n] + [idxs[n]];
      if board.borders[idxs[n]] == UNSET {
        var _ := SetBorder.SetBorder(board, idxs[n], st);
        found := true;
      }
      assert AnyUnset(start, idxs[..n + 1]) <==> AnyUnset(start, idxs[..n]) || start[idxs[n]] == UNSET;
    }
    assert idxs[..|idxs|] == idxs;
  }

  /** Filling one more index extends the fill of the list before it. */
  lemma FillSnoc(bs: seq<BorderStatus>, idxs: seq<int>, x: int, st: BorderStatus)
    ensures Fill(Fill(bs, idxs, st), [x], st) == Fill(bs, idxs + [x], st)
  {
    var l := Fill(Fill(bs, idxs, st), [x], st);
    var r := Fill(bs, idxs + [x], st);
    forall i | 0 <= i < |bs| ensures l[i] == r[i] {
      assert i in idxs + [x] <==> i in idxs || i == x;
    }
  }

  /** _setBorder: an UNSET border takes the new status; a set border is never overwritten. */
  method InitSetBorder(board: Board, idx: int, st: BorderStatus)
    requires 0 <= idx < board.borders.Length
    modifies board.borders
    ensures board.borders[..] == Fill(old(board.borders[..]), [idx], st)
  {
    if board.borders[idx] == st {
    } else if board.borders[idx] == UNSET {
      board.borders[idx] := st;
    }
  }

  /** _setBorder applied to each listed border in turn. */
  method InitFill(board: Board, idxs: seq<int>, st: BorderStatus)
    requires forall k | 0 <= k < |idxs| :: 0 <= idxs[k] < board.borders.Length
    modifies board.borders
    ensures board.borders[..] == Fill(old(board.borders[..]), idxs, st)
  {
    ghost var start := board.borders[..];
    assert board.borders[..] == Fill(start, idxs[..0], st);
    for n := 0 to |idxs|
      invariant board.borders[..] == Fill(start, idxs[..n], st)
    {
      InitSetBorder(board, idxs[n], st);
      FillSnoc(start, idxs[..n], idxs[n], st);
      assert idxs[..n] + [idxs[n]] == idxs[..n + 1];
    }
    assert idxs[..|idxs|] == idxs;
  }

  /** The elements of s that are not in f, in order. */
  function Outside(s: seq<int>, f: seq<int>): (r: seq<int>)
    ensures |r| <= |s|
    ensures forall x :: x in r <==> x in s && x !in f
  {
    if s == [] then []
    else (if s[0] in f then [] else [s[0]]) + Outside(s[1..], f)
  }

  /** The cell holds the clue 3. */
  predicate Is3Cell(board: Board, cell: Option<Cell>)
    requires IsGrid(board.cells, board.rows, board.cols)
  {
    cell.Some? && IsValidCellIdx(board.rows, board.cols, cell.value.0, cell.value.1)
    && board.cells[cell.value.0][cell.value.1] == Some(3)
  }

  /** The borders a pair of adjacent 3-cells activates: the cell's two sides parallel to the shared one. */
  function Adj3Active(cols: int, row: int, col: int, d: CardinalDirection): (r: seq<int>)
    ensures |r| == 2 && BorderIdx(cols, row, col, d) in r
  {
    if d == TOP || d == BOT then [BorderIdx(cols, row, col, TOP), BorderIdx(cols, row, col, BOT)]
    else [BorderIdx(cols, row, col, LEFT), BorderIdx(cols, row, col, RIGHT)]
  }

  /** The parallel pair of a valid cell are valid borders. */
  lemma Adj3ActiveValid(rows: int, cols: int, row: int, col: int, d: CardinalDirection)
    requires cols >= 1 && IsValidCellIdx(rows, cols, row, col)
    ensures forall k | 0 <= k < 2 :: IsValidBorderIdx(rows, cols, Adj3Active(cols, row, col, d)[k])
  {
    CellBordersValid(rows, cols, row, col);
    assert IsValidBorderIdx(rows, cols, BorderIdx(cols, row, col, TOP)) && IsValidBorderIdx(rows, cols, BorderIdx(cols, row, col, BOT));
    assert IsValidBorderIdx(rows, cols, BorderIdx(cols, row, col, LEFT)) && IsValidBorderIdx(rows, cols, BorderIdx(cols, row, col, RIGHT));
  }

  /** The borders at the ends of the shared side that belong to neither of the two cells. */
  function Adj3Blank(rows: int, cols: int, row: int, col: int, d: CardinalDirection, other: Cell): (r: seq<int>)
    requires cols >= 1
    ensures forall x | x in r :: IsValidBorderIdx(rows, cols, x)
    ensures forall x | x in r :: x !in CellBorderSeq(cols, row, col) && x !in CellBorderSeq(cols, other.0, other.1)
  {
    Outside(ConnectedBordersList(rows, cols, BorderIdx(cols, row, col, d)),
            CellBorderSeq(cols, row, col) + CellBorderSeq(cols, other.0, other.1))
  }

  /** The effect of _setAdj3CellBorders on a border state, when the neighbour across d is a 3-cell. */
  function Adj3Step(board: Board, bs: seq<BorderStatus>, row: int, col: int, d: CardinalDirection): (r: seq<BorderStatus>)
    requires board.cols >= 1 && IsGrid(board.cells, board.rows, board.cols)
    ensures |r| == |bs| && Grows(bs, r)
  {
    var other := AdjCell(board.rows, board.cols, row, col, d);
    if Is3Cell(board, other) then
      Fill(Fill(bs, Adj3Active(board.cols, row, col, d), ACTIVE), Adj3Blank(board.rows, board.cols, row, col, d, other.value), BLANK)
    else bs
  }

  /** What _handleAdjacent3Cells leaves: the four neighbours checked in the order TOP, RIGHT, BOT, LEFT. */
  function Adjacent3(board: Board, bs: seq<BorderStatus>, row: int, col: int): (r: seq<BorderStatus>)
    requires board.cols >= 1 && IsGrid(board.cells, board.rows, board.cols)
    ensures |r| == |bs| && Grows(bs, r)
  {
    Adj3Step(board, Adj3Step(board, Adj3Step(board, Adj3Step(board, bs, row, col, TOP), row, col, RIGHT), row, col, BOT), row, col, LEFT)
  }

  /** _setAdj3CellBorders: activate the parallel pair, then blank the outer borders at the shared side's ends. */
  method SetAdj3CellBorders(board: Board, row: int, col: int, d: CardinalDirection, other: Cell)
    requires board.Valid() && IsValidCellIdx(board.rows, board.cols, row, col)
    modifies board.borders
    ensures board.borders[..] == Fill(Fill(old(board.borders[..]), Adj3Active(board.cols, row, col, d), ACTIVE),
                                      Adj3Blank(board.rows, board.cols, row, col, d, other), BLANK)
  {
    Adj3ActiveValid(board.rows, board.cols, row, col, d);
    var activeBorders := Adj3Active(board.cols, row, col, d);
    var blankBorders := Adj3Blank(board.rows, board.cols, row, col, d, other);
    InitFill(board, activeBorders, ACTIVE);
    assert forall k | 0 <= k < |blankBorders| :: blankBorders[k] in blankBorders;
    InitFill(board, blankBorders, BLANK);
  }

  /** _handleAdjacent3Cells: each neighbour that is a 3-cell triggers the adjacent pair rule. */
  method HandleAdjacent3Cells(board: Board, row: int, col: int)
    requires board.WellFormed() && IsValidCellIdx(board.rows, board.cols, row, col)
    modifies board.borders
    ensures board.borders[..] == Adjacent3(board, old(board.borders[..]), row, col)
  {
    ghost var start := board.borders[..];
    var ds := [TOP, RIGHT, BOT, LEFT];
    for n := 0 to 4
      invariant board.borders[..] == (if n == 0 then start
                                      else if n == 1 then Adj3Step(board, start, row, col, TOP)
                                      else if n == 2 then Adj3Step(board, Adj3Step(board, start, row, col, TOP), row, col, RIGHT)
                                      else if n == 3 then Adj3Step(board, Adj3Step(board, Adj3Step(board, start, row, col, TOP), row, col, RIGHT), row, col, BOT)
                                      else Adjacent3(board, start, row, col))
    {
      var other := AdjCell(board.rows, board.cols, row, col, ds[n]);
      if other.Some? && board.cells[other.value.0][other.value.1] == Some(3) {
        SetAdj3CellBorders(board, row, col, ds[n], other.value);
      }
    }
  }

  /** The cell `k` diagonal steps from (row, col) towards dxn. */
  function Step(row: int, col: int, dxn: DiagonalDirection, k: int): (c: Cell)
  {
    (if dxn.IsUpper() then row - k else row + k, if dxn.IsLeft() then col - k else col + k)
  }

  /**
   * _hasDiagonal3Cell: the cell is a 3-cell, or a 2-cell whose diagonal neighbour towards
   * dxn has a diagonal 3-cell; false on a cell without a clue, any other clue, or off the grid.
   */
  function HasDiagonal3Cell(board: Board, row: int, col: int, dxn: DiagonalDirection): (r: bool)
    requires IsGrid(board.cells, board.rows, board.cols)
    ensures r ==> IsValidCellIdx(board.rows, board.cols, row, col) && board.cells[row][col] in {Some(2), Some(3)}
    decreases if !IsValidCellIdx(board.rows, board.cols, row, col) then 0
              else if dxn.IsUpper() then row + 1 else board.rows - row
  {
    if !IsValidCellIdx(board.rows, board.cols, row, col) || board.cells[row][col].None? then false
    else if board.cells[row][col] == Some(3) then true
    else if board.cells[row][col] != Some(2) then false
    else
      var next := CellIdxAtAdjCorner(board.rows, board.cols, row, col, dxn);
      if next.None? then false
      else HasDiagonal3Cell(board, next.value.0, next.value.1, dxn)
  }

  /** A 3-cell k diagonal steps away towards dxn, with only 2-cells before it. */
  ghost predicate Diagonal3At(board: Board, row: int, col: int, dxn: DiagonalDirection, k: nat)
    requires IsGrid(board.cells, board.rows, board.cols)
  {
    && IsValidCellIdx(board.rows, board.cols, Step(row, col, dxn, k).0, Step(row, col, dxn, k).1)
    && board.cells[Step(row, col, dxn, k).0][Step(row, col, dxn, k).1] == Some(3)
    && forall j | 0 <= j < k ::
         IsValidCellIdx(board.rows, board.cols, Step(row, col, dxn, j).0, Step(row, col, dxn, j).1)
         && board.cells[Step(row, col, dxn, j).0][Step(row, col, dxn, j).1] == Some(2)
  }

  /** A run seen from the next cell, preceded by a 2-cell, is a run one step longer. */
  lemma Diagonal3AtPrepend(board: Board, row: int, col: int, dxn: DiagonalDirection, k: nat)
    requires IsGrid(board.cells, board.rows, board.cols)
    requires IsValidCellIdx(board.rows, board.cols, row, col) && board.cells[row][col] == Some(2)
    ensures Diagonal3At(board, DiagRow(row, dxn), DiagCol(col, dxn), dxn, k) <==> Diagonal3At(board, row, col, dxn, k + 1)
  {
    var nr, nc := DiagRow(row, dxn), DiagCol(col, dxn);
    assert Step(row, col, dxn, 0) == (row, col);
    assert forall j :: Step(row, col, dxn, j + 1) == Step(nr, nc, dxn, j);
    if Diagonal3At(board, nr, nc, dxn, k) {
      forall j | 0 <= j < k + 1
        ensures IsValidCellIdx(board.rows, board.cols, Step(row, col, dxn, j).0, Step(row, col, dxn, j).1)
        ensures board.cells[Step(row, col, dxn, j).0][Step(row, col, dxn, j).1] == Some(2)
      {
        if j > 0 {
          assert Step(row, col, dxn, j) == Step(nr, nc, dxn, j - 1);
        }
      }
    }
  }

  /** A diagonal run of 2-cells ending in a 3-cell is found by the recursive search. */
  lemma {:induction false} Diagonal3AtFound(board: Board, row: int, col: int, dxn: DiagonalDirection, k: nat)
    requires IsGrid(board.cells, board.rows, board.cols)
    requires Diagonal3At(board, row, col, dxn, k)
    ensures HasDiagonal3Cell(board, row, col, dxn)
    decreases k
  {
    if k > 0 {
      assert Step(row, col, dxn, 0) == (row, col);
      Diagonal3AtPrepend(board, row, col, dxn, k - 1);
      Diagonal3AtFound(board, DiagRow(row, dxn), DiagCol(col, dxn), dxn, k - 1);
    }
  }

  /** The recursive search finds nothing but a diagonal run of 2-cells ending in a 3-cell. */
  lemma {:induction false} FoundDiagonal3At(board: Board, row: int, col: int, dxn: DiagonalDirection)
    requires IsGrid(board.cells, board.rows, board.cols)
    requires HasDiagonal3Cell(board, row, col, dxn)
    ensures exists k: nat :: Diagonal3At(board, row, col, dxn, k)
    decreases if dxn.IsUpper() then row + 1 else board.rows - row
  {
    if board.cells[row][col] == Some(3) {
      assert Step(row, col, dxn, 0) == (row, col);
      assert Diagonal3At(board, row, col, dxn, 0);
    } else {
      var nr, nc := DiagRow(row, dxn), DiagCol(col, dxn);
      FoundDiagonal3At(board, nr, nc, dxn);
      var k: nat :| Diagonal3At(board, nr, nc, dxn, k);
      Diagonal3AtPrepend(board, row, col, dxn, k);
    }
  }

  /** What _setCorner(dxn) does: activate the corner's two sides and blank its arms. */
  function CornerStep(board: Board, bs: seq<BorderStatus>, row: int, col: int, dxn: DiagonalDirection): (r: seq<BorderStatus>)
    requires board.cols >= 1
    ensures |r| == |bs| && Grows(bs, r)
  {
    var (b1, b2) := CornerBorderIndices(board.cols, row, col, dxn);
    Fill(Fill(bs, [b1, b2], ACTIVE), Arms(board.rows, board.cols, row, col, dxn), BLANK)
  }

  /** A 3-cell found diagonally towards dxn settles this cell's opposite corner. */
  function Diag3Step(board: Board, bs: seq<BorderStatus>, row: int, col: int, dxn: DiagonalDirection): (r: seq<BorderStatus>)
    requires board.cols >= 1 && IsGrid(board.cells, board.rows, board.cols)
    ensures |r| == |bs| && Grows(bs, r)
  {
    if HasDiagonal3Cell(board, DiagRow(row, dxn), DiagCol(col, dxn), dxn) then CornerStep(board, bs, row, col, dxn.Opposite())
    else bs
  }

  /** What _handleDiagonal3Cells leaves: the diagonals checked in the order ULEFT, URIGHT, LRIGHT, LLEFT. */
  function Diagonal3(board: Board, bs: seq<BorderStatus>, row: int, col: int): (r: seq<BorderStatus>)
    requires board.cols >= 1 && IsGrid(board.cells, board.rows, board.cols)
    ensures |r| == |bs| && Grows(bs, r)
  {
    Diag3Step(board, Diag3Step(board, Diag3Step(board, Diag3Step(board, bs, row, col, ULEFT), row, col, URIGHT), row, col, LRIGHT), row, col, LLEFT)
  }

  /** _setCorner. */
  method SetCorner(board: Board, row: int, col: int, dxn: DiagonalDirection)
    requires board.Valid() && IsValidCellIdx(board.rows, board.cols, row, col)
    modifies board.borders
    ensures board.borders[..] == CornerStep(board, old(board.borders[..]), row, col, dxn)
  {
    CellBordersValid(board.rows, board.cols, row, col);
    ArmsInRange(board.rows, board.cols, row, col, dxn);
    var (b1, b2) := CornerBorderIndices(board.cols, row, col, dxn);
    InitFill(board, [b1, b2], ACTIVE);
    InitFill(board, Arms(board.rows, board.cols, row, col, dxn), BLANK);
  }

  /** _handleDiagonal3Cells: each diagonal that reaches a 3-cell settles the corner facing away from it. */
  method HandleDiagonal3Cells(board: Board, row: int, col: int)
    requires board.WellFormed() && IsValidCellIdx(board.rows, board.cols, row, col)
    modifies board.borders
    ensures board.borders[..] == Diagonal3(board, old(board.borders[..]), row, col)
  {
    ghost var start := board.borders[..];
    var ds := [ULEFT, URIGHT, LRIGHT, LLEFT];
    for n := 0 to 4
      invariant board.borders[..] == (if n == 0 then start
                                      else if n == 1 then Diag3Step(board, start, row, col, ULEFT)
                                      else if n == 2 then Diag3Step(board, Diag3Step(board, start, row, col, ULEFT), row, col, URIGHT)
                                      else if n == 3 then Diag3Step(board, Diag3Step(board, Diag3Step(board, start, row, col, ULEFT), row, col, URIGHT), row, col, LRIGHT)
                                      else Diagonal3(board, start, row, col))
    {
      var dxn := ds[n];
      if HasDiagonal3Cell(board, DiagRow(row, dxn), DiagCol(col, dxn), dxn) {
        SetCorner(board, row, col, dxn.Opposite());
      }
    }
  }

  /** The border state after solveInit has handled one clue cell. */
  function InitCell(board: Board, bs: seq<BorderStatus>, cell: Cell): (r: seq<BorderStatus>)
    requires board.cols >= 1 && IsGrid(board.cells, board.rows, board.cols)
    requires IsValidCellIdx(board.rows, board.cols, cell.0, cell.1)
    ensures |r| == |bs| && Grows(bs, r)
  {
    var (row, col) := cell;
    if board.cells[row][col] == Some(0) then Fill(bs, CellBorderSeq(board.cols, row, col), BLANK)
    else if board.cells[row][col] == Some(3) then Diagonal3(board, Adjacent3(board, bs, row, col), row, col)
    else bs
  }

  /** The border state after solveInit has handled the listed clue cells in order. */
  function InitCells(board: Board, bs: seq<BorderStatus>, cells: seq<Cell>): (r: seq<BorderStatus>)
    requires board.cols >= 1 && IsGrid(board.cells, board.rows, board.cols)
    requires forall k | 0 <= k < |cells| :: IsValidCellIdx(board.rows, board.cols, cells[k].0, cells[k].1)
    ensures |r| == |bs| && Grows(bs, r)
  {
    if cells == [] then bs
    else InitCell(board, InitCells(board, bs, cells[..|cells| - 1]), cells[|cells| - 1])
  }

  /** The body of solveInit's loop for one clue cell. */
  method InitOneCell(board: Board, row: int, col: int)
    requires board.WellFormed() && IsValidCellIdx(board.rows, board.cols, row, col)
    modifies board.borders
    ensures board.borders[..] == InitCell(board, old(board.borders[..]), (row, col))
  {
    if board.cells[row][col] == Some(0) {
      CellBorderSeqValid(board.rows, board.cols, row, col);
      InitFill(board, CellBorderSeq(board.cols, row, col), BLANK);
    } else if board.cells[row][col] == Some(3) {
      HandleAdjacent3Cells(board, row, col);
      HandleDiagonal3Cells(board, row, col);
    }
  }

  /** solveInit: the clue cells in row-major order; 0-cells blank their sides, 3-cells look for 3-cells nearby. */
  method SolveInit(board: Board)
    requires board.WellFormed()
    modifies board.borders
    ensures board.borders[..] == InitCells(board, old(board.borders[..]), board.ReqCells())
    ensures forall row, col | IsValidCellIdx(board.rows, board.cols, row, col) && board.cells[row][col].Some? ::
              Settled(board, board.borders[..], (row, col))
  {
    ghost var start := board.borders[..];
    var reqCells := board.ReqCells();
    assert forall k | 0 <= k < |reqCells| :: reqCells[k] in reqCells;
    for n := 0 to |reqCells|
      invariant board.borders[..] == InitCells(board, start, reqCells[..n])
    {
      assert reqCells[..n + 1][..n] == reqCells[..n];
      InitOneCell(board, reqCells[n].0, reqCells[n].1);
    }
    assert reqCells[..|reqCells|] == reqCells;
    SolveInitSettles(board, start);
  }

  /**
   * What solveInit guarantees about a clue cell: a 0-cell has all four sides set; a 3-cell
   * next to a 3-cell has its parallel pair and the outer borders at the shared side set; a
   * 3-cell that sees a 3-cell diagonally has the opposite corner's sides and arms set.
   */
  ghost predicate Settled(board: Board, bs: seq<BorderStatus>, cell: Cell)
    requires board.cols >= 1 && IsGrid(board.cells, board.rows, board.cols)
    requires IsValidCellIdx(board.rows, board.cols, cell.0, cell.1)
  {
    var (row, col) := cell;
    && (board.cells[row][col] == Some(0) ==> AllSet(bs, CellBorderSeq(board.cols, row, col)))
    && (board.cells[row][col] == Some(3) ==> AdjacentSettled(board, bs, row, col) && DiagonalSettled(board, bs, row, col))
  }

  /** Every neighbouring 3-cell has had its adjacent pair rule applied. */
  ghost predicate AdjacentSettled(board: Board, bs: seq<BorderStatus>, row: int, col: int)
    requires board.cols >= 1 && IsGrid(board.cells, board.rows, board.cols)
  {
    forall d | Is3Cell(board, AdjCell(board.rows, board.cols, row, col, d)) ::
      AllSet(bs, Adj3Active(board.cols, row, col, d))
      && AllSet(bs, Adj3Blank(board.rows, board.cols, row, col, d, AdjCell(board.rows, board.cols, row, col, d).value))
  }

  /** Every diagonal that reaches a 3-cell has had the opposite corner settled. */
  ghost predicate DiagonalSettled(board: Board, bs: seq<BorderStatus>, row: int, col: int)
    requires board.cols >= 1 && IsGrid(board.cells, board.rows, board.cols)
  {
    forall dxn | HasDiagonal3Cell(board, DiagRow(row, dxn), DiagCol(col, dxn), dxn) ::
      AllSet(bs, CornerPair(board.cols, row, col, dxn.Opposite()))
      && AllSet(bs, Arms(board.rows, board.cols, row, col, dxn.Opposite()))
  }

  /** The two sides of a corner as a list. */
  function CornerPair(cols: int, row: int, col: int, dxn: DiagonalDirection): (r: seq<int>)
    ensures |r| == 2 && r[0] == CornerBorderIndices(cols, row, col, dxn).0 && r[1] == CornerBorderIndices(cols, row, col, dxn).1
  {
    var (b1, b2) := CornerBorderIndices(cols, row, col, dxn);
    [b1, b2]
  }

  /** Settled neighbours stay settled as the board grows. */
  lemma AdjacentSettledGrows(board: Board, a: seq<BorderStatus>, b: seq<BorderStatus>, row: int, col: int)
    requires board.cols >= 1 && IsGrid(board.cells, board.rows, board.cols)
    requires AdjacentSettled(board, a, row, col) && Grows(a, b)
    ensures AdjacentSettled(board, b, row, col)
  {
    forall d | Is3Cell(board, AdjCell(board.rows, board.cols, row, col, d))
      ensures AllSet(b, Adj3Active(board.cols, row, col, d))
      ensures AllSet(b, Adj3Blank(board.rows, board.cols, row, col, d, AdjCell(board.rows, board.cols, row, col, d).value))
    {
      AllSetGrows(a, b, Adj3Active(board.cols, row, col, d));
      AllSetGrows(a, b, Adj3Blank(board.rows, board.cols, row, col, d, AdjCell(board.rows, board.cols, row, col, d).value));
    }
  }

  /** Settled diagonals stay settled as the board grows. */
  lemma DiagonalSettledGrows(board: Board, a: seq<BorderStatus>, b: seq<BorderStatus>, row: int, col: int)
    requires board.cols >= 1 && IsGrid(board.cells, board.rows, board.cols)
    requires DiagonalSettled(board, a, row, col) && Grows(a, b)
    ensures DiagonalSettled(board, b, row, col)
  {
    forall dxn | HasDiagonal3Cell(board, DiagRow(row, dxn), DiagCol(col, dxn), dxn)
      ensures AllSet(b, CornerPair(board.cols, row, col, dxn.Opposite()))
      ensures AllSet(b, Arms(board.rows, board.cols, row, col, dxn.Opposite()))
    {
      AllSetGrows(a, b, CornerPair(board.cols, row, col, dxn.Opposite()));
      AllSetGrows(a, b, Arms(board.rows, board.cols, row, col, dxn.Opposite()));
    }
  }

  /** A settled cell stays settled as the board grows. */
  lemma SettledGrows(board: Board, a: seq<BorderStatus>, b: seq<BorderStatus>, cell: Cell)
    requires board.cols >= 1 && IsGrid(board.cells, board.rows, board.cols)
    requires IsValidCellIdx(board.rows, board.cols, cell.0, cell.1)
    requires Settled(board, a, cell) && Grows(a, b)
    ensures Settled(board, b, cell)
  {
    var (row, col) := cell;
    if board.cells[row][col] == Some(0) {
      AllSetGrows(a, b, CellBorderSeq(board.cols, row, col));
    } else if board.cells[row][col] == Some(3) {
      AdjacentSettledGrows(board, a, b, row, col);
      DiagonalSettledGrows(board, a, b, row, col);
    }
  }

  /** Two fills in a row leave every border of both lists set. */
  lemma FillTwiceSets(bs: seq<BorderStatus>, a: seq<int>, sa: BorderStatus, b: seq<int>, sb: BorderStatus)
    requires sa != UNSET && sb != UNSET
    requires forall k | 0 <= k < |a| :: 0 <= a[k] < |bs|
    requires forall k | 0 <= k < |b| :: 0 <= b[k] < |bs|
    ensures AllSet(Fill(Fill(bs, a, sa), b, sb), a) && AllSet(Fill(Fill(bs, a, sa), b, sb), b)
  {
    var mid := Fill(bs, a, sa);
    AllSetGrows(mid, Fill(mid, b, sb), a);
  }

  /** The adjacent pair rule sets the borders it names. */
  lemma Adj3StepSets(board: Board, bs: seq<BorderStatus>, row: int, col: int, d: CardinalDirection)
    requires board.Valid() && IsGrid(board.cells, board.rows, board.cols) && IsValidCellIdx(board.rows, board.cols, row, col)
    requires |bs| == NumBorders(board.rows, board.cols)
    requires Is3Cell(board, AdjCell(board.rows, board.cols, row, col, d))
    ensures AllSet(Adj3Step(board, bs, row, col, d), Adj3Active(board.cols, row, col, d))
    ensures AllSet(Adj3Step(board, bs, row, col, d), Adj3Blank(board.rows, board.cols, row, col, d, AdjCell(board.rows, board.cols, row, col, d).value))
  {
    Adj3ActiveValid(board.rows, board.cols, row, col, d);
    var active := Adj3Active(board.cols, row, col, d);
    var blank := Adj3Blank(board.rows, board.cols, row, col, d, AdjCell(board.rows, board.cols, row, col, d).value);
    assert forall k | 0 <= k < |active| :: 0 <= active[k] < |bs|;
    assert forall k | 0 <= k < |blank| :: blank[k] in blank;
    FillTwiceSets(bs, active, ACTIVE, blank, BLANK);
  }

  /** The corner rule sets the corner's two sides and its arms. */
  lemma CornerStepSets(board: Board, bs: seq<BorderStatus>, row: int, col: int, dxn: DiagonalDirection)
    requires board.Valid() && IsValidCellIdx(board.rows, board.cols, row, col)
    requires |bs| == NumBorders(board.rows, board.cols)
    ensures AllSet(CornerStep(board, bs, row, col, dxn), CornerPair(board.cols, row, col, dxn))
    ensures AllSet(CornerStep(board, bs, row, col, dxn), Arms(board.rows, board.cols, row, col, dxn))
  {
    CellBordersValid(board.rows, board.cols, row, col);
    ArmsInRange(board.rows, board.cols, row, col, dxn);
    var (b1, b2) := CornerBorderIndices(board.cols, row, col, dxn);
    FillTwiceSets(bs, [b1, b2], ACTIVE, Arms(board.rows, board.cols, row, col, dxn), BLANK);
  }

  /** _handleAdjacent3Cells settles every neighbouring 3-cell. */
  lemma Adjacent3Settles(board: Board, bs: seq<BorderStatus>, row: int, col: int)
    requires board.WellFormed() && IsValidCellIdx(board.rows, board.cols, row, col)
    requires |bs| == NumBorders(board.rows, board.cols)
    ensures AdjacentSettled(board, Adjacent3(board, bs, row, col), row, col)
  {
    var s1 := Adj3Step(board, bs, row, col, TOP);
    var s2 := Adj3Step(board, s1, row, col, RIGHT);
    var s3 := Adj3Step(board, s2, row, col, BOT);
    var r := Adj3Step(board, s3, row, col, LEFT);
    forall d | Is3Cell(board, AdjCell(board.rows, board.cols, row, col, d))
      ensures AllSet(r, Adj3Active(board.cols, row, col, d))
      ensures AllSet(r, Adj3Blank(board.rows, board.cols, row, col, d, AdjCell(board.rows, board.cols, row, col, d).value))
    {
      var before := match d case TOP => bs case RIGHT => s1 case BOT => s2 case LEFT => s3;
      var after := match d case TOP => s1 case RIGHT => s2 case BOT => s3 case LEFT => r;
      Adj3StepSets(board, before, row, col, d);
      AllSetGrows(after, r, Adj3Active(board.cols, row, col, d));
      AllSetGrows(after, r, Adj3Blank(board.rows, board.cols, row, col, d, AdjCell(board.rows, board.cols, row, col, d).value));
    }
  }

  /** _handleDiagonal3Cells settles every diagonal that reaches a 3-cell. */
  lemma Diagonal3Settles(board: Board, bs: seq<BorderStatus>, row: int, col: int)
    requires board.WellFormed() && IsValidCellIdx(board.rows, board.cols, row, col)
    requires |bs| == NumBorders(board.rows, board.cols)
    ensures DiagonalSettled(board, Diagonal3(board, bs, row, col), row, col)
  {
    var t1 := Diag3Step(board, bs, row, col, ULEFT);
    var t2 := Diag3Step(board, t1, row, col, URIGHT);
    var t3 := Diag3Step(board, t2, row, col, LRIGHT);
    var r := Diag3Step(board, t3, row, col, LLEFT);
    forall dxn | HasDiagonal3Cell(board, DiagRow(row, dxn), DiagCol(col, dxn), dxn)
      ensures AllSet(r, CornerPair(board.cols, row, col, dxn.Opposite()))
      ensures AllSet(r, Arms(board.rows, board.cols, row, col, dxn.Opposite()))
    {
      var before := match dxn case ULEFT => bs case URIGHT => t1 case LRIGHT => t2 case LLEFT => t3;
      var after := match dxn case ULEFT => t1 case URIGHT => t2 case LRIGHT => t3 case LLEFT => r;
      CornerStepSets(board, before, row, col, dxn.Opposite());
      AllSetGrows(after, r, CornerPair(board.cols, row, col, dxn.Opposite()));
      AllSetGrows(after, r, Arms(board.rows, board.cols, row, col, dxn.Opposite()));
    }
  }

  /** Handling a clue cell settles it. */
  lemma InitCellSettles(board: Board, bs: seq<BorderStatus>, cell: Cell)
    requires board.WellFormed() && IsValidCellIdx(board.rows, board.cols, cell.0, cell.1)
    requires |bs| == NumBorders(board.rows, board.cols)
    ensures Settled(board, InitCell(board, bs, cell), cell)
  {
    var (row, col) := cell;
    if board.cells[row][col] == Some(0) {
      CellBorderSeqValid(board.rows, board.cols, row, col);
    } else if board.cells[row][col] == Some(3) {
      var mid := Adjacent3(board, bs, row, col);
      Adjacent3Settles(board, bs, row, col);
      AdjacentSettledGrows(board, mid, Diagonal3(board, mid, row, col), row, col);
      Diagonal3Settles(board, mid, row, col);
    }
  }

  /** Every handled clue cell is settled at the end, whatever the later cells wrote. */
  lemma {:induction false} InitCellsSettled(board: Board, bs: seq<BorderStatus>, cells: seq<Cell>)
    requires board.WellFormed() && |bs| == NumBorders(board.rows, board.cols)
    requires forall k | 0 <= k < |cells| :: IsValidCellIdx(board.rows, board.cols, cells[k].0, cells[k].1)
    ensures forall k | 0 <= k < |cells| :: Settled(board, InitCells(board, bs, cells), cells[k])
  {
    if cells != [] {
      var prefix := cells[..|cells| - 1];
      var mid := InitCells(board, bs, prefix);
      var last := cells[|cells| - 1];
      InitCellsSettled(board, bs, prefix);
      InitCellSettles(board, mid, last);
      forall k | 0 <= k < |cells| - 1 ensures Settled(board, InitCells(board, bs, cells), cells[k]) {
        assert cells[k] == prefix[k];
        SettledGrows(board, mid, InitCell(board, mid, last), cells[k]);
      }
    }
  }

  /** After solveInit every clue cell of the grid is settled. */
  lemma SolveInitSettles(board: Board, bs: seq<BorderStatus>)
    requires board.WellFormed() && |bs| == NumBorders(board.rows, board.cols)
    ensures forall row, col | IsValidCellIdx(board.rows, board.cols, row, col) && board.cells[row][col].Some? ::
              Settled(board, InitCells(board, bs, board.ReqCells()), (row, col))
  {
    var reqCells := board.ReqCells();
    assert forall k | 0 <= k < |reqCells| :: reqCells[k] in reqCells;
    InitCellsSettled(board, bs, reqCells);
    forall row, col | IsValidCellIdx(board.rows, board.cols, row, col) && board.cells[row][col].Some?
      ensures Settled(board, InitCells(board, bs, reqCells), (row, col))
    {
      assert (row, col) in reqCells;
      var k :| 0 <= k < |reqCells| && reqCells[k] == (row, col);
    }
  }
}
