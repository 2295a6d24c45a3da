/**
 * The solver's helper predicates: counting statuses, continuity of two borders,
 * the requirement of a neighbouring cell, and pokes propagated along 2-cells.
 */
module SolverTools {
  import opened Outcomes
  import opened Enums
  import opened BoardTools
  import opened BoardModel

  /** The number of the listed borders whose status is s (a border listed twice counts twice). */
  function CountAt(bs: seq<BorderStatus>, idxs: seq<int>, s: BorderStatus): (n: nat)
    requires forall k | 0 <= k < |idxs| :: 0 <= idxs[k] < |bs|
    ensures n <= |idxs|
  {
    if idxs == [] then 0
    else CountAt(bs, idxs[..|idxs| - 1], s) + (if bs[idxs[|idxs| - 1]] == s then 1 else 0)
  }

  /** The number of UNSET, ACTIVE and BLANK borders among idxs, in that order. */
  function StatusCount(bs: seq<BorderStatus>, idxs: seq<int>): (r: (nat, nat, nat))
    requires forall k | 0 <= k < |idxs| :: 0 <= idxs[k] < |bs|
  {
    (CountAt(bs, idxs, UNSET), CountAt(bs, idxs, ACTIVE), CountAt(bs, idxs, BLANK))
  }

  /** Every listed border has exactly one status, so the three counts add up to the list length. */
  lemma {:induction false} StatusCountTotal(bs: seq<BorderStatus>, idxs: seq<int>)
    requires forall k | 0 <= k < |idxs| :: 0 <= idxs[k] < |bs|
    ensures StatusCount(bs, idxs).0 + StatusCount(bs, idxs).1 + StatusCount(bs, idxs).2 == |idxs|
  {
    if idxs != [] {
      StatusCountTotal(bs, idxs[..|idxs| - 1]);
    }
  }

  /** A count is zero exactly when no listed border has that status. */
  lemma {:induction false} CountAtZero(bs: seq<BorderStatus>, idxs: seq<int>, s: BorderStatus)
    requires forall k | 0 <= k < |idxs| :: 0 <= idxs[k] < |bs|
    ensures CountAt(bs, idxs, s) == 0 <==> forall k | 0 <= k < |idxs| :: bs[idxs[k]] != s
  {
    if idxs != [] {
      var p := idxs[..|idxs| - 1];
      CountAtZero(bs, p, s);
      assert forall k | 0 <= k < |p| :: p[k] == idxs[k];
    }
  }

  /** Counts over borders that agree on every listed index are equal. */
  lemma {:induction false} CountAtSame(a: seq<BorderStatus>, b: seq<BorderStatus>, idxs: seq<int>, s: BorderStatus)
    requires forall k | 0 <= k < |idxs| :: 0 <= idxs[k] < |a| && 0 <= idxs[k] < |b| && a[idxs[k]] == b[idxs[k]]
    ensures CountAt(a, idxs, s) == CountAt(b, idxs, s)
  {
    if idxs != [] {
      CountAtSame(a, b, idxs[..|idxs| - 1], s);
    }
  }

  /** getStatusCount: one pass over the indices, counting each status. */
  method GetStatusCount(board: Board, idxs: seq<int>) returns (countUnset: nat, countActive: nat, countBlank: nat)
    requires forall k | 0 <= k < |idxs| :: 0 <= idxs[k] < board.borders.Length
    ensures (countUnset, countActive, countBlank) == StatusCount(board.borders[..], idxs)
    ensures countUnset + countActive + countBlank == |idxs|
  {
    countUnset, countActive, countBlank := 0, 0, 0;
    for k := 0 to |idxs|
      invariant (countUnset, countActive, countBlank) == StatusCount(board.borders[..], idxs[..k])
    {
      assert idxs[..k + 1][..k] == idxs[..k];
      var st := board.borders[idxs[k]];
      if st == UNSET {
        countUnset := countUnset + 1;
      } else if st == ACTIVE {
        countActive := countActive + 1;
      } else if st == BLANK {
        countBlank := countBlank + 1;
      }
    }
    assert idxs[..|idxs|] == idxs;
    StatusCountTotal(board.borders[..], idxs);
  }

  /**
   * Two borders are continuous: both valid and not BLANK, b2 on an endpoint list of b1,
   * and every other border at that endpoint BLANK.
   */
  ghost predicate Continuous(rows: int, cols: int, bs: seq<BorderStatus>, b1: int, b2: int)
    requires cols >= 1 && |bs| == NumBorders(rows, cols)
  {
    && IsValidBorderIdx(rows, cols, b1) && IsValidBorderIdx(rows, cols, b2)
    && bs[b1] != BLANK && bs[b2] != BLANK
    && CommonVertex(rows, cols, b1, b2).Some?
    && OthersBlank(bs, CommonVertex(rows, cols, b1, b2).value, b1, b2)
  }

  /**
   * Continuity means the two borders meet at a vertex where they are the only borders
   * that are not BLANK.
   */
  lemma ContinuousAtVertex(rows: int, cols: int, bs: seq<BorderStatus>, b1: int, b2: int)
    requires cols >= 1 && |bs| == NumBorders(rows, cols)
    requires Continuous(rows, cols, bs, b1, b2)
    ensures b1 != b2 && b2 in ConnectedBordersList(rows, cols, b1)
    ensures forall x | x in CommonVertex(rows, cols, b1, b2).value :: bs[x] != BLANK <==> x == b2
  {
  }

  /** Every listed border other than b1 and b2 is BLANK. */
  ghost predicate OthersBlank(bs: seq<BorderStatus>, list: seq<int>, b1: int, b2: int)
    requires forall k | 0 <= k < |list| :: 0 <= list[k] < |bs|
  {
    forall k | 0 <= k < |list| :: list[k] == b1 || list[k] == b2 || bs[list[k]] == BLANK
  }

  /** The loop of isContinuous over the shared endpoint list. */
  method CheckOthersBlank(board: Board, list: seq<int>, b1: int, b2: int) returns (r: bool)
    requires forall k | 0 <= k < |list| :: 0 <= list[k] < board.borders.Length
    ensures r == OthersBlank(board.borders[..], list, b1, b2)
  {
    for k := 0 to |list|
      invariant forall j | 0 <= j < k :: list[j] == b1 || list[j] == b2 || board.borders[list[j]] == BLANK
    {
      var x := list[k];
      if x != b1 && x != b2 && board.borders[x] != BLANK {
        return false;
      }
    }
    return true;
  }

  /** isContinuous: the checks in order, then a pass over the shared endpoint list. */
  method IsContinuous(board: Board, b1: int, b2: int) returns (r: bool)
    requires board.Valid()
    ensures r == Continuous(board.rows, board.cols, board.borders[..], b1, b2)
  {
    if !IsValidBorderIdx(board.rows, board.cols, b1) || !IsValidBorderIdx(board.rows, board.cols, b2) {
      return false;
    }
    if board.borders[b1] == BLANK || board.borders[b2] == BLANK {
      return false;
    }
    var common := CommonVertex(board.rows, board.cols, b1, b2);
    if common.None? {
      return false;
    }
    r := CheckOthersBlank(board, common.value, b1, b2);
  }

  /** isAdjCellReqNumEqualTo: false without a neighbour across d, else whether its clue is `query`. */
  function IsAdjCellReqNumEqualTo(board: Board, row: int, col: int, d: CardinalDirection, query: Option<int>): (r: bool)
    requires IsGrid(board.cells, board.rows, board.cols)
    ensures AdjCell(board.rows, board.cols, row, col, d).None? ==> !r
    ensures AdjCell(board.rows, board.cols, row, col, d).Some? ==>
              (r <==> board.cells[AdjCell(board.rows, board.cols, row, col, d).value.0]
                                 [AdjCell(board.rows, board.cols, row, col, d).value.1] == query)
  {
    match AdjCell(board.rows, board.cols, row, col, d)
    case None => false
    case Some((adjRow, adjCol)) => board.cells[adjRow][adjCol] == query
  }

  /** The number of ACTIVE borders at a corner of a valid cell. */
  function CornerActiveCount(board: Board, bs: seq<BorderStatus>, row: int, col: int, corner: DiagonalDirection): (n: nat)
    requires IsShaped(board) && |bs| == NumBorders(board.rows, board.cols) && IsValidCellIdx(board.rows, board.cols, row, col)
    ensures n <= 2
  {
    CellBordersValid(board.rows, board.cols, row, col);
    var (b1, b2) := CornerBorderIndices(board.cols, row, col, corner);
    CountAt(bs, [b1, b2], ACTIVE)
  }

  /**
   * isCellIndirectPokedByPropagation: whether the cell, entered from `dxn`, is poked, either
   * because it is a 3-cell, or because one border at its far corner is ACTIVE, or because
   * it is a 2-cell whose neighbour one diagonal step further is poked; two ACTIVE borders
   * at that corner make the board invalid.
   */
  function IndirectPoked(board: Board, bs: seq<BorderStatus>, cell: Option<Cell>, dxn: DiagonalDirection): (r: Result<bool>)
    requires IsShaped(board) && |bs| == NumBorders(board.rows, board.cols)
    ensures cell.None? || !IsValidCellIdx(board.rows, board.cols, cell.value.0, cell.value.1) ==> r == Ok(false)
    ensures (cell.Some? && IsValidCellIdx(board.rows, board.cols, cell.value.0, cell.value.1)
             && board.cells[cell.value.0][cell.value.1] == Some(3)) ==> r == Ok(true)
    ensures r.Err? ==> r.error == InvalidBoard
    decreases if cell.None? || !IsValidCellIdx(board.rows, board.cols, cell.value.0, cell.value.1) then 0
              else if dxn.IsUpper() then cell.value.0 + 1 else board.rows - cell.value.0
  {
    if cell.None? then Ok(false)
    else
      var (row, col) := cell.value;
      if !IsValidCellIdx(board.rows, board.cols, row, col) then Ok(false)
      else if board.cells[row][col] == Some(3) then Ok(true)
      else
        var countActive := CornerActiveCount(board, bs, row, col, dxn.Opposite());
        if countActive > 1 then Err(InvalidBoard)
        else if countActive == 1 then Ok(true)
        else if board.cells[row][col] != Some(2) then Ok(false)
        else IndirectPoked(board, bs, CellIdxAtAdjCorner(board.rows, board.cols, row, col, dxn), dxn)
  }

  /**
   * A chain of k 2-cells, each with no ACTIVE border at its far corner, stepping diagonally
   * towards `dxn` from `cell` and ending at a valid cell that is a 3-cell or has exactly one
   * ACTIVE border at its far corner.
   */
  ghost predicate PokeChain(board: Board, bs: seq<BorderStatus>, cell: Cell, dxn: DiagonalDirection, k: nat)
    requires IsShaped(board) && |bs| == NumBorders(board.rows, board.cols)
    decreases k
  {
    && IsValidCellIdx(board.rows, board.cols, cell.0, cell.1)
    && if k == 0 then
         board.cells[cell.0][cell.1] == Some(3) || CornerActiveCount(board, bs, cell.0, cell.1, dxn.Opposite()) == 1
       else
         && board.cells[cell.0][cell.1] == Some(2)
         && CornerActiveCount(board, bs, cell.0, cell.1, dxn.Opposite()) == 0
         && PokeChain(board, bs, (DiagRow(cell.0, dxn), DiagCol(cell.1, dxn)), dxn, k - 1)
  }

  /** A chain of any length makes the propagation report a poke. */
  lemma {:induction false} PokeChainPokes(board: Board, bs: seq<BorderStatus>, cell: Cell, dxn: DiagonalDirection, k: nat)
    requires IsShaped(board) && |bs| == NumBorders(board.rows, board.cols)
    requires PokeChain(board, bs, cell, dxn, k)
    ensures IndirectPoked(board, bs, Some(cell), dxn) == Ok(true)
    decreases k
  {
    if k > 0 {
      PokeChainPokes(board, bs, (DiagRow(cell.0, dxn), DiagCol(cell.1, dxn)), dxn, k - 1);
    }
  }

  /** A reported poke comes from a chain: the propagation finds nothing else. */
  lemma {:induction false} PokedHasChain(board: Board, bs: seq<BorderStatus>, cell: Cell, dxn: DiagonalDirection)
    requires IsShaped(board) && |bs| == NumBorders(board.rows, board.cols)
    requires IndirectPoked(board, bs, Some(cell), dxn) == Ok(true)
    ensures exists k: nat :: PokeChain(board, bs, cell, dxn, k)
    decreases if dxn.IsUpper() then cell.0 + 1 else board.rows - cell.0
  {
    var (row, col) := cell;
    if board.cells[row][col] == Some(3) || CornerActiveCount(board, bs, row, col, dxn.Opposite()) == 1 {
      assert PokeChain(board, bs, cell, dxn, 0);
    } else {
      var next := (DiagRow(row, dxn), DiagCol(col, dxn));
      PokedHasChain(board, bs, next, dxn);
      var k: nat :| PokeChain(board, bs, next, dxn, k);
      assert PokeChain(board, bs, cell, dxn, k + 1);
    }
  }
}
