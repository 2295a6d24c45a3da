/**
 * A snapshot of one cell: its clue, its group, its four border indices and statuses,
 * and how many of those borders are UNSET, ACTIVE and BLANK.
 */
module CellInfoModel {
  import opened Outcomes
  import opened Enums
  import opened BoardTools
  import opened BoardModel

  /** The indices idxs[k] whose status stats[k] is s. */
  function StatusSet(idxs: seq<int>, stats: seq<BorderStatus>, s: BorderStatus): (r: set<int>)
    requires |idxs| == |stats|
    ensures forall x | x in r :: x in idxs
  {
    if idxs == [] then {}
    else
      var n := |idxs| - 1;
      StatusSet(idxs[..n], stats[..n], s) + (if stats[n] == s then {idxs[n]} else {})
  }

  /** No index occurs twice: each entry is absent from the entries before it. */
  predicate Distinct(idxs: seq<int>)
  {
    idxs == [] || (Distinct(idxs[..|idxs| - 1]) && idxs[|idxs| - 1] !in idxs[..|idxs| - 1])
  }

  /** With distinct indices, idxs[k] belongs to the set of status s exactly when stats[k] is s. */
  lemma {:induction false} StatusSetHas(idxs: seq<int>, stats: seq<BorderStatus>, s: BorderStatus, k: int)
    requires |idxs| == |stats| && Distinct(idxs) && 0 <= k < |idxs|
    ensures idxs[k] in StatusSet(idxs, stats, s) <==> stats[k] == s
  {
    var n := |idxs| - 1;
    if k < n {
      StatusSetHas(idxs[..n], stats[..n], s, k);
      assert idxs[..n][k] == idxs[k];
    }
  }

  /** With distinct indices, the set for a status has as many elements as the status occurs. */
  lemma {:induction false} StatusSetSize(idxs: seq<int>, stats: seq<BorderStatus>, s: BorderStatus)
    requires |idxs| == |stats| && Distinct(idxs)
    ensures |StatusSet(idxs, stats, s)| == CountOf(stats, s)
  {
    if idxs != [] {
      var n := |idxs| - 1;
      var prev := StatusSet(idxs[..n], stats[..n], s);
      StatusSetSize(idxs[..n], stats[..n], s);
      assert idxs[n] !in prev;
    }
  }

  /** Every index has one of the three statuses, so the three sets cover the indices. */
  lemma StatusSetsCover(idxs: seq<int>, stats: seq<BorderStatus>)
    requires |idxs| == |stats| && Distinct(idxs)
    ensures StatusSet(idxs, stats, UNSET) + StatusSet(idxs, stats, ACTIVE) + StatusSet(idxs, stats, BLANK)
            == set x | x in idxs
  {
    forall x | x in idxs
      ensures x in StatusSet(idxs, stats, UNSET) + StatusSet(idxs, stats, ACTIVE) + StatusSet(idxs, stats, BLANK)
    {
      var k :| 0 <= k < |idxs| && idxs[k] == x;
      StatusSetHas(idxs, stats, stats[k], k);
    }
  }

  /** With distinct indices, no index is in the sets of two different statuses. */
  lemma StatusSetsDisjoint(idxs: seq<int>, stats: seq<BorderStatus>, s: BorderStatus, t: BorderStatus)
    requires |idxs| == |stats| && Distinct(idxs) && s != t
    ensures StatusSet(idxs, stats, s) !! StatusSet(idxs, stats, t)
  {
    forall x | x in StatusSet(idxs, stats, s) ensures x !in StatusSet(idxs, stats, t) {
      var k :| 0 <= k < |idxs| && idxs[k] == x;
      StatusSetHas(idxs, stats, s, k);
      StatusSetHas(idxs, stats, t, k);
    }
  }

  /**
   * The three status sets of a cell snapshot partition its border indices, each set has as
   * many elements as its count, and the three counts add up to the number of borders.
   */
  lemma SnapshotPartition(idxs: seq<int>, stats: seq<BorderStatus>)
    requires |idxs| == |stats| && Distinct(idxs)
    ensures CountOf(stats, UNSET) + CountOf(stats, ACTIVE) + CountOf(stats, BLANK) == |idxs|
    ensures StatusSet(idxs, stats, UNSET) + StatusSet(idxs, stats, ACTIVE) + StatusSet(idxs, stats, BLANK)
            == set x | x in idxs
    ensures forall s, t | s != t :: StatusSet(idxs, stats, s) !! StatusSet(idxs, stats, t)
    ensures forall s :: |StatusSet(idxs, stats, s)| == CountOf(stats, s)
  {
    CountTotal(stats);
    StatusSetsCover(idxs, stats);
    forall s, t | s != t ensures StatusSet(idxs, stats, s) !! StatusSet(idxs, stats, t) {
      StatusSetsDisjoint(idxs, stats, s, t);
    }
    forall s ensures |StatusSet(idxs, stats, s)| == CountOf(stats, s) {
      StatusSetSize(idxs, stats, s);
    }
  }

  /** The border pairs of the corners ULEFT, URIGHT, LRIGHT, LLEFT of a cell. */
  function CornerPairs(cols: int, row: int, col: int): (r: seq<(int, int)>)
    ensures |r| == 4 && forall d :: r[DiagonalValue(d)] == CornerBorderIndices(cols, row, col, d)
  {
    var top := BorderIdx(cols, row, col, TOP);
    var right := BorderIdx(cols, row, col, RIGHT);
    var bot := BorderIdx(cols, row, col, BOT);
    var left := BorderIdx(cols, row, col, LEFT);
    [(top, left), (top, right), (bot, right), (bot, left)]
  }

  /** The counting loop of getBorderStats: how many entries have each status, and which indices. */
  method TallyStatuses(idxs: seq<int>, stats: seq<BorderStatus>)
    returns (nUnset: int, nActive: int, nBlank: int, setUnset: set<int>, setActive: set<int>, setBlank: set<int>)
    requires |idxs| == |stats|
    ensures nUnset == CountOf(stats, UNSET) && nActive == CountOf(stats, ACTIVE) && nBlank == CountOf(stats, BLANK)
    ensures setUnset == StatusSet(idxs, stats, UNSET)
    ensures setActive == StatusSet(idxs, stats, ACTIVE)
    ensures setBlank == StatusSet(idxs, stats, BLANK)
  {
    nUnset, nActive, nBlank := 0, 0, 0;
    setUnset, setActive, setBlank := {}, {}, {};
    for i := 0 to |stats|
      invariant nUnset == CountOf(stats[..i], UNSET)
      invariant nActive == CountOf(stats[..i], ACTIVE)
      invariant nBlank == CountOf(stats[..i], BLANK)
      invariant setUnset == StatusSet(idxs[..i], stats[..i], UNSET)
      invariant setActive == StatusSet(idxs[..i], stats[..i], ACTIVE)
      invariant setBlank == StatusSet(idxs[..i], stats[..i], BLANK)
    {
      assert stats[..i + 1][..i] == stats[..i] && idxs[..i + 1][..i] == idxs[..i];
      var stat := stats[i];
      if stat == UNSET {
        nUnset := nUnset + 1;
        setUnset := setUnset + {idxs[i]};
      } else if stat == ACTIVE {
        nActive := nActive + 1;
        setActive := setActive + {idxs[i]};
      } else if stat == BLANK {
        nBlank := nBlank + 1;
        setBlank := setBlank + {idxs[i]};
      }
    }
    assert stats[..|stats|] == stats && idxs[..|stats|] == idxs;
  }

  /**
   * A snapshot of one cell: its clue and group, its border indices (computed once and
   * cached), and the statuses of those borders counted and collected by status.
   */
  class CellInfo {
    const row: int
    const col: int
    var reqNum: Option<int>
    var cellGroup: Option<int>
    /** (TOP, RIGHT, BOT, LEFT) border indices; -1 in the first entry until computed. */
    var bdrIndices: seq<int>
    /** The (horizontal, vertical) side pair at each corner, indexed by DiagonalValue. */
    var cornerBdrs: seq<(int, int)>
    var bdrStats: seq<BorderStatus>
    var bdrUnsetCount: int
    var bdrActiveCount: int
    var bdrBlankCount: int
    var unsetBorders: set<int>
    var activeBorders: set<int>
    var blankBorders: set<int>

    /** The index cache holds either the unset marker or the cell's own indices and corners. */
    ghost predicate Cached(cols: int)
      reads this`bdrIndices, this`cornerBdrs
    {
      && |bdrIndices| == 4
      && (bdrIndices[0] != -1 ==>
            && bdrIndices == CellBorderSeq(cols, row, col)
            && cornerBdrs == CornerPairs(cols, row, col))
    }

    /** The counts and sets agree with the statuses read for the cell's indices. */
    ghost predicate Counted()
      reads this`bdrIndices, this`bdrStats, this`bdrUnsetCount, this`bdrActiveCount, this`bdrBlankCount
      reads this`unsetBorders, this`activeBorders, this`blankBorders
    {
      && |bdrStats| == |bdrIndices| == 4
      && bdrUnsetCount == CountOf(bdrStats, UNSET)
      && bdrActiveCount == CountOf(bdrStats, ACTIVE)
      && bdrBlankCount == CountOf(bdrStats, BLANK)
      && unsetBorders == StatusSet(bdrIndices, bdrStats, UNSET)
      && activeBorders == StatusSet(bdrIndices, bdrStats, ACTIVE)
      && blankBorders == StatusSet(bdrIndices, bdrStats, BLANK)
    }

    constructor (row: int, col: int)
      ensures this.row == row && this.col == col
      ensures reqNum == None && cellGroup == None
      ensures bdrIndices == [-1, -1, -1, -1] && Cached(0)
      ensures bdrStats == [] && bdrUnsetCount == 4 && bdrActiveCount == 0 && bdrBlankCount == 0
      ensures unsetBorders == {} && activeBorders == {} && blankBorders == {}
    {
      this.row := row;
      this.col := col;
      reqNum := None;
      cellGroup := None;
      bdrIndices := [-1, -1, -1, -1];
      cornerBdrs := [];
      bdrStats := [];
      bdrUnsetCount, bdrActiveCount, bdrBlankCount := 4, 0, 0;
      unsetBorders, activeBorders, blankBorders := {}, {}, {};
    }

    /** getBorderIndices: computes the indices once and answers later calls from the cache. */
    method GetBorderIndices(board: Board) returns (idxs: seq<int>)
      requires Cached(board.cols)
      modifies this`bdrIndices, this`cornerBdrs
      ensures Cached(board.cols) && idxs == bdrIndices == CellBorderSeq(board.cols, row, col)
      ensures cornerBdrs == CornerPairs(board.cols, row, col)
      ensures old(bdrIndices[0]) != -1 ==> unchanged(this)
    {
      if bdrIndices[0] != -1 {
        return bdrIndices;
      }
      bdrIndices := CellBorderSeq(board.cols, row, col);
      var top, right, bot, left := bdrIndices[0], bdrIndices[1], bdrIndices[2], bdrIndices[3];
      cornerBdrs := [(top, left), (top, right), (bot, right), (bot, left)];
      return bdrIndices;
    }

    /** Records statuses already tallied against the cached indices. */
    method Store(st: seq<BorderStatus>, n1: int, n2: int, n3: int, s1: set<int>, s2: set<int>, s3: set<int>)
      requires |st| == |bdrIndices| == 4
      requires n1 == CountOf(st, UNSET) && n2 == CountOf(st, ACTIVE) && n3 == CountOf(st, BLANK)
      requires s1 == StatusSet(bdrIndices, st, UNSET) && s2 == StatusSet(bdrIndices, st, ACTIVE)
      requires s3 == StatusSet(bdrIndices, st, BLANK)
      modifies this`bdrStats, this`bdrUnsetCount, this`bdrActiveCount, this`bdrBlankCount
      modifies this`unsetBorders, this`activeBorders, this`blankBorders
      ensures Counted() && bdrStats == st
    {
      bdrStats := st;
      bdrUnsetCount, bdrActiveCount, bdrBlankCount := n1, n2, n3;
      unsetBorders, activeBorders, blankBorders := s1, s2, s3;
    }

    /** getBorderStats: read the four statuses and count and collect them by status. */
    method GetBorderStats(board: Board) returns (stats: seq<BorderStatus>)
      requires board.Valid() && IsValidCellIdx(board.rows, board.cols, row, col) && Cached(board.cols)
      modifies this`bdrIndices, this`cornerBdrs, this`bdrStats
      modifies this`bdrUnsetCount, this`bdrActiveCount, this`bdrBlankCount
      modifies this`unsetBorders, this`activeBorders, this`blankBorders
      ensures Cached(board.cols) && Counted()
      ensures bdrIndices == CellBorderSeq(board.cols, row, col)
      ensures stats == bdrStats
      ensures forall k | 0 <= k < 4 :: 0 <= bdrIndices[k] < board.borders.Length && bdrStats[k] == board.borders[bdrIndices[k]]
    {
      var idxs := GetBorderIndices(board);
      CellBorderSeqValid(board.rows, board.cols, row, col);
      var st := [board.borders[idxs[0]], board.borders[idxs[1]], board.borders[idxs[2]], board.borders[idxs[3]]];
      var n1, n2, n3, s1, s2, s3 := TallyStatuses(idxs, st);
      Store(st, n1, n2, n3, s1, s2, s3);
      return st;
    }

    /** CellInfo.init: a snapshot of a cell of the board; the board is only read. */
    static method Init(board: Board, row: int, col: int) returns (info: CellInfo)
      requires board.WellFormed() && IsValidCellIdx(board.rows, board.cols, row, col)
      ensures fresh(info) && info.row == row && info.col == col
      ensures info.Cached(board.cols) && info.Counted()
      ensures info.reqNum == board.cells[row][col] && info.cellGroup == board.cellGroups[row][col]
      ensures info.bdrIndices == CellBorderSeq(board.cols, row, col)
      ensures info.cornerBdrs == CornerPairs(board.cols, row, col)
      ensures forall k | 0 <= k < 4 :: 0 <= info.bdrIndices[k] < board.borders.Length &&
                info.bdrStats[k] == board.borders[info.bdrIndices[k]]
    {
      info := new CellInfo(row, col);
      info.reqNum := board.cells[row][col];
      info.cellGroup := board.cellGroups[row][col];
      var _ := info.GetBorderStats(board);
    }
  }

  /** The four border indices of a valid cell are distinct, so a snapshot's sets partition them. */
  lemma CellSnapshotPartition(rows: int, cols: int, row: int, col: int, stats: seq<BorderStatus>)
    requires cols >= 1 && IsValidCellIdx(rows, cols, row, col) && |stats| == 4
    ensures Distinct(CellBorderSeq(cols, row, col))
    ensures CountOf(stats, UNSET) + CountOf(stats, ACTIVE) + CountOf(stats, BLANK) == 4
    ensures forall s :: |StatusSet(CellBorderSeq(cols, row, col), stats, s)| == CountOf(stats, s)
    ensures StatusSet(CellBorderSeq(cols, row, col), stats, UNSET)
            + StatusSet(CellBorderSeq(cols, row, col), stats, ACTIVE)
            + StatusSet(CellBorderSeq(cols, row, col), stats, BLANK)
            == set k | 0 <= k < 4 :: CellBorderSeq(cols, row, col)[k]
  {
    var idxs := CellBorderSeq(cols, row, col);
    CellBordersValid(rows, cols, row, col);
    assert idxs[0] == BorderIdx(cols, row, col, TOP) && idxs[1] == BorderIdx(cols, row, col, RIGHT);
    assert idxs[2] == BorderIdx(cols, row, col, BOT) && idxs[3] == BorderIdx(cols, row, col, LEFT);
    assert Distinct(idxs[..1]) by { assert idxs[..1][..0] == []; }
    assert Distinct(idxs[..2]) by { assert idxs[..2][..1] == idxs[..1]; }
    assert Distinct(idxs[..3]) by { assert idxs[..3][..2] == idxs[..2]; }
    assert Distinct(idxs) by { assert idxs[..3] == idxs[..|idxs| - 1]; }
    SnapshotPartition(idxs, stats);
  }
}
