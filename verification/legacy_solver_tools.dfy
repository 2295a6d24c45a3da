/**
 * The helpers of the older solver: counts that skip invalid indices, per-cell status
 * queries, the fill/remove tests, the runs of continuous UNSET sides of a cell and the
 * protruding corners of a 2-cell. They work on the flat border list of BoardModel.Board.
 */
module LegacySolverTools {
  import opened Outcomes
  import opened Enums
  import opened BoardTools
  import opened BoardModel
  import opened SolverTools

  /** The board has its shape and a border list of the right length (constant fields only). */
  ghost predicate Fits(board: Board)
  {
    IsShaped(board) && board.borders.Length == NumBorders(board.rows, board.cols)
  }

  /** The number of listed indices that are valid border indices. */
  function ValidCount(rows: int, cols: int, idxs: seq<int>): (n: nat)
    ensures n <= |idxs|
  {
    if idxs == [] then 0
    else ValidCount(rows, cols, idxs[..|idxs| - 1]) + (if IsValidBorderIdx(rows, cols, idxs[|idxs| - 1]) then 1 else 0)
  }

  /** The number of listed indices that are valid and whose border has status s. */
  function ValidCountAt(rows: int, cols: int, bs: seq<BorderStatus>, idxs: seq<int>, s: BorderStatus): (n: nat)
    requires |bs| == NumBorders(rows, cols)
    ensures n <= ValidCount(rows, cols, idxs)
  {
    if idxs == [] then 0
    else
      var b := idxs[|idxs| - 1];
      ValidCountAt(rows, cols, bs, idxs[..|idxs| - 1], s) + (if IsValidBorderIdx(rows, cols, b) && bs[b] == s then 1 else 0)
  }

  /** Invalid indices are skipped, so the three counts add up to the number of valid indices. */
  lemma {:induction false} ValidCountTotal(rows: int, cols: int, bs: seq<BorderStatus>, idxs: seq<int>)
    requires |bs| == NumBorders(rows, cols)
    ensures ValidCountAt(rows, cols, bs, idxs, UNSET) + ValidCountAt(rows, cols, bs, idxs, ACTIVE)
            + ValidCountAt(rows, cols, bs, idxs, BLANK) == ValidCount(rows, cols, idxs)
  {
    if idxs != [] {
      ValidCountTotal(rows, cols, bs, idxs[..|idxs| - 1]);
    }
  }

  /** On a list of valid indices the legacy count agrees with the count of the newer tools. */
  lemma {:induction false} ValidCountAtAllValid(rows: int, cols: int, bs: seq<BorderStatus>, idxs: seq<int>, s: BorderStatus)
    requires |bs| == NumBorders(rows, cols)
    requires forall k | 0 <= k < |idxs| :: 0 <= idxs[k] < |bs|
    ensures ValidCountAt(rows, cols, bs, idxs, s) == CountAt(bs, idxs, s)
    ensures ValidCount(rows, cols, idxs) == |idxs|
  {
    if idxs != [] {
      ValidCountAtAllValid(rows, cols, bs, idxs[..|idxs| - 1], s);
    }
  }

  /** getStatusCount: the UNSET, ACTIVE and BLANK counts over the valid listed indices. */
  method LegacyGetStatusCount(board: Board, idxs: seq<int>) returns (countUnset: nat, countActive: nat, countBlank: nat)
    requires Fits(board)
    ensures countUnset == ValidCountAt(board.rows, board.cols, board.borders[..], idxs, UNSET)
    ensures countActive == ValidCountAt(board.rows, board.cols, board.borders[..], idxs, ACTIVE)
    ensures countBlank == ValidCountAt(board.rows, board.cols, board.borders[..], idxs, BLANK)
    ensures countUnset + countActive + countBlank == ValidCount(board.rows, board.cols, idxs)
  {
    ghost var bs := board.borders[..];
    countUnset, countActive, countBlank := 0, 0, 0;
    for k := 0 to |idxs|
      invariant countUnset == ValidCountAt(board.rows, board.cols, bs, idxs[..k], UNSET)
      invariant countActive == ValidCountAt(board.rows, board.cols, bs, idxs[..k], ACTIVE)
      invariant countBlank == ValidCountAt(board.rows, board.cols, bs, idxs[..k], BLANK)
    {
      assert idxs[..k + 1][..k] == idxs[..k];
      var idx := idxs[k];
      if IsValidBorderIdx(board.rows, board.cols, idx) {
        if board.borders[idx] == UNSET {
          countUnset := countUnset + 1;
        } else if board.borders[idx] == ACTIVE {
          countActive := countActive + 1;
        } else if board.borders[idx] == BLANK {
          countBlank := countBlank + 1;
        }
      }
    }
    assert idxs[..|idxs|] == idxs;
    ValidCountTotal(board.rows, board.cols, bs, idxs);
  }

  /** The single-status counting loop shared by countUnset, countActive and countBlank. */
  method CountValidAt(board: Board, idxs: seq<int>, s: BorderStatus) returns (count: nat)
    requires Fits(board)
    ensures count == ValidCountAt(board.rows, board.cols, board.borders[..], idxs, s)
  {
    count := 0;
    for k := 0 to |idxs|
      invariant count == ValidCountAt(board.rows, board.cols, board.borders[..], idxs[..k], s)
    {
      assert idxs[..k + 1][..k] == idxs[..k];
      var idx := idxs[k];
      if IsValidBorderIdx(board.rows, board.cols, idx) && board.borders[idx] == s {
        count := count + 1;
      }
    }
    assert idxs[..|idxs|] == idxs;
  }

  /** countUnset: the first component of getStatusCount. */
  method CountUnset(board: Board, idxs: seq<int>) returns (count: nat)
    requires Fits(board)
    ensures count == ValidCountAt(board.rows, board.cols, board.borders[..], idxs, UNSET)
  {
    count := CountValidAt(board, idxs, UNSET);
  }

  /** countActive: the second component of getStatusCount. */
  method CountActive(board: Board, idxs: seq<int>) returns (count: nat)
    requires Fits(board)
    ensures count == ValidCountAt(board.rows, board.cols, board.borders[..], idxs, ACTIVE)
  {
    count := CountValidAt(board, idxs, ACTIVE);
  }

  /** countBlank: the third component of getStatusCount. */
  method CountBlank(board: Board, idxs: seq<int>) returns (count: nat)
    requires Fits(board)
    ensures count == ValidCountAt(board.rows, board.cols, board.borders[..], idxs, BLANK)
  {
    count := CountValidAt(board, idxs, BLANK);
  }

  /** The statuses of the four sides of a valid cell, TOP, RIGHT, BOT, LEFT. */
  function SideStatuses(board: Board, row: int, col: int): (s: seq<BorderStatus>)
    reads board.borders
    requires Fits(board) && IsValidCellIdx(board.rows, board.cols, row, col)
    ensures |s| == 4
    ensures forall d :: 0 <= BorderIdx(board.cols, row, col, d) < board.borders.Length
                        && s[CardinalValue(d)] == board.borders[BorderIdx(board.cols, row, col, d)]
  {
    CellBordersValid(board.rows, board.cols, row, col);
    CellBorderSeqValid(board.rows, board.cols, row, col);
    Statuses(board.borders[..], CellBorderSeq(board.cols, row, col))
  }

  /** isCellDone: no side of the cell is UNSET. */
  method IsCellDone(board: Board, row: int, col: int) returns (r: bool)
    requires Fits(board) && IsValidCellIdx(board.rows, board.cols, row, col)
    ensures r <==> UNSET !in SideStatuses(board, row, col)
    ensures r <==> CountOf(SideStatuses(board, row, col), UNSET) == 0
  {
    CellBordersValid(board.rows, board.cols, row, col);
    ghost var s := SideStatuses(board, row, col);
    CountZero(s, UNSET);
    for k := 0 to 4
      invariant forall j | 0 <= j < k :: s[j] != UNSET
    {
      var d := AllCardinal[k];
      assert CardinalValue(d) == k;
      if board.borders[BorderIdx(board.cols, row, col, d)] == UNSET {
        return false;
      }
    }
    return true;
  }

  /** getCellBordersBoolStatus: for TOP, RIGHT, BOT and LEFT in turn, whether that side has status st. */
  function CellBordersBoolStatus(board: Board, row: int, col: int, st: BorderStatus): (r: (bool, bool, bool, bool))
    reads board.borders
    requires Fits(board) && IsValidCellIdx(board.rows, board.cols, row, col)
    ensures var s := SideStatuses(board, row, col);
            r == (s[0] == st, s[1] == st, s[2] == st, s[3] == st)
  {
    CellBordersValid(board.rows, board.cols, row, col);
    var (top, right, bot, left) := CellBorders(board.cols, row, col);
    (board.borders[top] == st, board.borders[right] == st, board.borders[bot] == st, board.borders[left] == st)
  }

  /** Each side answers yes to exactly one of the three status queries. */
  lemma BoolStatusExclusive(board: Board, row: int, col: int)
    requires Fits(board) && IsValidCellIdx(board.rows, board.cols, row, col)
    ensures var u := CellBordersBoolStatus(board, row, col, UNSET);
            var a := CellBordersBoolStatus(board, row, col, ACTIVE);
            var b := CellBordersBoolStatus(board, row, col, BLANK);
            (u.0 || a.0 || b.0) && (u.1 || a.1 || b.1) && (u.2 || a.2 || b.2) && (u.3 || a.3 || b.3)
            && !(u.0 && a.0) && !(u.0 && b.0) && !(a.0 && b.0)
            && !(u.1 && a.1) && !(u.1 && b.1) && !(a.1 && b.1)
            && !(u.2 && a.2) && !(u.2 && b.2) && !(a.2 && b.2)
            && !(u.3 && a.3) && !(u.3 && b.3) && !(a.3 && b.3)
  {
  }

  /** shouldFillUpRemainingUnsetBorders: the cell has a clue equal to its number of sides that are not BLANK. */
  method ShouldFillUpRemainingUnsetBorders(board: Board, row: int, col: int) returns (r: bool)
    requires Fits(board) && IsValidCellIdx(board.rows, board.cols, row, col)
    ensures r <==> board.cells[row][col] == Some(4 - CountOf(SideStatuses(board, row, col), BLANK))
  {
    CellBordersValid(board.rows, board.cols, row, col);
    ghost var s := SideStatuses(board, row, col);
    var num := board.cells[row][col];
    if num.None? {
      return false;
    }
    var count := 0;
    for k := 0 to 4
      invariant count == k - CountOf(s[..k], BLANK)
    {
      assert s[..k + 1][..k] == s[..k];
      var d := AllCardinal[k];
      assert CardinalValue(d) == k;
      if board.borders[BorderIdx(board.cols, row, col, d)] != BLANK {
        count := count + 1;
      }
    }
    assert s[..4] == s;
    return count == num.value;
  }

  /** shouldRemoveRemainingUnsetBorders: the cell has a clue equal to its number of ACTIVE sides. */
  method ShouldRemoveRemainingUnsetBorders(board: Board, row: int, col: int) returns (r: bool)
    requires Fits(board) && IsValidCellIdx(board.rows, board.cols, row, col)
    ensures r <==> board.cells[row][col] == Some(CountOf(SideStatuses(board, row, col), ACTIVE))
  {
    CellBordersValid(board.rows, board.cols, row, col);
    ghost var s := SideStatuses(board, row, col);
    var num := board.cells[row][col];
    if num.None? {
      return false;
    }
    var count := 0;
    for k := 0 to 4
      invariant count == CountOf(s[..k], ACTIVE)
    {
      assert s[..k + 1][..k] == s[..k];
      var d := AllCardinal[k];
      assert CardinalValue(d) == k;
      if board.borders[BorderIdx(board.cols, row, col, d)] == ACTIVE {
        count := count + 1;
      }
    }
    assert s[..4] == s;
    return count == num.value;
  }

  /**
   * The fill test and the remove test hold together only on a cell with no UNSET side, so
   * trying fill first and remove second never loses a move.
   */
  lemma FillAndRemoveOnlyWhenDone(s: seq<BorderStatus>, clue: int)
    requires |s| == 4
    requires clue == 4 - CountOf(s, BLANK) && clue == CountOf(s, ACTIVE)
    ensures UNSET !in s
  {
    CountTotal(s);
    CountZero(s, UNSET);
  }

  /**
   * The runs getContinuousUnsetBordersOfCell reports, for sides t, rt, b, l (TOP, RIGHT, BOT,
   * LEFT), whether each is UNSET (u) and whether each pair of neighbouring sides TOP-RIGHT,
   * RIGHT-BOT, BOT-LEFT, LEFT-TOP is continuous (c): the first three-side run that holds
   * (TOP-RIGHT-BOT, RIGHT-BOT-LEFT, BOT-LEFT-TOP, LEFT-TOP-RIGHT), alone; else every
   * continuous UNSET pair, clockwise from TOP-RIGHT.
   */
  function RunsOf(t: int, rt: int, b: int, l: int, u: (bool, bool, bool, bool), c: (bool, bool, bool, bool)): (r: seq<seq<int>>)
  {
    if u.0 && u.1 && u.2 && c.0 && c.1 then [[t, rt, b]]
    else if u.1 && u.2 && u.3 && c.1 && c.2 then [[rt, b, l]]
    else if u.2 && u.3 && u.0 && c.2 && c.3 then [[b, l, t]]
    else if u.3 && u.0 && u.1 && c.3 && c.0 then [[l, t, rt]]
    else (if u.0 && u.1 && c.0 then [[t, rt]] else [])
         + (if u.1 && u.2 && c.1 then [[rt, b]] else [])
         + (if u.2 && u.3 && c.2 then [[b, l]] else [])
         + (if u.3 && u.0 && c.3 then [[l, t]] else [])
  }

  /**
   * One run of three sides or up to four pairs; every entry is an UNSET side, and every two
   * neighbouring entries of a run are neighbouring sides whose pair is continuous.
   */
  lemma RunsOfShape(t: int, rt: int, b: int, l: int, u: (bool, bool, bool, bool), c: (bool, bool, bool, bool))
    ensures var r := RunsOf(t, rt, b, l, u, c);
            && ((|r| == 1 && |r[0]| == 3) || (|r| <= 4 && forall k | 0 <= k < |r| :: |r[k]| == 2))
            && (forall k, i | 0 <= k < |r| && 0 <= i < |r[k]| ::
                  (r[k][i] == t && u.0) || (r[k][i] == rt && u.1) || (r[k][i] == b && u.2) || (r[k][i] == l && u.3))
            && (forall k, i | 0 <= k < |r| && 0 <= i < |r[k]| - 1 ::
                  ((r[k][i], r[k][i + 1]) == (t, rt) && c.0) || ((r[k][i], r[k][i + 1]) == (rt, b) && c.1)
                  || ((r[k][i], r[k][i + 1]) == (b, l) && c.2) || ((r[k][i], r[k][i + 1]) == (l, t) && c.3))
  {
  }

  /** The runs of a valid cell of the border list bs. */
  ghost function ContRuns(rows: int, cols: int, bs: seq<BorderStatus>, row: int, col: int): (r: seq<seq<int>>)
    requires cols >= 1 && |bs| == NumBorders(rows, cols) && IsValidCellIdx(rows, cols, row, col)
  {
    CellBordersValid(rows, cols, row, col);
    var (t, rt, b, l) := CellBorders(cols, row, col);
    RunsOf(t, rt, b, l, (bs[t] == UNSET, bs[rt] == UNSET, bs[b] == UNSET, bs[l] == UNSET),
           (Continuous(rows, cols, bs, t, rt), Continuous(rows, cols, bs, rt, b),
            Continuous(rows, cols, bs, b, l), Continuous(rows, cols, bs, l, t)))
  }

  /** getContinuousUnsetBordersOfCell reports either one run of three sides or at most four pairs. */
  lemma ContRunsShape(rows: int, cols: int, bs: seq<BorderStatus>, row: int, col: int)
    requires cols >= 1 && |bs| == NumBorders(rows, cols) && IsValidCellIdx(rows, cols, row, col)
    ensures var r := ContRuns(rows, cols, bs, row, col);
            && ((|r| == 1 && |r[0]| == 3) || (|r| <= 4 && forall k | 0 <= k < |r| :: |r[k]| == 2))
  {
    CellBordersValid(rows, cols, row, col);
    var (t, rt, b, l) := CellBorders(cols, row, col);
    var u := (bs[t] == UNSET, bs[rt] == UNSET, bs[b] == UNSET, bs[l] == UNSET);
    var c := (Continuous(rows, cols, bs, t, rt), Continuous(rows, cols, bs, rt, b),
              Continuous(rows, cols, bs, b, l), Continuous(rows, cols, bs, l, t));
    RunsOfShape(t, rt, b, l, u, c);
  }

  /** Every index it reports is an UNSET side of the cell. */
  lemma ContRunsUnset(rows: int, cols: int, bs: seq<BorderStatus>, row: int, col: int)
    requires cols >= 1 && |bs| == NumBorders(rows, cols) && IsValidCellIdx(rows, cols, row, col)
    ensures var r := ContRuns(rows, cols, bs, row, col);
            (forall k, i | 0 <= k < |r| && 0 <= i < |r[k]| ::
                  r[k][i] in CellBorderSeq(cols, row, col) && 0 <= r[k][i] < |bs| && bs[r[k][i]] == UNSET)
  {
    CellBordersValid(rows, cols, row, col);
    var (t, rt, b, l) := CellBorders(cols, row, col);
    var u := (bs[t] == UNSET, bs[rt] == UNSET, bs[b] == UNSET, bs[l] == UNSET);
    var c := (Continuous(rows, cols, bs, t, rt), Continuous(rows, cols, bs, rt, b),
              Continuous(rows, cols, bs, b, l), Continuous(rows, cols, bs, l, t));
    RunsOfShape(t, rt, b, l, u, c);
    var r, sides := RunsOf(t, rt, b, l, u, c), CellBorderSeq(cols, row, col);
    assert r == ContRuns(rows, cols, bs, row, col);
    assert t in sides && rt in sides && b in sides && l in sides;
    forall k, i | 0 <= k < |r| && 0 <= i < |r[k]|
      ensures r[k][i] in sides && 0 <= r[k][i] < |bs| && bs[r[k][i]] == UNSET
    {
      var x := r[k][i];
      assert (x == t && u.0) || (x == rt && u.1) || (x == b && u.2) || (x == l && u.3);
      if x == t { assert u.0; } else if x == rt { assert u.1; } else if x == b { assert u.2; } else { assert u.3; }
    }
  }

  /** Neighbouring entries of every reported run are continuous borders. */
  lemma ContRunsContinuous(rows: int, cols: int, bs: seq<BorderStatus>, row: int, col: int)
    requires cols >= 1 && |bs| == NumBorders(rows, cols) && IsValidCellIdx(rows, cols, row, col)
    ensures var r := ContRuns(rows, cols, bs, row, col);
            (forall k, i | 0 <= k < |r| && 0 <= i < |r[k]| - 1 :: Continuous(rows, cols, bs, r[k][i], r[k][i + 1]))
  {
    CellBordersValid(rows, cols, row, col);
    var (t, rt, b, l) := CellBorders(cols, row, col);
    var u := (bs[t] == UNSET, bs[rt] == UNSET, bs[b] == UNSET, bs[l] == UNSET);
    var c := (Continuous(rows, cols, bs, t, rt), Continuous(rows, cols, bs, rt, b),
              Continuous(rows, cols, bs, b, l), Continuous(rows, cols, bs, l, t));
    RunsOfShape(t, rt, b, l, u, c);
  }

  /** getContinuousUnsetBordersOfCell. */
  method LegacyContinuousUnsetBordersOfCell(board: Board, row: int, col: int) returns (r: seq<seq<int>>)
    requires board.Valid() && IsValidCellIdx(board.rows, board.cols, row, col)
    ensures r == ContRuns(board.rows, board.cols, board.borders[..], row, col)
  {
    CellBordersValid(board.rows, board.cols, row, col);
    var (t, rt, b, l) := CellBorders(board.cols, row, col);
    var tU, rU, bU, lU := board.borders[t] == UNSET, board.borders[rt] == UNSET,
                          board.borders[b] == UNSET, board.borders[l] == UNSET;
    var cTR := IsContinuous(board, t, rt);
    var cRB := IsContinuous(board, rt, b);
    var cBL := IsContinuous(board, b, l);
    var cLT := IsContinuous(board, l, t);
    r := RunsOf(t, rt, b, l, (tU, rU, bU, lU), (cTR, cRB, cBL, cLT));
  }

  /**
   * getCornerProtrusionsOf2Cell: for a 2-cell, the corners where the loop is known to leave
   * the cell, from its ACTIVE and BLANK sides; nothing for any other cell.
   */
  function CornerProtrusionsOf2Cell(board: Board, row: int, col: int): (r: seq<DiagonalDirection>)
    reads board.borders
    requires Fits(board) && IsValidCellIdx(board.rows, board.cols, row, col)
    ensures board.cells[row][col] != Some(2) ==> r == []
    ensures r == [] || r == AllDiagonal || r == [ULEFT, LRIGHT] || r == [URIGHT, LLEFT]
    ensures forall d | d in r :: d.Opposite() in r
  {
    if board.cells[row][col] != Some(2) then []
    else ProtrusionsOfSides(CellBordersBoolStatus(board, row, col, ACTIVE), CellBordersBoolStatus(board, row, col, BLANK))
  }

  /**
   * The decision of getCornerProtrusionsOf2Cell on a 2-cell, from which sides are ACTIVE (a)
   * and which BLANK (b), each in TOP, RIGHT, BOT, LEFT order.
   */
  function ProtrusionsOfSides(a: (bool, bool, bool, bool), b: (bool, bool, bool, bool)): (r: seq<DiagonalDirection>)
    ensures r == [] || r == AllDiagonal || r == [ULEFT, LRIGHT] || r == [URIGHT, LLEFT]
  {
    var cornersULLR := [ULEFT, LRIGHT];
    var cornersURLL := [URIGHT, LLEFT];
    var (topA, rightA, botA, leftA) := a;
    var (topB, rightB, botB, leftB) := b;
    if topA && botA then AllDiagonal
    else if leftA && rightA then AllDiagonal
    else if topA && rightA then cornersULLR
    else if rightA && botA then cornersURLL
    else if botA && leftA then cornersULLR
    else if leftA && topA then cornersURLL
    else if topA && rightB then cornersURLL
    else if topA && leftB then cornersULLR
    else if rightA && botB then cornersULLR
    else if rightA && topB then cornersURLL
    else if botA && leftB then cornersURLL
    else if botA && rightB then cornersULLR
    else if leftA && topB then cornersULLR
    else if leftA && botB then cornersURLL
    else []
  }

  /** Which of four side statuses equal st, in order. */
  function Flags(s: seq<BorderStatus>, st: BorderStatus): (bool, bool, bool, bool)
    requires |s| == 4
  {
    (s[0] == st, s[1] == st, s[2] == st, s[3] == st)
  }

  /** The positions, in TOP, RIGHT, BOT, LEFT order, of the two sides meeting at corner d. */
  function CornerSides(d: DiagonalDirection): (p: (int, int))
    ensures p.0 == CardinalValue(if d.IsUpper() then TOP else BOT)
    ensures p.1 == CardinalValue(if d.IsLeft() then LEFT else RIGHT)
  {
    (if d.IsUpper() then 0 else 2, if d.IsLeft() then 3 else 1)
  }

  /** At corner d one of the two sides (statuses s, TOP, RIGHT, BOT, LEFT) is ACTIVE and the other BLANK. */
  predicate ActiveMeetsBlank(s: seq<BorderStatus>, d: DiagonalDirection)
    requires |s| == 4
  {
    var (i, j) := CornerSides(d);
    (s[i] == ACTIVE && s[j] == BLANK) || (s[i] == BLANK && s[j] == ACTIVE)
  }

  /**
   * With a single ACTIVE side that meets a BLANK side at corner d0, the loop cannot turn at
   * that corner and so leaves the cell there: the decision reports the diagonal pair through
   * a corner where the ACTIVE side meets a BLANK one.
   */
  lemma SidesBlankTurn(s: seq<BorderStatus>, d0: DiagonalDirection)
    requires |s| == 4 && CountOf(s, ACTIVE) == 1 && ActiveMeetsBlank(s, d0)
    ensures var r := ProtrusionsOfSides(Flags(s, ACTIVE), Flags(s, BLANK));
            |r| == 2 && forall d | d in r :: ActiveMeetsBlank(s, d) || ActiveMeetsBlank(s, d.Opposite())
  {
    CountOfFour(s, ACTIVE);
  }

  /** SidesBlankTurn on the sides of a 2-cell of the board. */
  lemma ProtrusionsOfBlankTurn(board: Board, row: int, col: int, d0: DiagonalDirection)
    requires Fits(board) && IsValidCellIdx(board.rows, board.cols, row, col)
    requires board.cells[row][col] == Some(2)
    requires CountOf(SideStatuses(board, row, col), ACTIVE) == 1
    requires ActiveMeetsBlank(SideStatuses(board, row, col), d0)
    ensures var r, s := CornerProtrusionsOf2Cell(board, row, col), SideStatuses(board, row, col);
            |r| == 2 && forall d | d in r :: ActiveMeetsBlank(s, d) || ActiveMeetsBlank(s, d.Opposite())
  {
    SidesBlankTurn(SideStatuses(board, row, col), d0);
  }

  /**
   * On a 2-cell with exactly two ACTIVE sides the reported corners are exactly the
   * protrusions: the corners with exactly one ACTIVE border.
   */
  lemma ProtrusionsOfSatisfied2Cell(board: Board, row: int, col: int, d: DiagonalDirection)
    requires board.Valid() && Fits(board) && IsValidCellIdx(board.rows, board.cols, row, col)
    requires board.cells[row][col] == Some(2)
    requires CountOf(SideStatuses(board, row, col), ACTIVE) == 2
    ensures d in CornerProtrusionsOf2Cell(board, row, col) <==> CornerActiveCount(board, board.borders[..], row, col, d) == 1
  {
    CellBordersValid(board.rows, board.cols, row, col);
    var s := SideStatuses(board, row, col);
    CountOfFour(s, ACTIVE);
    var (b1, b2) := CornerBorderIndices(board.cols, row, col, d);
    assert [b1, b2][..1] == [b1];
    assert CountAt(board.borders[..], [b1, b2], ACTIVE)
           == (if board.borders[b1] == ACTIVE then 1 else 0) + (if board.borders[b2] == ACTIVE then 1 else 0);
  }

  /** The count of a status among four entries, entry by entry. */
  lemma CountOfFour(s: seq<BorderStatus>, x: BorderStatus)
    requires |s| == 4
    ensures CountOf(s, x) == (if s[0] == x then 1 else 0) + (if s[1] == x then 1 else 0)
                             + (if s[2] == x then 1 else 0) + (if s[3] == x then 1 else 0)
  {
    assert s[..3][..2] == s[..2] && s[..2][..1] == s[..1] && s[..1][..0] == [];
    assert CountOf(s[..1], x) == (if s[0] == x then 1 else 0);
    assert CountOf(s[..2], x) == CountOf(s[..1], x) + (if s[1] == x then 1 else 0);
    assert CountOf(s[..3], x) == CountOf(s[..2], x) + (if s[2] == x then 1 else 0);
  }
}
