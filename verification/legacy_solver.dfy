/**
 * The older solver: a pass over every cell and every border of the board, with a setBorder
 * that overwrites whatever status a border had. Each pass is specified by a function of the
 * border list before it; the lemmas show that every rule only ever writes UNSET borders, so
 * the overwriting never takes effect, and that a pass reports a move exactly when it
 * changed the board.
 */
module LegacySolver {
  import opened Outcomes
  import opened Enums
  import opened BoardTools
  import opened BoardModel
  import opened SolverTools
  import opened SetBorder
  import opened Initial
  import opened LegacySolverTools

  /** A step from bs to r.0 only sets UNSET borders, and reports a move (r.1) exactly when it changed something. */
  ghost predicate Reports(bs: seq<BorderStatus>, r: (seq<BorderStatus>, bool))
  {
    Grows(bs, r.0) && (r.1 <==> r.0 != bs)
  }

  /** Two reporting steps in a row make one reporting step whose report is the disjunction. */
  lemma ReportsCompose(a: seq<BorderStatus>, r1: (seq<BorderStatus>, bool), r2: (seq<BorderStatus>, bool))
    requires Reports(a, r1) && Reports(r1.0, r2)
    ensures Reports(a, (r2.0, r1.1 || r2.1))
  {
    if r2.0 == a {
      assert forall i | 0 <= i < |a| :: r1.0[i] == a[i];
      assert r1.0 == a;
    }
  }

  /** setBorder on each listed border in turn: each takes status st; a move if any had another status. */
  ghost function Overwrite(bs: seq<BorderStatus>, idxs: seq<int>, st: BorderStatus): (r: (seq<BorderStatus>, bool))
    requires forall k | 0 <= k < |idxs| :: 0 <= idxs[k] < |bs|
    ensures |r.0| == |bs|
  {
    (Assign(bs, set k | 0 <= k < |idxs| :: idxs[k], st), exists k | 0 <= k < |idxs| :: bs[idxs[k]] != st)
  }

  /** Overwriting borders that are UNSET (or already have the status) is a reporting step. */
  lemma OverwriteReports(bs: seq<BorderStatus>, idxs: seq<int>, st: BorderStatus)
    requires forall k | 0 <= k < |idxs| :: 0 <= idxs[k] < |bs| && (bs[idxs[k]] == UNSET || bs[idxs[k]] == st)
    requires st != UNSET
    ensures Reports(bs, Overwrite(bs, idxs, st))
  {
    var targets := set k | 0 <= k < |idxs| :: idxs[k];
    AssignGrows(bs, targets, st);
    var r := Overwrite(bs, idxs, st);
    if !r.1 {
      assert forall i | 0 <= i < |bs| :: r.0[i] == bs[i];
    } else {
      var k :| 0 <= k < |idxs| && bs[idxs[k]] != st;
      assert r.0[idxs[k]] == st;
    }
  }

  /** Setting the UNSET ones among the listed borders, and reporting whether there were any, is a reporting step. */
  lemma FillReports(bs: seq<BorderStatus>, idxs: seq<int>, st: BorderStatus)
    requires st != UNSET
    ensures Reports(bs, (Fill(bs, idxs, st), AnyUnset(bs, idxs)))
  {
    var f := Fill(bs, idxs, st);
    if AnyUnset(bs, idxs) {
      var k :| 0 <= k < |idxs| && 0 <= idxs[k] < |bs| && bs[idxs[k]] == UNSET;
      assert f[idxs[k]] != UNSET;
    } else {
      assert forall i | 0 <= i < |bs| :: f[i] == bs[i];
      assert f == bs;
    }
  }

  /** The UNSET sides of a valid cell, in TOP, RIGHT, BOT, LEFT order. */
  function UnsetSides(bs: seq<BorderStatus>, rows: int, cols: int, row: int, col: int): (r: seq<int>)
    requires cols >= 1 && |bs| == NumBorders(rows, cols) && IsValidCellIdx(rows, cols, row, col)
    ensures forall y | y in r :: 0 <= y < |bs| && bs[y] == UNSET
    ensures forall d :: 0 <= BorderIdx(cols, row, col, d) < |bs|
                        && (bs[BorderIdx(cols, row, col, d)] == UNSET ==> BorderIdx(cols, row, col, d) in r)
  {
    CellBordersValid(rows, cols, row, col);
    var (t, rt, b, l) := CellBorders(cols, row, col);
    UnsetOf4(bs, t, rt, b, l)
  }

  /** The UNSET ones among four border indices, in the order given. */
  function UnsetOf4(bs: seq<BorderStatus>, t: int, rt: int, b: int, l: int): (r: seq<int>)
    requires 0 <= t < |bs| && 0 <= rt < |bs| && 0 <= b < |bs| && 0 <= l < |bs|
    ensures forall y | y in r :: 0 <= y < |bs| && bs[y] == UNSET
    ensures (bs[t] == UNSET ==> t in r) && (bs[rt] == UNSET ==> rt in r)
    ensures (bs[b] == UNSET ==> b in r) && (bs[l] == UNSET ==> l in r)
  {
    Keep(bs[t] == UNSET, t) + Keep(bs[rt] == UNSET, rt) + Keep(bs[b] == UNSET, b) + Keep(bs[l] == UNSET, l)
  }

  /**
   * One half of handle2CellDiagonallyOppositeActiveArms: when the arms at two opposite
   * corners each hold exactly one ACTIVE border, their UNSET arms become BLANK.
   */
  ghost function OppositeArmsSpec(rows: int, cols: int, bs: seq<BorderStatus>, arms1: seq<int>, arms2: seq<int>): (r: (seq<BorderStatus>, bool))
    requires |bs| == NumBorders(rows, cols)
    ensures |r.0| == |bs|
  {
    if ValidCountAt(rows, cols, bs, arms1, ACTIVE) == 1 && ValidCountAt(rows, cols, bs, arms2, ACTIVE) == 1
    then (Fill(bs, arms1 + arms2, BLANK), AnyUnset(bs, arms1 + arms2))
    else (bs, false)
  }

  /**
   * handle2CellDiagonallyOppositeActiveArms: on a 2-cell, the opposite arms rule for the
   * upper-left and lower-right corners, then for the upper-right and lower-left corners.
   */
  ghost function Handle2Spec(board: Board, bs: seq<BorderStatus>, row: int, col: int): (r: (seq<BorderStatus>, bool))
    requires Fits(board) && |bs| == NumBorders(board.rows, board.cols)
    requires IsValidCellIdx(board.rows, board.cols, row, col)
    ensures |r.0| == |bs|
  {
    if board.cells[row][col] != Some(2) then (bs, false)
    else
      var (rows, cols) := (board.rows, board.cols);
      var p := OppositeArmsSpec(rows, cols, bs, Arms(rows, cols, row, col, ULEFT), Arms(rows, cols, row, col, LRIGHT));
      var q := OppositeArmsSpec(rows, cols, p.0, Arms(rows, cols, row, col, URIGHT), Arms(rows, cols, row, col, LLEFT));
      (q.0, p.1 || q.1)
  }

  lemma Handle2Reports(board: Board, bs: seq<BorderStatus>, row: int, col: int)
    requires Fits(board) && |bs| == NumBorders(board.rows, board.cols)
    requires IsValidCellIdx(board.rows, board.cols, row, col)
    ensures Reports(bs, Handle2Spec(board, bs, row, col))
  {
    if board.cells[row][col] == Some(2) {
      var (rows, cols) := (board.rows, board.cols);
      var ul, lr := Arms(rows, cols, row, col, ULEFT), Arms(rows, cols, row, col, LRIGHT);
      var ur, ll := Arms(rows, cols, row, col, URIGHT), Arms(rows, cols, row, col, LLEFT);
      var p := OppositeArmsSpec(rows, cols, bs, ul, lr);
      var q := OppositeArmsSpec(rows, cols, p.0, ur, ll);
      FillReports(bs, ul + lr, BLANK);
      FillReports(p.0, ur + ll, BLANK);
      ReportsCompose(bs, p, q);
    }
  }

  /** The runs of continuous UNSET sides, one after the other. */
  function Flatten(runs: seq<seq<int>>): (r: seq<int>)
  {
    if runs == [] then [] else Flatten(runs[..|runs| - 1]) + runs[|runs| - 1]
  }

  /** Every entry of the flattened runs is an entry of some run. */
  lemma {:induction false} FlattenEntries(runs: seq<seq<int>>, bs: seq<BorderStatus>)
    requires forall k, i | 0 <= k < |runs| && 0 <= i < |runs[k]| :: 0 <= runs[k][i] < |bs| && bs[runs[k][i]] == UNSET
    ensures forall j | 0 <= j < |Flatten(runs)| :: 0 <= Flatten(runs)[j] < |bs| && bs[Flatten(runs)[j]] == UNSET
  {
    if runs != [] {
      var p := runs[..|runs| - 1];
      assert forall k | 0 <= k < |p| :: p[k] == runs[k];
      FlattenEntries(p, bs);
    }
  }

  /** Flattening keeps every entry of every run. */
  lemma {:induction false} FlattenKeeps(runs: seq<seq<int>>)
    ensures forall k, i | 0 <= k < |runs| && 0 <= i < |runs[k]| :: runs[k][i] in Flatten(runs)
  {
    if runs != [] {
      var p := runs[..|runs| - 1];
      FlattenKeeps(p);
      assert forall k | 0 <= k < |p| :: p[k] == runs[k];
    }
  }

  /**
   * The continuous-run rule of processCell, when the earlier rules found no move: a 1-cell
   * sets every run BLANK, a 3-cell sets every run ACTIVE, and a 2-cell with a BLANK side sets
   * its first run ACTIVE.
   */
  ghost function RunsSpec(board: Board, bs: seq<BorderStatus>, row: int, col: int): (r: (seq<BorderStatus>, bool))
    requires Fits(board) && |bs| == NumBorders(board.rows, board.cols)
    requires IsValidCellIdx(board.rows, board.cols, row, col)
    ensures |r.0| == |bs|
  {
    var runs := ContRuns(board.rows, board.cols, bs, row, col);
    ContRunsUnset(board.rows, board.cols, bs, row, col);
    FlattenEntries(runs, bs);
    var clue := board.cells[row][col];
    if |runs| == 0 then (bs, false)
    else if clue == Some(1) then Overwrite(bs, Flatten(runs), BLANK)
    else if clue == Some(3) then Overwrite(bs, Flatten(runs), ACTIVE)
    else if clue == Some(2) && ValidCountAt(board.rows, board.cols, bs, CellBorderSeq(board.cols, row, col), BLANK) > 0
    then Overwrite(bs, runs[0], ACTIVE)
    else (bs, false)
  }

  lemma RunsReports(board: Board, bs: seq<BorderStatus>, row: int, col: int)
    requires Fits(board) && |bs| == NumBorders(board.rows, board.cols)
    requires IsValidCellIdx(board.rows, board.cols, row, col)
    ensures Reports(bs, RunsSpec(board, bs, row, col))
  {
    var runs := ContRuns(board.rows, board.cols, bs, row, col);
    ContRunsUnset(board.rows, board.cols, bs, row, col);
    FlattenEntries(runs, bs);
    var clue := board.cells[row][col];
    if |runs| == 0 {
    } else if clue == Some(1) {
      OverwriteReports(bs, Flatten(runs), BLANK);
    } else if clue == Some(3) {
      OverwriteReports(bs, Flatten(runs), ACTIVE);
    } else if clue == Some(2) {
      OverwriteReports(bs, runs[0], ACTIVE);
    }
  }

  /** What the run rule leaves behind: 1-cell runs BLANK, 3-cell runs ACTIVE, the first run of a 2-cell with a BLANK side ACTIVE. */
  lemma RunsSpecSets(board: Board, bs: seq<BorderStatus>, row: int, col: int)
    requires Fits(board) && |bs| == NumBorders(board.rows, board.cols)
    requires IsValidCellIdx(board.rows, board.cols, row, col)
    ensures var runs := ContRuns(board.rows, board.cols, bs, row, col);
            var r := RunsSpec(board, bs, row, col).0;
            && (board.cells[row][col] == Some(1) ==>
                  forall k, i | 0 <= k < |runs| && 0 <= i < |runs[k]| :: 0 <= runs[k][i] < |r| && r[runs[k][i]] == BLANK)
            && (board.cells[row][col] == Some(3) ==>
                  forall k, i | 0 <= k < |runs| && 0 <= i < |runs[k]| :: 0 <= runs[k][i] < |r| && r[runs[k][i]] == ACTIVE)
            && (board.cells[row][col] == Some(2) && |runs| > 0
                && ValidCountAt(board.rows, board.cols, bs, CellBorderSeq(board.cols, row, col), BLANK) > 0 ==>
                  forall i | 0 <= i < |runs[0]| :: 0 <= runs[0][i] < |r| && r[runs[0][i]] == ACTIVE)
  {
    var runs := ContRuns(board.rows, board.cols, bs, row, col);
    ContRunsUnset(board.rows, board.cols, bs, row, col);
    FlattenKeeps(runs);
  }

  /**
   * The first rules of processCell: fill (every UNSET side ACTIVE) when the clue equals the
   * number of sides that are not BLANK, else remove (every UNSET side BLANK) when it equals
   * the number of ACTIVE sides.
   */
  ghost function FillOrRemoveSpec(board: Board, bs: seq<BorderStatus>, row: int, col: int): (r: (seq<BorderStatus>, bool))
    requires Fits(board) && |bs| == NumBorders(board.rows, board.cols)
    requires IsValidCellIdx(board.rows, board.cols, row, col)
    ensures |r.0| == |bs|
  {
    CellBorderSeqValid(board.rows, board.cols, row, col);
    var clue := board.cells[row][col];
    var s := Statuses(bs, CellBorderSeq(board.cols, row, col));
    var unset := UnsetSides(bs, board.rows, board.cols, row, col);
    if clue == Some(4 - CountOf(s, BLANK)) then Overwrite(bs, unset, ACTIVE)
    else if clue == Some(CountOf(s, ACTIVE) as int) then Overwrite(bs, unset, BLANK)
    else (bs, false)
  }

  lemma FillOrRemoveReports(board: Board, bs: seq<BorderStatus>, row: int, col: int)
    requires Fits(board) && |bs| == NumBorders(board.rows, board.cols)
    requires IsValidCellIdx(board.rows, board.cols, row, col)
    ensures Reports(bs, FillOrRemoveSpec(board, bs, row, col))
  {
    var unset := UnsetSides(bs, board.rows, board.cols, row, col);
    assert forall k | 0 <= k < |unset| :: unset[k] in unset;
    OverwriteReports(bs, unset, ACTIVE);
    OverwriteReports(bs, unset, BLANK);
  }

  /**
   * processCell: on a cell with a clue, the fill or remove rule, then on a 2-cell the
   * diagonally opposite arms rule; any move so far ends the step, otherwise the
   * continuous-run rule applies.
   */
  ghost function CellSpec(board: Board, bs: seq<BorderStatus>, row: int, col: int): (r: (seq<BorderStatus>, bool))
    requires Fits(board) && |bs| == NumBorders(board.rows, board.cols)
    requires IsValidCellIdx(board.rows, board.cols, row, col)
    ensures |r.0| == |bs|
  {
    var clue := board.cells[row][col];
    if clue.None? then (bs, false)
    else
      var p := FillOrRemoveSpec(board, bs, row, col);
      var q := if clue == Some(2) then Handle2Spec(board, p.0, row, col) else (p.0, false);
      if p.1 || q.1 then (q.0, true)
      else RunsSpec(board, q.0, row, col)
  }

  lemma CellReports(board: Board, bs: seq<BorderStatus>, row: int, col: int)
    requires Fits(board) && |bs| == NumBorders(board.rows, board.cols)
    requires IsValidCellIdx(board.rows, board.cols, row, col)
    ensures Reports(bs, CellSpec(board, bs, row, col))
  {
    var clue := board.cells[row][col];
    if clue.Some? {
      var p := FillOrRemoveSpec(board, bs, row, col);
      FillOrRemoveReports(board, bs, row, col);
      var q := if clue == Some(2) then Handle2Spec(board, p.0, row, col) else (p.0, false);
      Handle2Reports(board, p.0, row, col);
      ReportsCompose(bs, p, q);
      if !(p.1 || q.1) {
        RunsReports(board, q.0, row, col);
        ReportsCompose(bs, (q.0, false), RunsSpec(board, q.0, row, col));
      }
    }
  }

  /** Some border of conn is continuous with b and ACTIVE, trying them in order. */
  ghost predicate ActiveContinuationIn(rows: int, cols: int, bs: seq<BorderStatus>, b: int, conn: seq<int>)
    requires cols >= 1 && |bs| == NumBorders(rows, cols)
    requires forall k | 0 <= k < |conn| :: IsValidBorderIdx(rows, cols, conn[k])
  {
    if conn == [] then false
    else (Continuous(rows, cols, bs, b, conn[0]) && bs[conn[0]] == ACTIVE)
         || ActiveContinuationIn(rows, cols, bs, b, conn[1..])
  }

  /** The test finds exactly the listed borders that are continuous with b and ACTIVE. */
  lemma {:induction false} ActiveContinuationInExists(rows: int, cols: int, bs: seq<BorderStatus>, b: int, conn: seq<int>)
    requires cols >= 1 && |bs| == NumBorders(rows, cols)
    requires forall k | 0 <= k < |conn| :: IsValidBorderIdx(rows, cols, conn[k])
    ensures ActiveContinuationIn(rows, cols, bs, b, conn) <==>
            exists k | 0 <= k < |conn| :: Continuous(rows, cols, bs, b, conn[k]) && bs[conn[k]] == ACTIVE
  {
    if conn != [] {
      var t := conn[1..];
      ActiveContinuationInExists(rows, cols, bs, b, t);
      if exists k | 0 <= k < |conn| :: Continuous(rows, cols, bs, b, conn[k]) && bs[conn[k]] == ACTIVE {
        var k :| 0 <= k < |conn| && Continuous(rows, cols, bs, b, conn[k]) && bs[conn[k]] == ACTIVE;
        if k > 0 {
          assert t[k - 1] == conn[k];
        }
      }
      if ActiveContinuationIn(rows, cols, bs, b, t) {
        var k :| 0 <= k < |t| && Continuous(rows, cols, bs, b, t[k]) && bs[t[k]] == ACTIVE;
        assert conn[k + 1] == t[k];
      }
    }
  }

  /** The border continues, through a shared vertex, into an ACTIVE border. */
  ghost predicate ContinuesActive(rows: int, cols: int, bs: seq<BorderStatus>, b: int)
    requires cols >= 1 && |bs| == NumBorders(rows, cols)
  {
    var conn := ConnectedBordersList(rows, cols, b);
    assert forall k | 0 <= k < |conn| :: conn[k] in conn;
    ActiveContinuationIn(rows, cols, bs, b, conn)
  }

  /**
   * The counting rules of processBorder: the border becomes BLANK when an endpoint already
   * has more than one ACTIVE border, or when every border at an endpoint is BLANK.
   */
  ghost function CountRuleSpec(rows: int, cols: int, bs: seq<BorderStatus>, b: int): (r: (seq<BorderStatus>, bool))
    requires cols >= 1 && |bs| == NumBorders(rows, cols) && IsValidBorderIdx(rows, cols, b)
    ensures |r.0| == |bs|
  {
    var (c1, c2) := ConnectedBorders(rows, cols, b);
    if ValidCountAt(rows, cols, bs, c1, ACTIVE) > 1 || ValidCountAt(rows, cols, bs, c2, ACTIVE) > 1 then (bs[b := BLANK], true)
    else if ValidCountAt(rows, cols, bs, c1, BLANK) == |c1| || ValidCountAt(rows, cols, bs, c2, BLANK) == |c2| then (bs[b := BLANK], true)
    else (bs, false)
  }

  /**
   * processBorder: an UNSET border continuous with an ACTIVE border becomes ACTIVE; else the
   * counting rules apply. A border that is not UNSET is left alone.
   */
  ghost function BorderSpec(board: Board, bs: seq<BorderStatus>, b: int): (r: (seq<BorderStatus>, bool))
    requires Fits(board) && |bs| == NumBorders(board.rows, board.cols)
    requires IsValidBorderIdx(board.rows, board.cols, b)
    ensures |r.0| == |bs|
  {
    if bs[b] != UNSET then (bs, false)
    else if ContinuesActive(board.rows, board.cols, bs, b) then (bs[b := ACTIVE], true)
    else CountRuleSpec(board.rows, board.cols, bs, b)
  }

  lemma BorderReports(board: Board, bs: seq<BorderStatus>, b: int)
    requires Fits(board) && |bs| == NumBorders(board.rows, board.cols)
    requires IsValidBorderIdx(board.rows, board.cols, b)
    ensures Reports(bs, BorderSpec(board, bs, b))
  {
    var r := BorderSpec(board, bs, b);
    if r.1 {
      assert r.0[b] != bs[b];
    }
  }

  /** processBorder on a border not yet in `done` (the borders already processed in this pass). */
  ghost function NewBorderSpec(board: Board, bs: seq<BorderStatus>, b: int, done: set<int>): (r: (seq<BorderStatus>, bool))
    requires Fits(board) && |bs| == NumBorders(board.rows, board.cols)
    requires IsValidBorderIdx(board.rows, board.cols, b)
    ensures |r.0| == |bs|
  {
    if b in done then (bs, false) else BorderSpec(board, bs, b)
  }

  /** The border part of one cell of solveObvious: its four sides in order, each at most once per pass. */
  ghost function SidesSpec(board: Board, bs: seq<BorderStatus>, cell: Cell, done: set<int>): (r: (seq<BorderStatus>, bool))
    requires Fits(board) && |bs| == NumBorders(board.rows, board.cols)
    requires IsValidCellIdx(board.rows, board.cols, cell.0, cell.1)
    ensures |r.0| == |bs|
  {
    CellBordersValid(board.rows, board.cols, cell.0, cell.1);
    var (t, rt, b, l) := CellBorders(board.cols, cell.0, cell.1);
    var r1 := NewBorderSpec(board, bs, t, done);
    var r2 := NewBorderSpec(board, r1.0, rt, done + {t});
    var r3 := NewBorderSpec(board, r2.0, b, done + {t, rt});
    var r4 := NewBorderSpec(board, r3.0, l, done + {t, rt, b});
    (r4.0, r1.1 || r2.1 || r3.1 || r4.1)
  }

  lemma SidesReports(board: Board, bs: seq<BorderStatus>, cell: Cell, done: set<int>)
    requires Fits(board) && |bs| == NumBorders(board.rows, board.cols)
    requires IsValidCellIdx(board.rows, board.cols, cell.0, cell.1)
    ensures Reports(bs, SidesSpec(board, bs, cell, done))
  {
    CellBordersValid(board.rows, board.cols, cell.0, cell.1);
    var (t, rt, b, l) := CellBorders(board.cols, cell.0, cell.1);
    var r1 := NewBorderSpec(board, bs, t, done);
    var r2 := NewBorderSpec(board, r1.0, rt, done + {t});
    var r3 := NewBorderSpec(board, r2.0, b, done + {t, rt});
    var r4 := NewBorderSpec(board, r3.0, l, done + {t, rt, b});
    BorderReports(board, bs, t);
    BorderReports(board, r1.0, rt);
    BorderReports(board, r2.0, b);
    BorderReports(board, r3.0, l);
    ReportsCompose(bs, r1, r2);
    ReportsCompose(bs, (r2.0, r1.1 || r2.1), r3);
    ReportsCompose(bs, (r3.0, r1.1 || r2.1 || r3.1), r4);
  }

  /** The sides of the listed cells: the borders a pass has processed after those cells. */
  function SidesOf(cols: int, cells: seq<Cell>): set<int>
  {
    if cells == [] then {}
    else
      var (row, col) := cells[|cells| - 1];
      SidesOf(cols, cells[..|cells| - 1])
      + {BorderIdx(cols, row, col, TOP), BorderIdx(cols, row, col, RIGHT),
         BorderIdx(cols, row, col, BOT), BorderIdx(cols, row, col, LEFT)}
  }

  /** Every listed cell is a valid cell. */
  ghost predicate AllValidCells(board: Board, cells: seq<Cell>)
  {
    forall k | 0 <= k < |cells| :: IsValidCellIdx(board.rows, board.cols, cells[k].0, cells[k].1)
  }

  /**
   * solveObvious over the cells in the order `order`: each cell's rule, then each of its
   * sides not processed earlier in the pass; a move if any step reported one.
   */
  ghost function ObviousSpec(board: Board, bs: seq<BorderStatus>, order: seq<Cell>): (r: (seq<BorderStatus>, bool))
    requires Fits(board) && |bs| == NumBorders(board.rows, board.cols)
    requires AllValidCells(board, order)
    ensures |r.0| == |bs|
  {
    if order == [] then (bs, false)
    else
      var prefix := order[..|order| - 1];
      var cell := order[|order| - 1];
      var prev := ObviousSpec(board, bs, prefix);
      var c := CellSpec(board, prev.0, cell.0, cell.1);
      var s := SidesSpec(board, c.0, cell, SidesOf(board.cols, prefix));
      (s.0, prev.1 || c.1 || s.1)
  }
  /** ObviousSpec and SidesOf on the first k + 1 cells of order, in terms of the first k. */
  lemma ObviousStep(board: Board, bs: seq<BorderStatus>, order: seq<Cell>, k: int)
    requires Fits(board) && |bs| == NumBorders(board.rows, board.cols)
    requires AllValidCells(board, order) && 0 <= k < |order|
    ensures AllValidCells(board, order[..k]) && AllValidCells(board, order[..k + 1])
    ensures var prev := ObviousSpec(board, bs, order[..k]);
            var c := CellSpec(board, prev.0, order[k].0, order[k].1);
            var s := SidesSpec(board, c.0, order[k], SidesOf(board.cols, order[..k]));
            ObviousSpec(board, bs, order[..k + 1]) == (s.0, prev.1 || c.1 || s.1)
    ensures SidesOf(board.cols, order[..k + 1])
            == SidesOf(board.cols, order[..k])
               + {BorderIdx(board.cols, order[k].0, order[k].1, TOP), BorderIdx(board.cols, order[k].0, order[k].1, RIGHT),
                  BorderIdx(board.cols, order[k].0, order[k].1, BOT), BorderIdx(board.cols, order[k].0, order[k].1, LEFT)}
  {
    assert order[..k + 1][..k] == order[..k];
    assert order[..k + 1][k] == order[k];
  }


  /**
   * A pass only ever sets UNSET borders, although setBorder could overwrite, and it reports
   * a move exactly when the board changed.
   */
  lemma {:induction false} ObviousReports(board: Board, bs: seq<BorderStatus>, order: seq<Cell>)
    requires Fits(board) && |bs| == NumBorders(board.rows, board.cols)
    requires AllValidCells(board, order)
    ensures Reports(bs, ObviousSpec(board, bs, order))
  {
    if order != [] {
      var prefix := order[..|order| - 1];
      var cell := order[|order| - 1];
      var prev := ObviousSpec(board, bs, prefix);
      ObviousReports(board, bs, prefix);
      var c := CellSpec(board, prev.0, cell.0, cell.1);
      CellReports(board, prev.0, cell.0, cell.1);
      var s := SidesSpec(board, c.0, cell, SidesOf(board.cols, prefix));
      SidesReports(board, c.0, cell, SidesOf(board.cols, prefix));
      ReportsCompose(bs, prev, c);
      ReportsCompose(bs, (c.0, prev.1 || c.1), s);
    }
  }

  /** Every entry of an arm list is a border of the board. */
  lemma ArmsValid(rows: int, cols: int, row: int, col: int, d: DiagonalDirection)
    requires cols >= 1
    ensures forall k | 0 <= k < |Arms(rows, cols, row, col, d)| :: IsValidBorderIdx(rows, cols, Arms(rows, cols, row, col, d)[k])
  {
    var (t, rt, b, l) := CellBorders(cols, row, col);
    var conn := if d.IsUpper() then ConnectedBorders(rows, cols, t) else ConnectedBorders(rows, cols, b);
    assert forall x | x in conn.0 || x in conn.1 :: IsValidBorderIdx(rows, cols, x);
  }

  class LegacySolver {
    /** The board being solved; the older solver works on it in place. */
    const board: Board
    /** Every cell of the board. */
    const allCells: set<Cell>
    /** The cells with a clue. */
    const reqCells: set<Cell>
    /** The cells without a clue. */
    const unreqCells: set<Cell>
    /** The (TOP, RIGHT, BOT, LEFT) borders of each cell, by row and column. */
    const cellBorders: seq<seq<(int, int, int, int)>>

    /** What the constructor establishes: the cell sets partition the board and cellBorders lists each cell's sides. */
    ghost predicate Valid()
      reads this, board
    {
      && board.WellFormed()
      && (forall p :: p in allCells <==> IsValidCellIdx(board.rows, board.cols, p.0, p.1))
      && (forall p :: p in reqCells <==> p in allCells && board.cells[p.0][p.1].Some?)
      && (forall p :: p in unreqCells <==> p in allCells && board.cells[p.0][p.1].None?)
      && IsGrid(cellBorders, board.rows, board.cols)
      && (forall i, j | 0 <= i < board.rows && 0 <= j < board.cols :: cellBorders[i][j] == CellBorders(board.cols, i, j))
    }

    /** Solver(board): collects every cell, split by whether it has a clue, and the sides of every cell. */
    constructor (board: Board)
      requires board.WellFormed()
      ensures Valid() && this.board == board
    {
      var all: set<Cell> := {};
      var req: set<Cell> := {};
      var unreq: set<Cell> := {};
      var bdrs: seq<seq<(int, int, int, int)>> := [];
      for i := 0 to |board.cells|
        invariant forall p :: p in all <==> 0 <= p.0 < i && 0 <= p.1 < board.cols
        invariant forall p :: p in req <==> p in all && board.cells[p.0][p.1].Some?
        invariant forall p :: p in unreq <==> p in all && board.cells[p.0][p.1].None?
        invariant IsGrid(bdrs, i, board.cols)
        invariant forall r, c | 0 <= r < i && 0 <= c < board.cols :: bdrs[r][c] == CellBorders(board.cols, r, c)
      {
        var row: seq<(int, int, int, int)> := [];
        for j := 0 to |board.cells[i]|
          invariant forall p :: p in all <==> (0 <= p.0 < i && 0 <= p.1 < board.cols) || (p.0 == i && 0 <= p.1 < j)
          invariant forall p :: p in req <==> p in all && board.cells[p.0][p.1].Some?
          invariant forall p :: p in unreq <==> p in all && board.cells[p.0][p.1].None?
          invariant |row| == j && forall c | 0 <= c < j :: row[c] == CellBorders(board.cols, i, c)
        {
          all := all + {(i, j)};
          if board.cells[i][j].Some? {
            req := req + {(i, j)};
          } else {
            unreq := unreq + {(i, j)};
          }
          row := row + [CellBorders(board.cols, i, j)];
        }
        bdrs := bdrs + [row];
      }
      this.board := board;
      this.allCells := all;
      this.reqCells := req;
      this.unreqCells := unreq;
      this.cellBorders := bdrs;
    }

    /** setBorder: the border takes the new status; true exactly when that changed its status. */
    method SetBorder(idx: int, st: BorderStatus) returns (r: bool)
      requires Valid() && 0 <= idx < board.borders.Length
      modifies board.borders
      ensures r <==> old(board.borders[idx]) != st
      ensures board.borders[..] == old(board.borders[..])[idx := st]
    {
      if board.borders[idx] != st {
        board.borders[idx] := st;
        return true;
      }
      return false;
    }

    /** setBorder on each listed border in turn; true if any of the calls reported a change. */
    method OverwriteEach(idxs: seq<int>, st: BorderStatus) returns (found: bool)
      requires Valid() && forall k | 0 <= k < |idxs| :: 0 <= idxs[k] < board.borders.Length
      modifies board.borders
      ensures (board.borders[..], found) == Overwrite(old(board.borders[..]), idxs, st)
    {
      ghost var bs := board.borders[..];
      found := false;
      for k := 0 to |idxs|
        invariant board.borders[..] == Assign(bs, set j | 0 <= j < k :: idxs[j], st)
        invariant found <==> exists j | 0 <= j < k :: bs[idxs[j]] != st
      {
        ghost var before := set j | 0 <= j < k :: idxs[j];
        var r := SetBorder(idxs[k], st);
        found := found || r;
        assert (set j | 0 <= j < k + 1 :: idxs[j]) == before + {idxs[k]};
        if idxs[k] in before {
          var j :| 0 <= j < k && idxs[j] == idxs[k];
          assert bs[idxs[k]] != st ==> bs[idxs[j]] != st;
        }
      }
    }

    /** Sets the UNSET ones among the listed borders to BLANK; true if there were any. */
    method BlankUnset(idxs: seq<int>) returns (found: bool)
      requires Valid() && forall k | 0 <= k < |idxs| :: 0 <= idxs[k] < board.borders.Length
      modifies board.borders
      ensures board.borders[..] == Fill(old(board.borders[..]), idxs, BLANK)
      ensures found == AnyUnset(old(board.borders[..]), idxs)
    {
      ghost var bs := board.borders[..];
      found := false;
      for k := 0 to |idxs|
        invariant board.borders[..] == Fill(bs, idxs[..k], BLANK)
        invariant found == AnyUnset(bs, idxs[..k])
      {
        FillSnoc(bs, idxs[..k], idxs[k], BLANK);
        assert idxs[..k + 1] == idxs[..k] + [idxs[k]];
        if board.borders[idxs[k]] == UNSET {
          var _ := SetBorder(idxs[k], BLANK);
          found := true;
          assert idxs[..k + 1][k] == idxs[k];
        } else if !found {
          assert bs[idxs[k]] != UNSET;
        }
      }
      assert idxs[..|idxs|] == idxs;
    }

    /** One half of handle2CellDiagonallyOppositeActiveArms, as specified by OppositeArmsSpec. */
    method BlankOppositeArms(arms1: seq<int>, arms2: seq<int>) returns (found: bool)
      requires Valid()
      requires forall k | 0 <= k < |arms1| :: IsValidBorderIdx(board.rows, board.cols, arms1[k])
      requires forall k | 0 <= k < |arms2| :: IsValidBorderIdx(board.rows, board.cols, arms2[k])
      modifies board.borders
      ensures (board.borders[..], found) == OppositeArmsSpec(board.rows, board.cols, old(board.borders[..]), arms1, arms2)
    {
      var active1 := CountActive(board, arms1);
      var active2 := CountActive(board, arms2);
      found := false;
      if active1 == 1 && active2 == 1 {
        found := BlankUnset(arms1 + arms2);
      }
    }

    /** handle2CellDiagonallyOppositeActiveArms, as specified by Handle2Spec. */
    method Handle2CellDiagonallyOppositeActiveArms(row: int, col: int) returns (found: bool)
      requires Valid() && IsValidCellIdx(board.rows, board.cols, row, col)
      modifies board.borders
      ensures (board.borders[..], found) == Handle2Spec(board, old(board.borders[..]), row, col)
    {
      if board.cells[row][col] != Some(2) {
        return false;
      }
      var ul, ur := Arms(board.rows, board.cols, row, col, ULEFT), Arms(board.rows, board.cols, row, col, URIGHT);
      var lr, ll := Arms(board.rows, board.cols, row, col, LRIGHT), Arms(board.rows, board.cols, row, col, LLEFT);
      ArmsValid(board.rows, board.cols, row, col, ULEFT);
      ArmsValid(board.rows, board.cols, row, col, URIGHT);
      ArmsValid(board.rows, board.cols, row, col, LRIGHT);
      ArmsValid(board.rows, board.cols, row, col, LLEFT);
      var f1 := BlankOppositeArms(ul, lr);
      var f2 := BlankOppositeArms(ur, ll);
      found := f1 || f2;
    }

    /** processCell, as specified by CellSpec. */
    method ProcessCell(row: int, col: int) returns (found: bool)
      requires Valid() && IsValidCellIdx(board.rows, board.cols, row, col)
      modifies board.borders
      ensures (board.borders[..], found) == CellSpec(board, old(board.borders[..]), row, col)
    {
      var reqNum := board.cells[row][col];
      if reqNum.None? {
        return false;
      }
      found := FillOrRemove(row, col);
      if reqNum == Some(2) {
        var h := Handle2CellDiagonallyOppositeActiveArms(row, col);
        found := found || h;
      }
      if found {
        return true;
      }
      found := ProcessRuns(row, col);
    }

    /** The fill or remove rule of processCell, as specified by FillOrRemoveSpec. */
    method FillOrRemove(row: int, col: int) returns (found: bool)
      requires Valid() && IsValidCellIdx(board.rows, board.cols, row, col)
      modifies board.borders
      ensures (board.borders[..], found) == FillOrRemoveSpec(board, old(board.borders[..]), row, col)
    {
      found := false;
      var unset := UnsetSides(board.borders[..], board.rows, board.cols, row, col);
      assert forall k | 0 <= k < |unset| :: unset[k] in unset;
      var fill := ShouldFillUpRemainingUnsetBorders(board, row, col);
      if fill {
        found := OverwriteEach(unset, ACTIVE);
      } else {
        var remove := ShouldRemoveRemainingUnsetBorders(board, row, col);
        if remove {
          found := OverwriteEach(unset, BLANK);
        }
      }
    }

    /** The continuous-run rule of processCell, as specified by RunsSpec. */
    method ProcessRuns(row: int, col: int) returns (found: bool)
      requires Valid() && IsValidCellIdx(board.rows, board.cols, row, col)
      modifies board.borders
      ensures (board.borders[..], found) == RunsSpec(board, old(board.borders[..]), row, col)
    {
      var runs := LegacyContinuousUnsetBordersOfCell(board, row, col);
      ContRunsUnset(board.rows, board.cols, board.borders[..], row, col);
      FlattenEntries(runs, board.borders[..]);
      found := false;
      if |runs| > 0 {
        var reqNum := board.cells[row][col];
        if reqNum == Some(1) {
          found := OverwriteEach(Flatten(runs), BLANK);
        } else if reqNum == Some(3) {
          found := OverwriteEach(Flatten(runs), ACTIVE);
        } else if reqNum == Some(2) {
          var (t, rt, b, l) := cellBorders[row][col];
          var countBlank := CountBlank(board, [t, rt, b, l]);
          if countBlank > 0 {
            found := OverwriteEach(runs[0], ACTIVE);
          }
        }
      }
    }

    /** The loop of processBorder over the connected borders: is one of them continuous with b and ACTIVE? */
    method HasActiveContinuation(b: int) returns (r: bool)
      requires Valid() && IsValidBorderIdx(board.rows, board.cols, b)
      ensures r == ContinuesActive(board.rows, board.cols, board.borders[..], b)
    {
      var conn := ConnectedBordersList(board.rows, board.cols, b);
      assert forall k | 0 <= k < |conn| :: conn[k] in conn;
      r := ScanActiveContinuation(b, conn);
    }

    /** The loop itself, over a list of borders. */
    method ScanActiveContinuation(b: int, conn: seq<int>) returns (r: bool)
      requires Valid() && forall k | 0 <= k < |conn| :: IsValidBorderIdx(board.rows, board.cols, conn[k])
      ensures r == ActiveContinuationIn(board.rows, board.cols, board.borders[..], b, conn)
    {
      for k := 0 to |conn|
        invariant ActiveContinuationIn(board.rows, board.cols, board.borders[..], b, conn)
                  == ActiveContinuationIn(board.rows, board.cols, board.borders[..], b, conn[k..])
      {
        assert conn[k..][1..] == conn[k + 1..];
        var c := IsContinuous(board, b, conn[k]);
        if c && board.borders[conn[k]] == ACTIVE {
          return true;
        }
      }
      return false;
    }

    /** The counting rules of processBorder, as specified by CountRuleSpec. */
    method ApplyCountRules(b: int) returns (found: bool)
      requires Valid() && IsValidBorderIdx(board.rows, board.cols, b) && board.borders[b] == UNSET
      modifies board.borders
      ensures (board.borders[..], found) == CountRuleSpec(board.rows, board.cols, old(board.borders[..]), b)
    {
      var (c1, c2) := ConnectedBorders(board.rows, board.cols, b);
      var _, active1, blank1 := LegacyGetStatusCount(board, c1);
      var _, active2, blank2 := LegacyGetStatusCount(board, c2);
      // setBorder on an UNSET border always reports the change
      if active1 > 1 || active2 > 1 {
        found := SetBorder(b, BLANK);
        return;
      }
      if blank1 == |c1| || blank2 == |c2| {
        found := SetBorder(b, BLANK);
        return;
      }
      return false;
    }

    /** processBorder, as specified by BorderSpec. */
    method ProcessBorder(b: int) returns (found: bool)
      requires Valid() && IsValidBorderIdx(board.rows, board.cols, b)
      modifies board.borders
      ensures (board.borders[..], found) == BorderSpec(board, old(board.borders[..]), b)
    {
      if board.borders[b] != UNSET {
        return false;
      }
      var continues := HasActiveContinuation(b);
      if continues {
        found := SetBorder(b, ACTIVE);
        return;
      }
      found := ApplyCountRules(b);
    }

    /** processBorder on a side not yet processed in this pass, as specified by NewBorderSpec. */
    method ProcessNewBorder(b: int, processed: set<int>) returns (found: bool)
      requires Valid() && IsValidBorderIdx(board.rows, board.cols, b)
      modifies board.borders
      ensures (board.borders[..], found) == NewBorderSpec(board, old(board.borders[..]), b, processed)
    {
      if b in processed {
        return false;
      }
      found := ProcessBorder(b);
    }

    /** The border part of one cell of solveObvious, as specified by SidesSpec. */
    method ProcessSides(cell: Cell, processed: set<int>) returns (found: bool)
      requires Valid() && IsValidCellIdx(board.rows, board.cols, cell.0, cell.1)
      modifies board.borders
      ensures (board.borders[..], found) == SidesSpec(board, old(board.borders[..]), cell, processed)
    {
      CellBordersValid(board.rows, board.cols, cell.0, cell.1);
      var (t, rt, b, l) := CellBorders(board.cols, cell.0, cell.1);
      var f1 := ProcessNewBorder(t, processed);
      var f2 := ProcessNewBorder(rt, processed + {t});
      var f3 := ProcessNewBorder(b, processed + {t, rt});
      var f4 := ProcessNewBorder(l, processed + {t, rt, b});
      found := f1 || f2 || f3 || f4;
    }

    /**
     * solveObvious: one pass over the cells in the order `order` (the iteration order of the
     * set allCells); true if any rule made a move.
     */
    method SolveObvious(order: seq<Cell>) returns (found: bool)
      requires Valid()
      requires forall p :: p in order <==> p in allCells
      requires forall i, j | 0 <= i < j < |order| :: order[i] != order[j]
      modifies board.borders
      ensures AllValidCells(board, order)
      ensures (board.borders[..], found) == ObviousSpec(board, old(board.borders[..]), order)
    {
      assert AllValidCells(board, order) by {
        forall k | 0 <= k < |order| ensures IsValidCellIdx(board.rows, board.cols, order[k].0, order[k].1) {
          assert order[k] in allCells;
        }
      }
      ghost var bs := board.borders[..];
      found := false;
      var processed: set<int> := {};
      for k := 0 to |order|
        invariant AllValidCells(board, order[..k])
        invariant (board.borders[..], found) == ObviousSpec(board, bs, order[..k])
        invariant processed == SidesOf(board.cols, order[..k])
      {
        var cell := order[k];
        ObviousStep(board, bs, order, k);
        var c := ProcessCell(cell.0, cell.1);
        var s := ProcessSides(cell, processed);
        found := found || c || s;
        var (row, col) := cell;
        processed := processed + {BorderIdx(board.cols, row, col, TOP), BorderIdx(board.cols, row, col, RIGHT),
                                  BorderIdx(board.cols, row, col, BOT), BorderIdx(board.cols, row, col, LEFT)};
      }
      assert order[..|order|] == order;
    }
  }
}
