/**
 * The cell and border rules of the solver: finishing off a cell whose remaining borders are
 * decided by its clue, the other rules of processCell, processBorder, and solveClues, the
 * pass of both over the prioritized cells.
 *
 * As elsewhere in the model, each rule is a function from the border list to a Step (the
 * borders afterwards and what the rule returned or raised), and the method that writes the
 * board's array is proved to produce that Step.
 */
module Rules {
  import opened Outcomes
  import opened Enums
  import opened BoardTools
  import opened BoardModel
  import opened CellInfoModel
  import opened SolverTools
  import opened SetBorder
  import opened Poke
  import opened ContUnset
  import CellGroup

  // ---------------------------------------------------------------------------------------
  // Helpers whose bodies are not part of this model
  // ---------------------------------------------------------------------------------------

  /**
   * checkOuterCellPoking: any rule on the borders and a cell's snapshot that only fills UNSET
   * borders, reports a move exactly when it made one and raises only InvalidBoard.
   */
  type CellRule = f: (seq<BorderStatus>, Snapshot) -> Step
    | forall bs, snap :: Sound(bs, f(bs, snap))
    witness (bs: seq<BorderStatus>, snap: Snapshot) => (bs, Ok(false))

  /** isCellPokingAtDir: whether the cell of the snapshot pokes out of the given corner. */
  type PokingRule = (seq<BorderStatus>, Snapshot, DiagonalDirection) -> bool

  // ---------------------------------------------------------------------------------------
  // The cell snapshot the rules read
  // ---------------------------------------------------------------------------------------

  /** What processCell reads from a CellInfo: the cell, its clue, its sides and their statuses. */
  datatype Snapshot = Snapshot(row: int, col: int, reqNum: Option<int>, idxs: seq<int>, stats: seq<BorderStatus>)
  {
    function Unset(): nat { CountOf(stats, UNSET) }
    function Active(): nat { CountOf(stats, ACTIVE) }
    function Blank(): nat { CountOf(stats, BLANK) }
  }

  /** The snapshot held by a CellInfo. */
  function SnapshotOf(info: CellInfo): Snapshot
    reads info
  {
    Snapshot(info.row, info.col, info.reqNum, info.bdrIndices, info.bdrStats)
  }

  /** A snapshot of a valid cell of the board: its four sides, in TOP, RIGHT, BOT, LEFT order. */
  ghost predicate OfCell(board: Board, bs: seq<BorderStatus>, snap: Snapshot)
  {
    && OnBoard(board, bs) && IsValidCellIdx(board.rows, board.cols, snap.row, snap.col)
    && snap.idxs == CellBorderSeq(board.cols, snap.row, snap.col) && |snap.stats| == 4
    && forall k | 0 <= k < 4 :: 0 <= snap.idxs[k] < |bs|
  }

  /** CellInfo.init on the border list bs: the cell's clue and the current statuses of its sides. */
  function Taken(board: Board, bs: seq<BorderStatus>, row: int, col: int): (snap: Snapshot)
    requires OnBoard(board, bs) && IsValidCellIdx(board.rows, board.cols, row, col)
    ensures OfCell(board, bs, snap)
  {
    CellBorderSeqValid(board.rows, board.cols, row, col);
    var idxs := CellBorderSeq(board.cols, row, col);
    Snapshot(row, col, board.cells[row][col], idxs, Statuses(bs, idxs))
  }

  /** The listed borders whose status in the snapshot is st, in order. */
  function SidesWith(idxs: seq<int>, stats: seq<BorderStatus>, st: BorderStatus): (r: seq<int>)
    requires |idxs| == |stats|
    ensures |r| == CountOf(stats, st)
    ensures forall x | x in r :: x in idxs
    ensures forall k | 0 <= k < |idxs| && stats[k] == st :: idxs[k] in r
  {
    if idxs == [] then []
    else
      var n := |idxs| - 1;
      SidesWith(idxs[..n], stats[..n], st) + (if stats[n] == st then [idxs[n]] else [])
  }

  /** The sides, and the sides with status st, are valid borders of bs. */
  lemma SidesInRange(board: Board, bs: seq<BorderStatus>, snap: Snapshot, st: BorderStatus)
    requires OfCell(board, bs, snap)
    ensures forall k | 0 <= k < 4 :: 0 <= snap.idxs[k] < |bs|
    ensures forall k | 0 <= k < |SidesWith(snap.idxs, snap.stats, st)| :: 0 <= SidesWith(snap.idxs, snap.stats, st)[k] < |bs|
  {
    CellBorderSeqValid(board.rows, board.cols, snap.row, snap.col);
    var r := SidesWith(snap.idxs, snap.stats, st);
    forall k | 0 <= k < |r|
      ensures 0 <= r[k] < |bs|
    {
      assert r[k] in r;
    }
  }

  // ---------------------------------------------------------------------------------------
  // fillOrRemoveRemainingUnsetBorders
  // ---------------------------------------------------------------------------------------

  /**
   * fillOrRemoveRemainingUnsetBorders: with a clue and some UNSET side in the snapshot, all
   * those sides become ACTIVE when they are exactly what the clue still needs, or BLANK when
   * the ACTIVE sides already meet the clue; a move is reported as soon as a side is written.
   */
  function FillOrRemoveSpec(board: Board, bs: seq<BorderStatus>, snap: Snapshot): (s: Step)
    requires OfCell(board, bs, snap)
    ensures |s.0| == |bs|
  {
    SidesInRange(board, bs, snap, UNSET);
    if snap.reqNum.Some? && snap.Unset() > 0 then
      var n := snap.reqNum.value;
      if snap.Unset() + snap.Active() == n || snap.Active() == n then
        var a := SetListSpec(bs, SidesWith(snap.idxs, snap.stats, UNSET),
                             if snap.Unset() + snap.Active() == n then ACTIVE else BLANK);
        if a.1.Err? then a else (a.0, Ok(true))
      else NoMove(bs)
    else NoMove(bs)
  }

  // ---------------------------------------------------------------------------------------
  // processCell, rule by rule
  // ---------------------------------------------------------------------------------------

  /** Three ACTIVE sides and one UNSET side: the UNSET side becomes BLANK and the call returns a move. */
  function LastSideSpec(board: Board, bs: seq<BorderStatus>, snap: Snapshot): (s: Step)
    requires OfCell(board, bs, snap) && snap.Unset() == 1
    ensures |s.0| == |bs|
  {
    SidesInRange(board, bs, snap, UNSET);
    var a := SetSpec(bs, SidesWith(snap.idxs, snap.stats, UNSET)[0], BLANK);
    if a.1.Err? then a else (a.0, Ok(true))
  }

  /** A 3-cell pokes the corner dxn when one of the corner's arms is ACTIVE. */
  function ArmPokeSpec(board: Board, bs: seq<BorderStatus>, row: int, col: int, dxn: DiagonalDirection): (s: Step)
    requires OnBoard(board, bs) && IsValidCellIdx(board.rows, board.cols, row, col)
    ensures |s.0| == |bs|
  {
    ArmsInRange(board.rows, board.cols, row, col, dxn);
    if ACTIVE in Statuses(bs, Arms(board.rows, board.cols, row, col, dxn))
    then HandlePokeSpec(board, bs, row, col, dxn) else NoMove(bs)
  }

  /** ArmPokeSpec on the corners from index i of AllDiagonal on; the first exception ends the run. */
  function ArmPokesSpec(board: Board, bs: seq<BorderStatus>, row: int, col: int, i: int): (s: Step)
    requires OnBoard(board, bs) && IsValidCellIdx(board.rows, board.cols, row, col) && 0 <= i <= 4
    ensures |s.0| == |bs|
    decreases 4 - i
  {
    if i == 4 then NoMove(bs)
    else
      var a := ArmPokeSpec(board, bs, row, col, AllDiagonal[i]);
      if a.1.Err? then a else Join(a, ArmPokesSpec(board, a.0, row, col, i + 1))
  }

  /**
   * The clue checks of processCell: more ACTIVE sides than the clue, or too few ACTIVE and
   * UNSET sides to reach it, raise InvalidBoard; otherwise fill or remove the remaining
   * sides, and a 3-cell then pokes its corners with an ACTIVE arm.
   */
  function RequirementSpec(board: Board, bs: seq<BorderStatus>, snap: Snapshot): (s: Step)
    requires OfCell(board, bs, snap)
    ensures |s.0| == |bs|
  {
    if snap.reqNum.None? then NoMove(bs)
    else
      var n := snap.reqNum.value;
      if snap.Active() > n || snap.Unset() + snap.Active() < n then (bs, Err(InvalidBoard))
      else
        var a := FillOrRemoveSpec(board, bs, snap);
        if a.1.Err? || n != 3 then a
        else Join(a, ArmPokesSpec(board, a.0, snap.row, snap.col, 0))
  }

  /** A cell of the outermost rows or columns. */
  predicate IsEdgeCell(board: Board, row: int, col: int)
  {
    row == 0 || row == board.rows - 1 || col == 0 || col == board.cols - 1
  }

  /**
   * Poke by propagation into a 3-cell at corner dxn: when both borders of the opposite
   * corner are UNSET and the diagonal neighbour towards dxn is poked
   * (isCellIndirectPokedByPropagation), both become ACTIVE.
   */
  function ThreeCornerSpec(board: Board, bs: seq<BorderStatus>, row: int, col: int, dxn: DiagonalDirection): (s: Step)
    requires OnBoard(board, bs) && IsValidCellIdx(board.rows, board.cols, row, col)
    ensures |s.0| == |bs|
  {
    CornersValid(board.rows, board.cols, row, col);
    var (b1, b2) := CornerBorderIndices(board.cols, row, col, dxn.Opposite());
    if bs[b1] == UNSET && bs[b2] == UNSET then
      var p := IndirectPoked(board, bs, CellIdxAtAdjCorner(board.rows, board.cols, row, col, dxn), dxn);
      if p.Err? then (bs, Err(p.error))
      else if p.value then (bs[b1 := ACTIVE][b2 := ACTIVE], Ok(true))
      else NoMove(bs)
    else NoMove(bs)
  }

  /** ThreeCornerSpec on the corners from index i of AllDiagonal on. */
  function ThreePokedSpec(board: Board, bs: seq<BorderStatus>, row: int, col: int, i: int): (s: Step)
    requires OnBoard(board, bs) && IsValidCellIdx(board.rows, board.cols, row, col) && 0 <= i <= 4
    ensures |s.0| == |bs|
    decreases 4 - i
  {
    if i == 4 then NoMove(bs)
    else
      var a := ThreeCornerSpec(board, bs, row, col, AllDiagonal[i]);
      if a.1.Err? then a else Join(a, ThreePokedSpec(board, a.0, row, col, i + 1))
  }

  /**
   * Poke by propagation into a 2-cell with one BLANK side at corner dxn: when the opposite
   * corner has one UNSET and one BLANK border and the diagonal neighbour towards dxn is
   * poked, the cell handles a poke at dxn.
   */
  function TwoCornerSpec(board: Board, bs: seq<BorderStatus>, row: int, col: int, dxn: DiagonalDirection): (s: Step)
    requires OnBoard(board, bs) && IsValidCellIdx(board.rows, board.cols, row, col)
    ensures |s.0| == |bs|
  {
    CornersValid(board.rows, board.cols, row, col);
    var (b1, b2) := CornerBorderIndices(board.cols, row, col, dxn.Opposite());
    if (bs[b1] == UNSET && bs[b2] == BLANK) || (bs[b1] == BLANK && bs[b2] == UNSET) then
      var p := IndirectPoked(board, bs, CellIdxAtAdjCorner(board.rows, board.cols, row, col, dxn), dxn);
      if p.Err? then (bs, Err(p.error))
      else if p.value then HandlePokeSpec(board, bs, row, col, dxn)
      else NoMove(bs)
    else NoMove(bs)
  }

  /** TwoCornerSpec on the corners from index i of AllDiagonal on. */
  function TwoPokedSpec(board: Board, bs: seq<BorderStatus>, row: int, col: int, i: int): (s: Step)
    requires OnBoard(board, bs) && IsValidCellIdx(board.rows, board.cols, row, col) && 0 <= i <= 4
    ensures |s.0| == |bs|
    decreases 4 - i
  {
    if i == 4 then NoMove(bs)
    else
      var a := TwoCornerSpec(board, bs, row, col, AllDiagonal[i]);
      if a.1.Err? then a else Join(a, TwoPokedSpec(board, a.0, row, col, i + 1))
  }

  /** A corner the board has not recorded as poked, from which the cell pokes, starts a poke. */
  function StartCornerSpec(board: Board, bs: seq<BorderStatus>, snap: Snapshot,
                           pokes: set<(int, int, DiagonalDirection)>, pokingAt: PokingRule,
                           dxn: DiagonalDirection): (s: Step)
    requires OnBoard(board, bs) && IsValidCellIdx(board.rows, board.cols, snap.row, snap.col)
    ensures |s.0| == |bs|
  {
    if (snap.row, snap.col, dxn) !in pokes && pokingAt(bs, snap, dxn)
    then InitiatePokeSpec(board, bs, snap.row, snap.col, dxn) else NoMove(bs)
  }

  /** StartCornerSpec on the corners from index i of AllDiagonal on. */
  function StartPokesSpec(board: Board, bs: seq<BorderStatus>, snap: Snapshot,
                          pokes: set<(int, int, DiagonalDirection)>, pokingAt: PokingRule, i: int): (s: Step)
    requires OnBoard(board, bs) && IsValidCellIdx(board.rows, board.cols, snap.row, snap.col) && 0 <= i <= 4
    ensures |s.0| == |bs|
    decreases 4 - i
  {
    if i == 4 then NoMove(bs)
    else
      var a := StartCornerSpec(board, bs, snap, pokes, pokingAt, AllDiagonal[i]);
      if a.1.Err? then a else Join(a, StartPokesSpec(board, a.0, snap, pokes, pokingAt, i + 1))
  }

  /**
   * The rules of processCell after the clue checks: the outer-cell pokes of an edge cell,
   * poke propagation into a 3-cell, then the poke rules, the first exception ending the call.
   */
  function LaterRulesSpec(board: Board, bs: seq<BorderStatus>, snap: Snapshot,
                          pokes: set<(int, int, DiagonalDirection)>, outerPoking: CellRule,
                          pokingAt: PokingRule, smooth: SmoothRule): (s: Step)
    requires OnBoard(board, bs) && IsValidCellIdx(board.rows, board.cols, snap.row, snap.col)
    ensures |s.0| == |bs|
  {
    var b := if IsEdgeCell(board, snap.row, snap.col) then outerPoking(bs, snap) else NoMove(bs);
    if b.1.Err? then b
    else
      var c := Join(b, if snap.reqNum == Some(3) && snap.Unset() > 0
                       then ThreePokedSpec(board, b.0, snap.row, snap.col, 0) else NoMove(b.0));
      if c.1.Err? then c else Join(c, PokeRulesSpec(board, c.0, snap, pokes, pokingAt, smooth))
  }

  /**
   * The last rules of processCell: poke propagation into a 2-cell with one BLANK side, the
   * pokes the cell starts, and the continuous-UNSET corner rule.
   */
  function PokeRulesSpec(board: Board, bs: seq<BorderStatus>, snap: Snapshot,
                         pokes: set<(int, int, DiagonalDirection)>, pokingAt: PokingRule, smooth: SmoothRule): (s: Step)
    requires OnBoard(board, bs) && IsValidCellIdx(board.rows, board.cols, snap.row, snap.col)
    ensures |s.0| == |bs|
  {
    var d := if snap.reqNum == Some(2) && snap.Blank() == 1 && snap.Unset() > 0
             then TwoPokedSpec(board, bs, snap.row, snap.col, 0) else NoMove(bs);
    if d.1.Err? then d
    else
      var e := Join(d, StartPokesSpec(board, d.0, snap, pokes, pokingAt, 0));
      if e.1.Err? then e
      else Join(e, ContUnsetSpec(board, e.0, snap.row, snap.col, snap.reqNum, snap.Unset(), snap.Active(),
                                 snap.Blank(), smooth))
  }

  /**
   * processCell: four ACTIVE sides raise InvalidBoard; on a board that is not a clone, three
   * ACTIVE sides and one UNSET side blank that side and end the call; otherwise the clue
   * checks and moves, then the later rules. The counts and the clue come from the snapshot;
   * the border statuses the rules test are the current ones.
   */
  function ProcessCellSpec(board: Board, bs: seq<BorderStatus>, snap: Snapshot, isClone: bool,
                           pokes: set<(int, int, DiagonalDirection)>, outerPoking: CellRule, pokingAt: PokingRule, smooth: SmoothRule): (s: Step)
    requires OfCell(board, bs, snap)
    ensures |s.0| == |bs|
  {
    if snap.Active() == 4 then (bs, Err(InvalidBoard))
    else if !isClone && snap.Active() == 3 && snap.Unset() == 1 then LastSideSpec(board, bs, snap)
    else
      var a := RequirementSpec(board, bs, snap);
      if a.1.Err? then a else Join(a, LaterRulesSpec(board, a.0, snap, pokes, outerPoking, pokingAt, smooth))
  }

  // ---------------------------------------------------------------------------------------
  // processBorder
  // ---------------------------------------------------------------------------------------

  /** Some border of conn is ACTIVE and continuous with b. */
  ghost predicate ContinuesActive(rows: int, cols: int, bs: seq<BorderStatus>, b: int, conn: seq<int>)
    requires cols >= 1 && |bs| == NumBorders(rows, cols)
  {
    && conn != []
    && ((Continuous(rows, cols, bs, b, conn[0]) && bs[conn[0]] == ACTIVE)
        || ContinuesActive(rows, cols, bs, b, conn[1..]))
  }

  /** The borders of both endpoint lists are borders of bs. */
  ghost predicate EndsOn(bs: seq<BorderStatus>, conn: (seq<int>, seq<int>))
  {
    && (forall k | 0 <= k < |conn.0| :: 0 <= conn.0[k] < |bs|)
    && (forall k | 0 <= k < |conn.1| :: 0 <= conn.1[k] < |bs|)
  }

  /**
   * An endpoint of b forbids a line through it: one endpoint list already has two ACTIVE
   * borders, or has only BLANK borders.
   */
  ghost predicate EndForbids(rows: int, cols: int, bs: seq<BorderStatus>, b: int)
    requires cols >= 1 && |bs| == NumBorders(rows, cols)
  {
    ConnectedOn(rows, cols, bs, b);
    var conn := ConnectedBorders(rows, cols, b);
    var (c1, c2) := (StatusCount(bs, conn.0), StatusCount(bs, conn.1));
    c1.1 > 1 || c2.1 > 1 || c1.2 == |conn.0| || c2.2 == |conn.1|
  }

  /** The endpoint lists of a border are borders of the board. */
  lemma ConnectedOn(rows: int, cols: int, bs: seq<BorderStatus>, b: int)
    requires cols >= 1 && |bs| == NumBorders(rows, cols)
    ensures EndsOn(bs, ConnectedBorders(rows, cols, b))
  {
    var conn := ConnectedBorders(rows, cols, b);
    assert forall k | 0 <= k < |conn.0| :: conn.0[k] in conn.0;
    assert forall k | 0 <= k < |conn.1| :: conn.1[k] in conn.1;
  }

  /**
   * processBorder on an UNSET border b: it becomes ACTIVE when it continues an ACTIVE border;
   * otherwise it becomes BLANK when an endpoint already has two ACTIVE borders or has only
   * BLANK borders besides b. Either way the call reports a move. A border that is not UNSET
   * is left alone.
   */
  ghost function ProcessBorderSpec(rows: int, cols: int, bs: seq<BorderStatus>, b: int): (s: Step)
    requires cols >= 1 && |bs| == NumBorders(rows, cols) && 0 <= b < |bs|
    ensures |s.0| == |bs|
  {
    if bs[b] != UNSET then NoMove(bs)
    else if ContinuesActive(rows, cols, bs, b, ConnectedBordersList(rows, cols, b)) then (bs[b := ACTIVE], Ok(true))
    else if EndForbids(rows, cols, bs, b) then (bs[b := BLANK], Ok(true))
    else NoMove(bs)
  }

  // ---------------------------------------------------------------------------------------
  // solveClues
  // ---------------------------------------------------------------------------------------

  /** processBorder on the sides idxs[i..] not yet in processed, each added to processed in turn. */
  ghost function SidesSpec(board: Board, bs: seq<BorderStatus>, idxs: seq<int>, processed: set<int>, i: int): (s: Step)
    requires OnBoard(board, bs) && 0 <= i <= |idxs| && forall k | 0 <= k < |idxs| :: 0 <= idxs[k] < |bs|
    ensures |s.0| == |bs|
    decreases |idxs| - i
  {
    if i == |idxs| then NoMove(bs)
    else if idxs[i] in processed then SidesSpec(board, bs, idxs, processed, i + 1)
    else
      var a := ProcessBorderSpec(board.rows, board.cols, bs, idxs[i]);
      Join(a, SidesSpec(board, a.0, idxs, processed + {idxs[i]}, i + 1))
  }

  /**
   * One cell of solveClues: a fresh snapshot, processCell on it, and, when the snapshot had
   * more than one UNSET side, processBorder on each side not processed before. Returns the
   * step and the processed set afterwards.
   */
  ghost function VisitSpec(board: Board, bs: seq<BorderStatus>, cell: Cell, processed: set<int>, isClone: bool,
                           pokes: set<(int, int, DiagonalDirection)>, outerPoking: CellRule, pokingAt: PokingRule, smooth: SmoothRule): (r: (Step, set<int>))
    requires OnBoard(board, bs) && IsValidCellIdx(board.rows, board.cols, cell.0, cell.1)
    ensures |r.0.0| == |bs|
  {
    var snap := Taken(board, bs, cell.0, cell.1);
    SidesInRange(board, bs, snap, UNSET);
    var a := ProcessCellSpec(board, bs, snap, isClone, pokes, outerPoking, pokingAt, smooth);
    if a.1.Err? || snap.Unset() <= 1 then (a, processed)
    else (Join(a, SidesSpec(board, a.0, snap.idxs, processed, 0)), processed + set k | 0 <= k < 4 :: snap.idxs[k])
  }

  /** solveClues over cells, with the borders in processed already visited. */
  ghost function SolveCluesSpec(board: Board, bs: seq<BorderStatus>, cells: seq<Cell>, processed: set<int>,
                                isClone: bool, pokes: set<(int, int, DiagonalDirection)>, outerPoking: CellRule, pokingAt: PokingRule, smooth: SmoothRule): (s: Step)
    requires OnBoard(board, bs) && forall k | 0 <= k < |cells| :: IsValidCellIdx(board.rows, board.cols, cells[k].0, cells[k].1)
    ensures |s.0| == |bs|
    decreases |cells|
  {
    if cells == [] then NoMove(bs)
    else
      var (a, done) := VisitSpec(board, bs, cells[0], processed, isClone, pokes, outerPoking, pokingAt, smooth);
      if a.1.Err? then a else Join(a, SolveCluesSpec(board, a.0, cells[1..], done, isClone, pokes, outerPoking, pokingAt, smooth))
  }

  // ---------------------------------------------------------------------------------------
  // The methods
  // ---------------------------------------------------------------------------------------

  /** The CellInfo describes a valid cell of the board: its cached indices and counted statuses. */
  ghost predicate Describes(board: Board, info: CellInfo)
    reads board, info
  {
    && board.WellFormed() && IsValidCellIdx(board.rows, board.cols, info.row, info.col)
    && info.Counted() && info.bdrIndices == CellBorderSeq(board.cols, info.row, info.col)
    && info.cornerBdrs == CornerPairs(board.cols, info.row, info.col)
    && forall k | 0 <= k < 4 :: 0 <= info.bdrIndices[k] < board.borders.Length
  }

  /** fillOrRemoveRemainingUnsetBorders on the board, from the cell's snapshot. */
  method FillOrRemoveRemainingUnsetBorders(board: Board, info: CellInfo) returns (r: Result<bool>)
    requires Describes(board, info)
    modifies board.borders
    ensures (board.borders[..], r) == FillOrRemoveSpec(board, old(board.borders[..]), SnapshotOf(info))
  {
    SidesInRange(board, board.borders[..], SnapshotOf(info), UNSET);
    if info.reqNum.Some? && info.bdrUnsetCount > 0 {
      var n := info.reqNum.value;
      if info.bdrUnsetCount + info.bdrActiveCount == n || info.bdrActiveCount == n {
        var st := if info.bdrUnsetCount + info.bdrActiveCount == n then ACTIVE else BLANK;
        r := SetEach(board, SidesWith(info.bdrIndices, info.bdrStats, UNSET), st);
        if r.Ok? {
          r := Ok(true);
        }
        return;
      }
    }
    return Ok(false);
  }

  /** The last UNSET side of a cell with three ACTIVE sides becomes BLANK. */
  method BlankLastSide(board: Board, info: CellInfo) returns (r: Result<bool>)
    requires Describes(board, info) && info.bdrUnsetCount == 1
    modifies board.borders
    ensures (board.borders[..], r) == LastSideSpec(board, old(board.borders[..]), SnapshotOf(info))
  {
    SidesInRange(board, board.borders[..], SnapshotOf(info), UNSET);
    r := SetBorder.SetBorder(board, SidesWith(info.bdrIndices, info.bdrStats, UNSET)[0], BLANK);
    if r.Ok? {
      r := Ok(true);
    }
  }

  /** A 3-cell pokes the corner dxn when one of its arms is ACTIVE. */
  method ArmPoke(board: Board, row: int, col: int, dxn: DiagonalDirection) returns (r: Result<bool>)
    requires board.WellFormed() && IsValidCellIdx(board.rows, board.cols, row, col)
    modifies board.borders
    ensures (board.borders[..], r) == ArmPokeSpec(board, old(board.borders[..]), row, col, dxn)
  {
    var arms := board.ArmsStatus(row, col, dxn);
    assert arms == Statuses(board.borders[..], Arms(board.rows, board.cols, row, col, dxn));
    if ACTIVE in arms {
      r := HandleCellPoke(board, row, col, dxn);
    } else {
      r := Ok(false);
    }
  }

  /** A 3-cell pokes each corner that has an ACTIVE arm. */
  method PokeActiveArms(board: Board, row: int, col: int) returns (r: Result<bool>)
    requires board.WellFormed() && IsValidCellIdx(board.rows, board.cols, row, col)
    modifies board.borders
    ensures (board.borders[..], r) == ArmPokesSpec(board, old(board.borders[..]), row, col, 0)
  {
    ghost var start := board.borders[..];
    var found := false;
    for i := 0 to 4
      invariant ArmPokesSpec(board, start, row, col, 0)
                == Join((board.borders[..], Ok(found)), ArmPokesSpec(board, board.borders[..], row, col, i))
    {
      r := ArmPoke(board, row, col, AllDiagonal[i]);
      if r.Err? {
        return;
      }
      found := found || r.value;
    }
    return Ok(found);
  }

  /** The clue checks of processCell and the moves that follow them. */
  method CheckRequirement(board: Board, info: CellInfo) returns (r: Result<bool>)
    requires Describes(board, info)
    modifies board.borders
    ensures (board.borders[..], r) == RequirementSpec(board, old(board.borders[..]), SnapshotOf(info))
  {
    if info.reqNum.None? {
      return Ok(false);
    }
    var n := info.reqNum.value;
    if info.bdrActiveCount > n {
      return Err(InvalidBoard);
    }
    if info.bdrUnsetCount + info.bdrActiveCount < n {
      return Err(InvalidBoard);
    }
    r := FillOrRemoveRemainingUnsetBorders(board, info);
    if r.Err? || n != 3 {
      return;
    }
    var found := r.value;
    r := PokeActiveArms(board, info.row, info.col);
    if r.Ok? {
      r := Ok(found || r.value);
    }
  }

  /** Poke by propagation into a 3-cell at one corner. */
  method ThreeCorner(board: Board, info: CellInfo, dxn: DiagonalDirection) returns (r: Result<bool>)
    requires Describes(board, info)
    modifies board.borders
    ensures (board.borders[..], r) == ThreeCornerSpec(board, old(board.borders[..]), info.row, info.col, dxn)
  {
    CornersValid(board.rows, board.cols, info.row, info.col);
    var (b1, b2) := info.cornerBdrs[DiagonalValue(dxn.Opposite())];
    if board.borders[b1] == UNSET && board.borders[b2] == UNSET {
      var cell := CellIdxAtAdjCorner(board.rows, board.cols, info.row, info.col, dxn);
      var p := IndirectPoked(board, board.borders[..], cell, dxn);
      if p.Err? {
        return Err(p.error);
      }
      if p.value {
        // Both borders were just read as UNSET, so neither setBorder call can raise.
        var _ := SetBorder.SetBorder(board, b1, ACTIVE);
        var _ := SetBorder.SetBorder(board, b2, ACTIVE);
        return Ok(true);
      }
    }
    return Ok(false);
  }

  /** Poke by propagation into a 3-cell, corner by corner. */
  method PokeThreeByPropagation(board: Board, info: CellInfo) returns (r: Result<bool>)
    requires Describes(board, info)
    modifies board.borders
    ensures (board.borders[..], r) == ThreePokedSpec(board, old(board.borders[..]), info.row, info.col, 0)
  {
    ghost var start := board.borders[..];
    var found := false;
    for i := 0 to 4
      invariant ThreePokedSpec(board, start, info.row, info.col, 0)
                == Join((board.borders[..], Ok(found)), ThreePokedSpec(board, board.borders[..], info.row, info.col, i))
    {
      r := ThreeCorner(board, info, AllDiagonal[i]);
      if r.Err? {
        return;
      }
      found := found || r.value;
    }
    return Ok(found);
  }

  /** Poke by propagation into a 2-cell with one BLANK side, at one corner. */
  method TwoCorner(board: Board, info: CellInfo, dxn: DiagonalDirection) returns (r: Result<bool>)
    requires Describes(board, info)
    modifies board.borders
    ensures (board.borders[..], r) == TwoCornerSpec(board, old(board.borders[..]), info.row, info.col, dxn)
  {
    CornersValid(board.rows, board.cols, info.row, info.col);
    var (b1, b2) := info.cornerBdrs[DiagonalValue(dxn.Opposite())];
    var (s1, s2) := (board.borders[b1], board.borders[b2]);
    if (s1 == UNSET && s2 == BLANK) || (s1 == BLANK && s2 == UNSET) {
      var cell := CellIdxAtAdjCorner(board.rows, board.cols, info.row, info.col, dxn);
      var p := IndirectPoked(board, board.borders[..], cell, dxn);
      if p.Err? {
        return Err(p.error);
      }
      if p.value {
        r := HandleCellPoke(board, info.row, info.col, dxn);
        return;
      }
    }
    return Ok(false);
  }

  /** Poke by propagation into a 2-cell with one BLANK side, corner by corner. */
  method PokeTwoByPropagation(board: Board, info: CellInfo) returns (r: Result<bool>)
    requires Describes(board, info)
    modifies board.borders
    ensures (board.borders[..], r) == TwoPokedSpec(board, old(board.borders[..]), info.row, info.col, 0)
  {
    ghost var start := board.borders[..];
    var found := false;
    for i := 0 to 4
      invariant TwoPokedSpec(board, start, info.row, info.col, 0)
                == Join((board.borders[..], Ok(found)), TwoPokedSpec(board, board.borders[..], info.row, info.col, i))
    {
      r := TwoCorner(board, info, AllDiagonal[i]);
      if r.Err? {
        return;
      }
      found := found || r.value;
    }
    return Ok(found);
  }

  /** The pokes the cell starts from the corners not yet recorded as poked. */
  method StartPokes(board: Board, info: CellInfo, pokingAt: PokingRule) returns (r: Result<bool>)
    requires Describes(board, info)
    modifies board.borders
    ensures (board.borders[..], r) == StartPokesSpec(board, old(board.borders[..]), SnapshotOf(info), board.pokes, pokingAt, 0)
  {
    ghost var start := board.borders[..];
    var snap := SnapshotOf(info);
    var found := false;
    for i := 0 to 4
      invariant StartPokesSpec(board, start, snap, board.pokes, pokingAt, 0)
                == Join((board.borders[..], Ok(found)), StartPokesSpec(board, board.borders[..], snap, board.pokes, pokingAt, i))
    {
      var dxn := AllDiagonal[i];
      if (info.row, info.col, dxn) !in board.pokes && pokingAt(board.borders[..], snap, dxn) {
        r := InitiatePoke(board, info.row, info.col, dxn);
        if r.Err? {
          return;
        }
        found := found || r.value;
      }
    }
    return Ok(found);
  }

  /** A call of checkOuterCellPoking on the board. */
  method ApplyCellRule(board: Board, f: CellRule, snap: Snapshot) returns (r: Result<bool>)
    modifies board.borders
    ensures (board.borders[..], r) == f(old(board.borders[..]), snap)
  {
    var s := f(board.borders[..], snap);
    assert Sound(board.borders[..], s);
    forall i | 0 <= i < board.borders.Length {
      board.borders[i] := s.0[i];
    }
    assert board.borders[..] == s.0;
    r := s.1;
  }

  /** The rules of processCell after the clue checks, in order. */
  method ApplyLaterRules(board: Board, info: CellInfo, outerPoking: CellRule, pokingAt: PokingRule,
                         smooth: SmoothRule) returns (r: Result<bool>)
    requires Describes(board, info)
    modifies board.borders
    ensures (board.borders[..], r)
            == LaterRulesSpec(board, old(board.borders[..]), SnapshotOf(info), board.pokes, outerPoking, pokingAt, smooth)
  {
    var found := false;
    if IsEdgeCell(board, info.row, info.col) {
      r := ApplyCellRule(board, outerPoking, SnapshotOf(info));
      if r.Err? {
        return;
      }
      found := r.value;
    }
    if info.reqNum == Some(3) && info.bdrUnsetCount > 0 {
      r := PokeThreeByPropagation(board, info);
      if r.Err? {
        return;
      }
      found := found || r.value;
    }
    r := ApplyPokeRules(board, info, pokingAt, smooth);
    if r.Ok? {
      r := Ok(found || r.value);
    }
  }

  /** The last rules of processCell, in order. */
  method ApplyPokeRules(board: Board, info: CellInfo, pokingAt: PokingRule, smooth: SmoothRule) returns (r: Result<bool>)
    requires Describes(board, info)
    modifies board.borders
    ensures (board.borders[..], r) == PokeRulesSpec(board, old(board.borders[..]), SnapshotOf(info), board.pokes, pokingAt, smooth)
  {
    var found := false;
    if info.reqNum == Some(2) && info.bdrBlankCount == 1 && info.bdrUnsetCount > 0 {
      r := PokeTwoByPropagation(board, info);
      if r.Err? {
        return;
      }
      found := r.value;
    }
    r := StartPokes(board, info, pokingAt);
    if r.Err? {
      return;
    }
    found := found || r.value;
    r := CheckCellForContinuousUnsetBorders(board, info, smooth);
    if r.Ok? {
      r := Ok(found || r.value);
    }
  }

  /** processCell on the board, with a snapshot of the cell. */
  method ProcessCell(board: Board, info: CellInfo, outerPoking: CellRule, pokingAt: PokingRule, smooth: SmoothRule) returns (r: Result<bool>)
    requires Describes(board, info)
    modifies board.borders
    ensures (board.borders[..], r) == ProcessCellSpec(board, old(board.borders[..]), SnapshotOf(info), board.isClone, board.pokes, outerPoking, pokingAt, smooth)
  {
    if info.bdrActiveCount == 4 {
      return Err(InvalidBoard);
    }
    if !board.isClone && info.bdrActiveCount == 3 && info.bdrUnsetCount == 1 {
      r := BlankLastSide(board, info);
      return;
    }
    r := CheckRequirement(board, info);
    if r.Err? {
      return;
    }
    var found := r.value;
    r := ApplyLaterRules(board, info, outerPoking, pokingAt, smooth);
    if r.Ok? {
      r := Ok(found || r.value);
    }
  }

  /** The loop of processBorder over the connected borders: is one of them ACTIVE and continuous with b? */
  method FindContinuedActive(board: Board, b: int, conn: seq<int>) returns (r: bool)
    requires board.Valid()
    ensures r == ContinuesActive(board.rows, board.cols, board.borders[..], b, conn)
  {
    for k := 0 to |conn|
      invariant ContinuesActive(board.rows, board.cols, board.borders[..], b, conn)
                == ContinuesActive(board.rows, board.cols, board.borders[..], b, conn[k..])
    {
      assert conn[k..][1..] == conn[k + 1..];
      var c := IsContinuous(board, b, conn[k]);
      if c && board.borders[conn[k]] == ACTIVE {
        return true;
      }
    }
    return false;
  }

  /**
   * The endpoint checks of processBorder: two ACTIVE borders, or only BLANK borders, at
   * either endpoint.
   */
  method CheckEnds(board: Board, b: int) returns (r: bool)
    requires board.Valid()
    ensures r == EndForbids(board.rows, board.cols, board.borders[..], b)
  {
    var conn := ConnectedBorders(board.rows, board.cols, b);
    ConnectedOn(board.rows, board.cols, board.borders[..], b);
    var _, active1, blank1 := GetStatusCount(board, conn.0);
    var _, active2, blank2 := GetStatusCount(board, conn.1);
    if active1 > 1 || active2 > 1 {
      return true;
    }
    return blank1 == |conn.0| || blank2 == |conn.1|;
  }

  /** processBorder on the board. */
  method ProcessBorder(board: Board, b: int) returns (found: bool)
    requires board.Valid() && 0 <= b < board.borders.Length
    modifies board.borders
    ensures (board.borders[..], Ok(found)) == ProcessBorderSpec(board.rows, board.cols, old(board.borders[..]), b)
  {
    if board.borders[b] != UNSET {
      return false;
    }
    var continues := FindContinuedActive(board, b, ConnectedBordersList(board.rows, board.cols, b));
    if continues {
      // b is UNSET, so setBorder writes it and reports a move.
      var _ := SetBorder.SetBorder(board, b, ACTIVE);
      return true;
    }
    var forbids := CheckEnds(board, b);
    if forbids {
      // b is UNSET, so setBorder writes it and reports a move.
      var _ := SetBorder.SetBorder(board, b, BLANK);
      return true;
    }
    return false;
  }

  /** processBorder on each listed side not processed before, each one added to the processed set. */
  method ProcessSides(board: Board, idxs: seq<int>, processed: set<int>) returns (found: bool, done: set<int>)
    requires board.WellFormed() && forall k | 0 <= k < |idxs| :: 0 <= idxs[k] < board.borders.Length
    modifies board.borders
    ensures (board.borders[..], Ok(found)) == SidesSpec(board, old(board.borders[..]), idxs, processed, 0)
    ensures done == processed + set k | 0 <= k < |idxs| :: idxs[k]
  {
    ghost var start := board.borders[..];
    found, done := false, processed;
    for i := 0 to |idxs|
      invariant done == processed + set k | 0 <= k < i :: idxs[k]
      invariant SidesSpec(board, start, idxs, processed, 0)
                == Join((board.borders[..], Ok(found)), SidesSpec(board, board.borders[..], idxs, done, i))
    {
      if idxs[i] !in done {
        done := done + {idxs[i]};
        var one := ProcessBorder(board, idxs[i]);
        found := found || one;
      }
      assert (set k | 0 <= k < i + 1 :: idxs[k]) == (set k | 0 <= k < i :: idxs[k]) + {idxs[i]};
    }
  }

  /** One cell of solveClues: a fresh CellInfo, processCell, then processBorder on its sides. */
  method Visit(board: Board, cell: Cell, processed: set<int>, outerPoking: CellRule, pokingAt: PokingRule, smooth: SmoothRule) returns (r: Result<bool>, done: set<int>)
    requires board.WellFormed() && IsValidCellIdx(board.rows, board.cols, cell.0, cell.1)
    modifies board.borders
    ensures ((board.borders[..], r), done)
            == VisitSpec(board, old(board.borders[..]), cell, processed, board.isClone, board.pokes, outerPoking, pokingAt, smooth)
  {
    var info := CellInfo.Init(board, cell.0, cell.1);
    assert SnapshotOf(info) == Taken(board, board.borders[..], cell.0, cell.1);
    r := ProcessCell(board, info, outerPoking, pokingAt, smooth);
    done := processed;
    if r.Err? || info.bdrUnsetCount <= 1 {
      return;
    }
    var found := r.value;
    var more;
    more, done := ProcessSides(board, info.bdrIndices, processed);
    r := Ok(found || more);
  }

  /** solveClues: every prioritized cell in order, sharing one set of processed borders. */
  method SolveClues(board: Board, prioCells: seq<Cell>, outerPoking: CellRule, pokingAt: PokingRule, smooth: SmoothRule) returns (r: Result<bool>)
    requires board.WellFormed()
    requires forall k | 0 <= k < |prioCells| :: IsValidCellIdx(board.rows, board.cols, prioCells[k].0, prioCells[k].1)
    modifies board.borders
    ensures (board.borders[..], r) == SolveCluesSpec(board, old(board.borders[..]), prioCells, {}, board.isClone, board.pokes, outerPoking, pokingAt, smooth)
  {
    ghost var start := board.borders[..];
    var found := false;
    var processed: set<int> := {};
    for k := 0 to |prioCells|
      invariant CluesSoFar(board, start, prioCells, k, board.borders[..], found, processed, board.isClone, board.pokes, outerPoking, pokingAt, smooth)
    {
      r, processed := VisitNext(board, prioCells, k, found, processed, start, outerPoking, pokingAt, smooth);
      if r.Err? {
        return;
      }
      found := found || r.value;
    }
    assert prioCells[|prioCells|..] == [];
    return Ok(found);
  }

  /** After k cells of solveClues: the whole run is the part so far, joined with the run over the rest. */
  ghost predicate CluesSoFar(board: Board, start: seq<BorderStatus>, prioCells: seq<Cell>, k: int, bs: seq<BorderStatus>,
                             found: bool, processed: set<int>, isClone: bool, pokes: set<(int, int, DiagonalDirection)>,
                             outerPoking: CellRule, pokingAt: PokingRule, smooth: SmoothRule)
    requires OnBoard(board, start) && OnBoard(board, bs) && 0 <= k <= |prioCells|
    requires forall k | 0 <= k < |prioCells| :: IsValidCellIdx(board.rows, board.cols, prioCells[k].0, prioCells[k].1)
  {
    SolveCluesSpec(board, start, prioCells, {}, isClone, pokes, outerPoking, pokingAt, smooth)
    == Join((bs, Ok(found)), SolveCluesSpec(board, bs, prioCells[k..], processed, isClone, pokes, outerPoking, pokingAt, smooth))
  }

  /** One pass of the loop of solveClues: visit the k-th cell. */
  method VisitNext(board: Board, prioCells: seq<Cell>, k: int, found: bool, processed: set<int>, ghost start: seq<BorderStatus>,
                   outerPoking: CellRule, pokingAt: PokingRule, smooth: SmoothRule)
    returns (r: Result<bool>, done: set<int>)
    requires board.WellFormed() && OnBoard(board, start) && 0 <= k < |prioCells|
    requires forall k | 0 <= k < |prioCells| :: IsValidCellIdx(board.rows, board.cols, prioCells[k].0, prioCells[k].1)
    requires CluesSoFar(board, start, prioCells, k, board.borders[..], found, processed, board.isClone, board.pokes, outerPoking, pokingAt, smooth)
    modifies board.borders
    ensures r.Err? ==> (board.borders[..], r) == SolveCluesSpec(board, start, prioCells, {}, board.isClone, board.pokes, outerPoking, pokingAt, smooth)
    ensures r.Ok? ==> CluesSoFar(board, start, prioCells, k + 1, board.borders[..], found || r.value, done, board.isClone, board.pokes, outerPoking, pokingAt, smooth)
  {
    assert prioCells[k..][1..] == prioCells[k + 1..];
    ghost var before := board.borders[..];
    r, done := Visit(board, prioCells[k], processed, outerPoking, pokingAt, smooth);
    if r.Ok? {
      JoinAssoc((before, Ok(found)), (board.borders[..], r),
                SolveCluesSpec(board, board.borders[..], prioCells[k + 1..], done, board.isClone, board.pokes, outerPoking, pokingAt, smooth));
    }
  }

  // ---------------------------------------------------------------------------------------
  // What the rules do
  // ---------------------------------------------------------------------------------------

  /** The snapshot was just taken from bs, as solveClues takes it right before processCell. */
  ghost predicate Fresh(board: Board, bs: seq<BorderStatus>, snap: Snapshot)
  {
    && OfCell(board, bs, snap)
    && snap.reqNum == board.cells[snap.row][snap.col]
    && forall k | 0 <= k < 4 :: snap.stats[k] == bs[snap.idxs[k]]
  }

  /** The statuses with every UNSET entry replaced by st. */
  function Settle(stats: seq<BorderStatus>, st: BorderStatus): (r: seq<BorderStatus>)
    ensures |r| == |stats|
  {
    seq(|stats|, k requires 0 <= k < |stats| => if stats[k] == UNSET then st else stats[k])
  }

  /** Settling leaves nothing UNSET; the UNSET entries now count as st, the other statuses keep their count. */
  lemma {:induction false} CountSettled(stats: seq<BorderStatus>, st: BorderStatus)
    requires st != UNSET
    ensures CountOf(Settle(stats, st), UNSET) == 0
    ensures CountOf(Settle(stats, st), st) == CountOf(stats, st) + CountOf(stats, UNSET)
    ensures forall t | t != st && t != UNSET :: CountOf(Settle(stats, st), t) == CountOf(stats, t)
  {
    if stats != [] {
      var n := |stats| - 1;
      CountSettled(stats[..n], st);
      assert Settle(stats, st)[..n] == Settle(stats[..n], st);
    }
  }

  /** With statuses read from bs, every side SidesWith picks has status st in bs. */
  lemma {:induction false} SidesWithStatus(bs: seq<BorderStatus>, idxs: seq<int>, stats: seq<BorderStatus>, st: BorderStatus)
    requires |idxs| == |stats|
    requires forall k | 0 <= k < |idxs| :: 0 <= idxs[k] < |bs| && bs[idxs[k]] == stats[k]
    ensures forall x | x in SidesWith(idxs, stats, st) :: 0 <= x < |bs| && bs[x] == st
  {
    if idxs != [] {
      var n := |idxs| - 1;
      SidesWithStatus(bs, idxs[..n], stats[..n], st);
    }
  }

  /** t is bs with the UNSET sides of the snapshot's cell given status st and nothing else changed. */
  ghost predicate SettledTo(bs: seq<BorderStatus>, t: seq<BorderStatus>, snap: Snapshot, st: BorderStatus)
    requires |t| == |bs| && forall k | 0 <= k < |snap.idxs| :: 0 <= snap.idxs[k] < |bs|
  {
    && Statuses(t, snap.idxs) == Settle(snap.stats, st)
    && forall i | 0 <= i < |bs| && i !in snap.idxs :: t[i] == bs[i]
  }

  /** Setting the UNSET sides of a fresh snapshot to st settles them and reports a move. */
  lemma SettleEffect(board: Board, bs: seq<BorderStatus>, snap: Snapshot, st: BorderStatus)
    requires Fresh(board, bs, snap) && st != UNSET && snap.Unset() > 0
    ensures (SidesInRange(board, bs, snap, UNSET);
             var a := SetListSpec(bs, SidesWith(snap.idxs, snap.stats, UNSET), st);
             Sound(bs, a) && a.1 == Ok(true) && SettledTo(bs, a.0, snap, st))
  {
    SidesInRange(board, bs, snap, UNSET);
    var t := SidesWith(snap.idxs, snap.stats, UNSET);
    SidesWithStatus(bs, snap.idxs, snap.stats, UNSET);
    CellGroup.SetListEffect(bs, t, st);
    var a := SetListSpec(bs, t, st);
    assert t[0] in t && a.0[t[0]] != bs[t[0]];
    forall k | 0 <= k < 4
      ensures a.0[snap.idxs[k]] == Settle(snap.stats, st)[k]
    {
      if snap.stats[k] != UNSET {
        assert snap.idxs[k] !in t;
      }
    }
  }

  /**
   * fillOrRemoveRemainingUnsetBorders on a fresh snapshot never raises and only fills UNSET
   * borders. It reports a move exactly when the cell has a clue, some UNSET side, and the
   * UNSET sides are exactly what the clue still needs or the ACTIVE sides already meet it.
   * Then every UNSET side of the cell takes the status that settles it (ACTIVE or BLANK),
   * the cell is left with no UNSET side and exactly as many ACTIVE sides as its clue, and
   * no other border changes.
   */
  lemma FillOrRemoveEffect(board: Board, bs: seq<BorderStatus>, snap: Snapshot)
    requires Fresh(board, bs, snap)
    ensures var s := FillOrRemoveSpec(board, bs, snap);
            && Sound(bs, s) && s.1.Ok?
            && (s.1 == Ok(true) <==> snap.reqNum.Some? && snap.Unset() > 0
                                     && (snap.Unset() + snap.Active() == snap.reqNum.value
                                         || snap.Active() == snap.reqNum.value))
            && (s.1 == Ok(true) ==>
                  var st := if snap.Unset() + snap.Active() == snap.reqNum.value then ACTIVE else BLANK;
                  && SettledTo(bs, s.0, snap, st)
                  && CountOf(Statuses(s.0, snap.idxs), UNSET) == 0
                  && CountOf(Statuses(s.0, snap.idxs), ACTIVE) == snap.reqNum.value)
  {
    if snap.reqNum.Some? && snap.Unset() > 0 {
      var n := snap.reqNum.value;
      if snap.Unset() + snap.Active() == n || snap.Active() == n {
        var st := if snap.Unset() + snap.Active() == n then ACTIVE else BLANK;
        SettleEffect(board, bs, snap, st);
        CountSettled(snap.stats, st);
      }
    }
  }

  /** The last-side shortcut blanks the one UNSET side of a fresh snapshot and reports a move. */
  lemma LastSideEffect(board: Board, bs: seq<BorderStatus>, snap: Snapshot)
    requires Fresh(board, bs, snap) && snap.Unset() == 1
    ensures var s := LastSideSpec(board, bs, snap);
            Sound(bs, s) && s.1 == Ok(true) && SettledTo(bs, s.0, snap, BLANK)
  {
    SettleEffect(board, bs, snap, BLANK);
    var t := SidesWith(snap.idxs, snap.stats, UNSET);
    assert t == [t[0]];
    SingleSet(bs, t[0], BLANK);
  }

  /** Setting a list of one border is setting that border. */
  lemma SingleSet(bs: seq<BorderStatus>, x: int, st: BorderStatus)
    requires 0 <= x < |bs|
    ensures SetListSpec(bs, [x], st) == SetSpec(bs, x, st)
  {
    assert [x][1..] == [];
  }

  // Soundness of the single rules

  /** ArmPokeSpec over any run of corners is sound. */
  lemma {:induction false} ArmPokesSound(board: Board, bs: seq<BorderStatus>, row: int, col: int, i: int)
    requires OnBoard(board, bs) && IsValidCellIdx(board.rows, board.cols, row, col) && 0 <= i <= 4
    ensures Sound(bs, ArmPokesSpec(board, bs, row, col, i))
    decreases 4 - i
  {
    if i < 4 {
      HandlePokeSound(board, bs, row, col, AllDiagonal[i]);
      var a := ArmPokeSpec(board, bs, row, col, AllDiagonal[i]);
      if a.1.Ok? {
        ArmPokesSound(board, a.0, row, col, i + 1);
        JoinSound(bs, a, ArmPokesSpec(board, a.0, row, col, i + 1));
      }
    }
  }

  /**
   * The clue checks are sound; a cell whose clue they pass has at most clue ACTIVE sides and
   * enough UNSET ones to reach it, and a 4-cell that passes them has all four sides set.
   */
  lemma RequirementSound(board: Board, bs: seq<BorderStatus>, snap: Snapshot)
    requires Fresh(board, bs, snap)
    ensures var s := RequirementSpec(board, bs, snap);
            && Sound(bs, s)
            && (snap.reqNum.Some? && (snap.Active() > snap.reqNum.value || snap.Unset() + snap.Active() < snap.reqNum.value)
                ==> s == (bs, Err(InvalidBoard)))
            && (s.1.Ok? && snap.reqNum == Some(4) ==> AllSet(s.0, snap.idxs))
  {
    FillOrRemoveEffect(board, bs, snap);
    var a := FillOrRemoveSpec(board, bs, snap);
    if snap.reqNum.Some? && snap.reqNum.value == 3 && a.1.Ok? {
      ArmPokesSound(board, a.0, snap.row, snap.col, 0);
      JoinSound(bs, a, ArmPokesSpec(board, a.0, snap.row, snap.col, 0));
    }
    if snap.reqNum == Some(4) && !(snap.Active() > 4 || snap.Unset() + snap.Active() < 4) {
      CountTotal(snap.stats);
      assert a.1 == Ok(true) || snap.Unset() == 0;
      if a.1 == Ok(true) {
        CountSettled(snap.stats, ACTIVE);
        assert Statuses(a.0, snap.idxs) == Settle(snap.stats, ACTIVE);
        forall k | 0 <= k < 4 ensures a.0[snap.idxs[k]] != UNSET {
          assert Settle(snap.stats, ACTIVE)[k] != UNSET;
        }
      } else {
        NoneUnset(snap.stats);
      }
    }
  }

  /** No entry is UNSET when none is counted. */
  lemma {:induction false} NoneUnset(stats: seq<BorderStatus>)
    requires CountOf(stats, UNSET) == 0
    ensures forall k | 0 <= k < |stats| :: stats[k] != UNSET
  {
    if stats != [] {
      NoneUnset(stats[..|stats| - 1]);
    }
  }

  /** Poke propagation into a 3-cell is sound at each corner. */
  lemma ThreeCornerSound(board: Board, bs: seq<BorderStatus>, row: int, col: int, dxn: DiagonalDirection)
    requires OnBoard(board, bs) && IsValidCellIdx(board.rows, board.cols, row, col)
    ensures Sound(bs, ThreeCornerSpec(board, bs, row, col, dxn))
  {
    CornersValid(board.rows, board.cols, row, col);
    var (b1, b2) := CornerBorderIndices(board.cols, row, col, dxn.Opposite());
    var s := ThreeCornerSpec(board, bs, row, col, dxn);
    if s.1 == Ok(true) {
      assert s.0[b2] != bs[b2];
    }
  }

  /** Poke propagation into a 3-cell is sound over any run of corners. */
  lemma {:induction false} ThreePokedSound(board: Board, bs: seq<BorderStatus>, row: int, col: int, i: int)
    requires OnBoard(board, bs) && IsValidCellIdx(board.rows, board.cols, row, col) && 0 <= i <= 4
    ensures Sound(bs, ThreePokedSpec(board, bs, row, col, i))
    decreases 4 - i
  {
    if i < 4 {
      ThreeCornerSound(board, bs, row, col, AllDiagonal[i]);
      var a := ThreeCornerSpec(board, bs, row, col, AllDiagonal[i]);
      if a.1.Ok? {
        ThreePokedSound(board, a.0, row, col, i + 1);
        JoinSound(bs, a, ThreePokedSpec(board, a.0, row, col, i + 1));
      }
    }
  }

  /** Poke propagation into a 2-cell is sound over any run of corners. */
  lemma {:induction false} TwoPokedSound(board: Board, bs: seq<BorderStatus>, row: int, col: int, i: int)
    requires OnBoard(board, bs) && IsValidCellIdx(board.rows, board.cols, row, col) && 0 <= i <= 4
    ensures Sound(bs, TwoPokedSpec(board, bs, row, col, i))
    decreases 4 - i
  {
    if i < 4 {
      HandlePokeSound(board, bs, row, col, AllDiagonal[i]);
      var a := TwoCornerSpec(board, bs, row, col, AllDiagonal[i]);
      if a.1.Ok? {
        TwoPokedSound(board, a.0, row, col, i + 1);
        JoinSound(bs, a, TwoPokedSpec(board, a.0, row, col, i + 1));
      }
    }
  }

  /** The pokes a cell starts are sound over any run of corners. */
  lemma {:induction false} StartPokesSound(board: Board, bs: seq<BorderStatus>, snap: Snapshot,
                                           pokes: set<(int, int, DiagonalDirection)>, pokingAt: PokingRule, i: int)
    requires OnBoard(board, bs) && IsValidCellIdx(board.rows, board.cols, snap.row, snap.col) && 0 <= i <= 4
    ensures Sound(bs, StartPokesSpec(board, bs, snap, pokes, pokingAt, i))
    decreases 4 - i
  {
    if i < 4 {
      InitiatePokeSound(board, bs, snap.row, snap.col, AllDiagonal[i]);
      var a := StartCornerSpec(board, bs, snap, pokes, pokingAt, AllDiagonal[i]);
      if a.1.Ok? {
        StartPokesSound(board, a.0, snap, pokes, pokingAt, i + 1);
        JoinSound(bs, a, StartPokesSpec(board, a.0, snap, pokes, pokingAt, i + 1));
      }
    }
  }

  // processCell as a whole

  /**
   * A step from bs that only sets UNSET borders, raises only InvalidBoard or AssertionError,
   * and changed the board when it reports a move.
   */
  ghost predicate Honest(bs: seq<BorderStatus>, s: Step)
  {
    && Grows(bs, s.0)
    && (s.1.Err? ==> s.1.error == InvalidBoard || s.1.error == AssertionError)
    && (s.1 == Ok(true) ==> s.0 != bs)
  }

  /** A step that changed nothing when it reports no move. */
  ghost predicate Quiet(bs: seq<BorderStatus>, s: Step)
  {
    s.1 == Ok(false) ==> s.0 == bs
  }

  /** An honest step that raises nothing but InvalidBoard. */
  ghost predicate Reliable(bs: seq<BorderStatus>, s: Step)
  {
    && Grows(bs, s.0)
    && (s.1.Err? ==> s.1.error == InvalidBoard)
    && (s.1 == Ok(true) ==> s.0 != bs)
  }

  /** Two reliable steps in a row make a reliable step. */
  lemma JoinReliable(bs: seq<BorderStatus>, a: Step, b: Step)
    requires a.1.Ok? && Reliable(bs, a) && Reliable(a.0, b)
    ensures Reliable(bs, Join(a, b))
  {
    if b.0 == bs {
      GrowsBack(bs, a.0);
    }
  }

  /** Two honest steps in a row make an honest step, and two quiet ones a quiet one. */
  lemma JoinHonest(bs: seq<BorderStatus>, a: Step, b: Step)
    requires a.1.Ok? && Honest(bs, a) && Honest(a.0, b)
    ensures Honest(bs, Join(a, b))
    ensures Quiet(bs, a) && Quiet(a.0, b) ==> Quiet(bs, Join(a, b))
  {
    if b.0 == bs {
      GrowsBack(bs, a.0);
    }
  }

  /** Growing both ways leaves the borders as they were. */
  lemma GrowsBack(x: seq<BorderStatus>, y: seq<BorderStatus>)
    requires Grows(x, y) && Grows(y, x)
    ensures x == y
  {
    assert forall i | 0 <= i < |x| :: x[i] == y[i];
  }

  /** Setting the sides of a cell also sets its corner borders. */
  lemma CornersOfSet(board: Board, bs: seq<BorderStatus>, row: int, col: int, dxn: DiagonalDirection)
    requires OnBoard(board, bs) && IsValidCellIdx(board.rows, board.cols, row, col)
    requires AllSet(bs, CellBorderSeq(board.cols, row, col))
    ensures !IsContUnsetCorner(board, bs, row, col, dxn)
  {
    CornerIsSide(board.cols, row, col, dxn);
  }

  /**
   * The poke rules only set UNSET borders and report a move only when they made one; they
   * raise AssertionError only for a clue outside 0 to 3 on a cell with a side still UNSET,
   * and besides a 2-cell they report no move only when they changed nothing.
   */
  lemma PokeRulesHonest(board: Board, bs: seq<BorderStatus>, snap: Snapshot,
                        pokes: set<(int, int, DiagonalDirection)>, pokingAt: PokingRule, smooth: SmoothRule)
    requires OnBoard(board, bs) && IsValidCellIdx(board.rows, board.cols, snap.row, snap.col)
    ensures var s := PokeRulesSpec(board, bs, snap, pokes, pokingAt, smooth);
            && Honest(bs, s)
            && (snap.reqNum != Some(2) ==> Quiet(bs, s))
            && (s.1 == Err(AssertionError) ==>
                  snap.reqNum.Some? && !(0 <= snap.reqNum.value <= 3)
                  && !AllSet(bs, CellBorderSeq(board.cols, snap.row, snap.col)))
  {
    var d := if snap.reqNum == Some(2) && snap.Blank() == 1 && snap.Unset() > 0
             then TwoPokedSpec(board, bs, snap.row, snap.col, 0) else NoMove(bs);
    TwoPokedSound(board, bs, snap.row, snap.col, 0);
    if d.1.Ok? {
      StartPokesSound(board, d.0, snap, pokes, pokingAt, 0);
      var e0 := StartPokesSpec(board, d.0, snap, pokes, pokingAt, 0);
      JoinSound(bs, d, e0);
      var e := Join(d, e0);
      if e.1.Ok? {
        var f := ContUnsetSpec(board, e.0, snap.row, snap.col, snap.reqNum, snap.Unset(), snap.Active(), snap.Blank(), smooth);
        ContUnsetSound(board, e.0, snap.row, snap.col, snap.reqNum, snap.Unset(), snap.Active(), snap.Blank(), smooth);
        JoinHonest(bs, e, f);
        if f.1 == Err(AssertionError) {
          ContUnsetAssertion(board, e.0, snap.row, snap.col, snap.reqNum, snap.Unset(), snap.Active(), snap.Blank(), smooth);
          var dxn :| IsContUnsetCorner(board, e.0, snap.row, snap.col, dxn);
          if AllSet(bs, CellBorderSeq(board.cols, snap.row, snap.col)) {
            AllSetGrows(bs, e.0, CellBorderSeq(board.cols, snap.row, snap.col));
            CornersOfSet(board, e.0, snap.row, snap.col, dxn);
          }
        }
      }
    }
  }

  /** The later rules of processCell keep the same promises as the poke rules. */
  lemma LaterRulesHonest(board: Board, bs: seq<BorderStatus>, snap: Snapshot,
                         pokes: set<(int, int, DiagonalDirection)>, outerPoking: CellRule,
                         pokingAt: PokingRule, smooth: SmoothRule)
    requires OnBoard(board, bs) && IsValidCellIdx(board.rows, board.cols, snap.row, snap.col)
    ensures var s := LaterRulesSpec(board, bs, snap, pokes, outerPoking, pokingAt, smooth);
            && Honest(bs, s)
            && (snap.reqNum != Some(2) ==> Quiet(bs, s))
            && (s.1 == Err(AssertionError) ==>
                  snap.reqNum.Some? && !(0 <= snap.reqNum.value <= 3)
                  && !AllSet(bs, CellBorderSeq(board.cols, snap.row, snap.col)))
  {
    var b := if IsEdgeCell(board, snap.row, snap.col) then outerPoking(bs, snap) else NoMove(bs);
    assert Sound(bs, b);
    if b.1.Ok? {
      ThreePokedSound(board, b.0, snap.row, snap.col, 0);
      var c0 := if snap.reqNum == Some(3) && snap.Unset() > 0
                then ThreePokedSpec(board, b.0, snap.row, snap.col, 0) else NoMove(b.0);
      JoinSound(bs, b, c0);
      var c := Join(b, c0);
      if c.1.Ok? {
        PokeRulesHonest(board, c.0, snap, pokes, pokingAt, smooth);
        JoinHonest(bs, c, PokeRulesSpec(board, c.0, snap, pokes, pokingAt, smooth));
        if AllSet(bs, CellBorderSeq(board.cols, snap.row, snap.col)) {
          AllSetGrows(bs, c.0, CellBorderSeq(board.cols, snap.row, snap.col));
        }
      }
    }
  }

  /**
   * processCell on a fresh snapshot only sets UNSET borders, raises nothing but
   * InvalidBoard, and reports a move only when it made one; besides a 2-cell, a report of
   * no move means nothing changed. The continuous-UNSET rule cannot reach its closing
   * AssertionError here: a clue the checks let through lies between 0 and 4, and a
   * 4-cell has all its sides set by then.
   */
  lemma ProcessCellSound(board: Board, bs: seq<BorderStatus>, snap: Snapshot, isClone: bool,
                         pokes: set<(int, int, DiagonalDirection)>, outerPoking: CellRule, pokingAt: PokingRule, smooth: SmoothRule)
    requires Fresh(board, bs, snap)
    ensures var s := ProcessCellSpec(board, bs, snap, isClone, pokes, outerPoking, pokingAt, smooth);
            Reliable(bs, s) && (snap.reqNum != Some(2) ==> Quiet(bs, s))
  {
    if snap.Active() == 4 {
    } else if !isClone && snap.Active() == 3 && snap.Unset() == 1 {
      LastSideEffect(board, bs, snap);
    } else {
      RequirementSound(board, bs, snap);
      RequirementPassed(board, bs, snap);
      var a := RequirementSpec(board, bs, snap);
      if a.1.Ok? {
        LaterRulesHonest(board, a.0, snap, pokes, outerPoking, pokingAt, smooth);
        JoinHonest(bs, a, LaterRulesSpec(board, a.0, snap, pokes, outerPoking, pokingAt, smooth));
      }
    }
  }

  /** A clue outside 0 to 3 that passes the clue checks is 4, and then every side is set. */
  lemma RequirementPassed(board: Board, bs: seq<BorderStatus>, snap: Snapshot)
    requires Fresh(board, bs, snap)
    ensures var a := RequirementSpec(board, bs, snap);
            a.1.Ok? && snap.reqNum.Some? && !(0 <= snap.reqNum.value <= 3) ==>
              AllSet(a.0, CellBorderSeq(board.cols, snap.row, snap.col))
  {
    RequirementSound(board, bs, snap);
    var a := RequirementSpec(board, bs, snap);
    if a.1.Ok? && snap.reqNum.Some? && !(0 <= snap.reqNum.value <= 3) {
      CountTotal(snap.stats);
      assert snap.reqNum == Some(4);
    }
  }

  /**
   * The shortcuts of processCell on a fresh snapshot: four ACTIVE sides raise InvalidBoard
   * with nothing written; on a board that is not a clone, three ACTIVE sides and one UNSET
   * side end the call with that side BLANK, nothing else changed and a move reported;
   * otherwise a clue the sides can no longer meet raises InvalidBoard with nothing written.
   */
  lemma ProcessCellShortcuts(board: Board, bs: seq<BorderStatus>, snap: Snapshot, isClone: bool,
                             pokes: set<(int, int, DiagonalDirection)>, outerPoking: CellRule, pokingAt: PokingRule, smooth: SmoothRule)
    requires Fresh(board, bs, snap)
    ensures var s := ProcessCellSpec(board, bs, snap, isClone, pokes, outerPoking, pokingAt, smooth);
            && (snap.Active() == 4 ==> s == (bs, Err(InvalidBoard)))
            && (!isClone && snap.Active() == 3 && snap.Unset() == 1 ==>
                  s.1 == Ok(true) && SettledTo(bs, s.0, snap, BLANK))
            && (snap.Active() != 4 && !(!isClone && snap.Active() == 3 && snap.Unset() == 1)
                && snap.reqNum.Some?
                && (snap.Active() > snap.reqNum.value || snap.Unset() + snap.Active() < snap.reqNum.value)
                ==> s == (bs, Err(InvalidBoard)))
  {
    if !isClone && snap.Active() == 3 && snap.Unset() == 1 {
      LastSideEffect(board, bs, snap);
    }
  }

  // processBorder and solveClues

  /** ContinuesActive holds exactly when some border of conn is ACTIVE and continuous with b. */
  lemma {:induction false} ContinuesActiveMeaning(rows: int, cols: int, bs: seq<BorderStatus>, b: int, conn: seq<int>)
    requires cols >= 1 && |bs| == NumBorders(rows, cols)
    requires forall x | x in conn :: 0 <= x < |bs|
    ensures ContinuesActive(rows, cols, bs, b, conn) <==>
            exists x | x in conn :: Continuous(rows, cols, bs, b, x) && bs[x] == ACTIVE
  {
    if conn != [] {
      assert forall x | x in conn :: x == conn[0] || x in conn[1..];
      assert forall x | x in conn[1..] :: x in conn;
      ContinuesActiveMeaning(rows, cols, bs, b, conn[1..]);
    }
  }

  /**
   * processBorder never raises and writes at most border b. An UNSET border b becomes
   * ACTIVE exactly when one of its connected borders is ACTIVE and continuous with it, and
   * otherwise becomes BLANK exactly when an endpoint forbids a line through it; the call
   * reports a move exactly when it wrote b.
   */
  lemma ProcessBorderEffect(rows: int, cols: int, bs: seq<BorderStatus>, b: int)
    requires cols >= 1 && |bs| == NumBorders(rows, cols) && 0 <= b < |bs|
    ensures var s := ProcessBorderSpec(rows, cols, bs, b);
            var continues := exists x | x in ConnectedBordersList(rows, cols, b) :: Continuous(rows, cols, bs, b, x) && bs[x] == ACTIVE;
            && Sound(bs, s) && s.1.Ok?
            && (forall i | 0 <= i < |bs| && i != b :: s.0[i] == bs[i])
            && (bs[b] == UNSET ==> (s.0[b] == ACTIVE <==> continues))
            && (bs[b] == UNSET ==> (s.0[b] == BLANK <==> !continues && EndForbids(rows, cols, bs, b)))
  {
    ContinuesActiveMeaning(rows, cols, bs, b, ConnectedBordersList(rows, cols, b));
  }

  /** processBorder over the sides of a cell is sound. */
  lemma {:induction false} SidesSound(board: Board, bs: seq<BorderStatus>, idxs: seq<int>, processed: set<int>, i: int)
    requires OnBoard(board, bs) && 0 <= i <= |idxs| && forall k | 0 <= k < |idxs| :: 0 <= idxs[k] < |bs|
    ensures Sound(bs, SidesSpec(board, bs, idxs, processed, i))
    decreases |idxs| - i
  {
    if i < |idxs| {
      if idxs[i] in processed {
        SidesSound(board, bs, idxs, processed, i + 1);
      } else {
        ProcessBorderEffect(board.rows, board.cols, bs, idxs[i]);
        var a := ProcessBorderSpec(board.rows, board.cols, bs, idxs[i]);
        SidesSound(board, a.0, idxs, processed + {idxs[i]}, i + 1);
        JoinSound(bs, a, SidesSpec(board, a.0, idxs, processed + {idxs[i]}, i + 1));
      }
    }
  }

  /** A snapshot taken from bs is fresh. */
  lemma TakenFresh(board: Board, bs: seq<BorderStatus>, row: int, col: int)
    requires OnBoard(board, bs) && IsValidCellIdx(board.rows, board.cols, row, col)
    ensures Fresh(board, bs, Taken(board, bs, row, col))
  {
  }

  /** One cell of solveClues is reliable, and its processed set only grows, by sides of the cell. */
  lemma VisitSound(board: Board, bs: seq<BorderStatus>, cell: Cell, processed: set<int>, isClone: bool,
                   pokes: set<(int, int, DiagonalDirection)>, outerPoking: CellRule, pokingAt: PokingRule, smooth: SmoothRule)
    requires OnBoard(board, bs) && IsValidCellIdx(board.rows, board.cols, cell.0, cell.1)
    ensures var r := VisitSpec(board, bs, cell, processed, isClone, pokes, outerPoking, pokingAt, smooth);
            && Reliable(bs, r.0)
            && processed <= r.1
            && forall x | x in r.1 - processed :: x in CellBorderSeq(board.cols, cell.0, cell.1)
  {
    var snap := Taken(board, bs, cell.0, cell.1);
    TakenFresh(board, bs, cell.0, cell.1);
    ProcessCellSound(board, bs, snap, isClone, pokes, outerPoking, pokingAt, smooth);
    var a := ProcessCellSpec(board, bs, snap, isClone, pokes, outerPoking, pokingAt, smooth);
    if a.1.Ok? && snap.Unset() > 1 {
      SidesSound(board, a.0, snap.idxs, processed, 0);
      JoinReliable(bs, a, SidesSpec(board, a.0, snap.idxs, processed, 0));
    }
  }

  /**
   * solveClues only sets UNSET borders, raises nothing but InvalidBoard, and reports a move
   * only when it made one.
   */
  lemma {:induction false} SolveCluesSound(board: Board, bs: seq<BorderStatus>, cells: seq<Cell>, processed: set<int>,
                                           isClone: bool, pokes: set<(int, int, DiagonalDirection)>, outerPoking: CellRule,
                                           pokingAt: PokingRule, smooth: SmoothRule)
    requires OnBoard(board, bs) && forall k | 0 <= k < |cells| :: IsValidCellIdx(board.rows, board.cols, cells[k].0, cells[k].1)
    ensures Reliable(bs, SolveCluesSpec(board, bs, cells, processed, isClone, pokes, outerPoking, pokingAt, smooth))
    decreases |cells|
  {
    if cells != [] {
      var (a, done) := VisitSpec(board, bs, cells[0], processed, isClone, pokes, outerPoking, pokingAt, smooth);
      VisitSound(board, bs, cells[0], processed, isClone, pokes, outerPoking, pokingAt, smooth);
      if a.1.Ok? {
        SolveCluesSound(board, a.0, cells[1..], done, isClone, pokes, outerPoking, pokingAt, smooth);
        JoinReliable(bs, a, SolveCluesSpec(board, a.0, cells[1..], done, isClone, pokes, outerPoking, pokingAt, smooth));
      }
    }
  }
}
