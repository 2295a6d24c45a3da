/**
 * Pokes: a cell whose corner is "poked" has exactly one loop border entering that corner
 * from outside. handleCellPoke draws the consequences inside the cell and, through a
 * 2-cell, passes the poke on to the diagonal neighbour with initiatePoke; the chain moves
 * one cell diagonally per step in a fixed direction, so it ends at the grid edge.
 */
module Poke {
  import opened Outcomes
  import opened Enums
  import opened BoardTools
  import opened BoardModel
  import opened SolverTools
  import opened SetBorder
  import opened Initial

  /** The corner borders of a valid cell are borders of the board. */
  lemma CornersValid(rows: int, cols: int, row: int, col: int)
    requires cols >= 1 && IsValidCellIdx(rows, cols, row, col)
    ensures forall d :: 0 <= CornerBorderIndices(cols, row, col, d).0 < NumBorders(rows, cols)
                        && 0 <= CornerBorderIndices(cols, row, col, d).1 < NumBorders(rows, cols)
  {
    CellBordersValid(rows, cols, row, col);
  }

  /**
   * The lone-border pattern at a corner: when one of its borders has status `trigger`,
   * setBorder gives the other one status st.
   */
  function LoneSpec(bs: seq<BorderStatus>, b1: int, b2: int, trigger: BorderStatus, st: BorderStatus): (s: Step)
    requires 0 <= b1 < |bs| && 0 <= b2 < |bs|
    ensures |s.0| == |bs|
  {
    if bs[b1] == trigger then SetSpec(bs, b2, st)
    else if bs[b2] == trigger then SetSpec(bs, b1, st)
    else NoMove(bs)
  }

  lemma LoneSound(bs: seq<BorderStatus>, b1: int, b2: int, trigger: BorderStatus, st: BorderStatus)
    requires 0 <= b1 < |bs| && 0 <= b2 < |bs| && st != UNSET
    ensures Sound(bs, LoneSpec(bs, b1, b2, trigger, st))
  {
    SetSpecSound(bs, b1, st);
    SetSpecSound(bs, b2, st);
  }

  /** setBorder on each listed border in turn until one of them reports a move. */
  function FirstSetSpec(bs: seq<BorderStatus>, idxs: seq<int>, st: BorderStatus): (s: Step)
    requires forall k | 0 <= k < |idxs| :: 0 <= idxs[k] < |bs|
    ensures |s.0| == |bs|
    decreases |idxs|
  {
    if idxs == [] then NoMove(bs)
    else
      var a := SetSpec(bs, idxs[0], st);
      if a.1 != Ok(false) then a else FirstSetSpec(a.0, idxs[1..], st)
  }

  lemma {:induction false} FirstSetSound(bs: seq<BorderStatus>, idxs: seq<int>, st: BorderStatus)
    requires forall k | 0 <= k < |idxs| :: 0 <= idxs[k] < |bs|
    requires st != UNSET
    ensures Sound(bs, FirstSetSpec(bs, idxs, st))
    decreases |idxs|
  {
    if idxs != [] {
      SetSpecSound(bs, idxs[0], st);
      FirstSetSound(SetSpec(bs, idxs[0], st).0, idxs[1..], st);
    }
  }

  /** The arms of the corners other than dxn among ds, in the order of ds. */
  function OtherArmsOf(rows: int, cols: int, row: int, col: int, dxn: DiagonalDirection, ds: seq<DiagonalDirection>): seq<int>
    requires cols >= 1
  {
    if ds == [] then []
    else
      OtherArmsOf(rows, cols, row, col, dxn, ds[..|ds| - 1])
      + (if ds[|ds| - 1] == dxn then [] else Arms(rows, cols, row, col, ds[|ds| - 1]))
  }

  /** The arms of the three corners other than dxn, corner by corner in declaration order. */
  function OtherArms(rows: int, cols: int, row: int, col: int, dxn: DiagonalDirection): seq<int>
    requires cols >= 1
  {
    OtherArmsOf(rows, cols, row, col, dxn, AllDiagonal)
  }

  lemma {:induction false} OtherArmsOfInRange(rows: int, cols: int, row: int, col: int, dxn: DiagonalDirection, ds: seq<DiagonalDirection>)
    requires cols >= 1 && IsValidCellIdx(rows, cols, row, col)
    ensures forall k | 0 <= k < |OtherArmsOf(rows, cols, row, col, dxn, ds)| ::
              0 <= OtherArmsOf(rows, cols, row, col, dxn, ds)[k] < NumBorders(rows, cols)
  {
    if ds != [] {
      OtherArmsOfInRange(rows, cols, row, col, dxn, ds[..|ds| - 1]);
      ArmsInRange(rows, cols, row, col, ds[|ds| - 1]);
    }
  }

  /** The entry measure of a poke chain: the rows left in the direction it travels. */
  function PokeMeasure(rows: int, row: int, entry: DiagonalDirection): nat
  {
    var m := if entry.IsUpper() then rows - row else row + 1;
    if m < 0 then 0 else m
  }

  /**
   * A poked 3-cell: both borders of the opposite corner become ACTIVE; then more than one
   * ACTIVE arm at the poked corner makes the board invalid, and exactly one blanks the
   * UNSET arms there.
   */
  function ThreeSpec(board: Board, bs: seq<BorderStatus>, row: int, col: int, dxn: DiagonalDirection): (s: Step)
    requires OnBoard(board, bs) && IsValidCellIdx(board.rows, board.cols, row, col)
    ensures |s.0| == |bs|
  {
    var (rows, cols) := (board.rows, board.cols);
    CornersValid(rows, cols, row, col);
    ArmsInRange(rows, cols, row, col, dxn);
    var (o1, o2) := CornerBorderIndices(cols, row, col, dxn.Opposite());
    ThreeRuleSpec(bs, o1, o2, Arms(rows, cols, row, col, dxn))
  }

  /** The 3-cell rule on given indices: o1 and o2 become ACTIVE, then the arms rule on arms. */
  function ThreeRuleSpec(bs: seq<BorderStatus>, o1: int, o2: int, arms: seq<int>): (s: Step)
    requires 0 <= o1 < |bs| && 0 <= o2 < |bs| && forall k | 0 <= k < |arms| :: 0 <= arms[k] < |bs|
    ensures |s.0| == |bs|
  {
    var a := SetListSpec(bs, [o1, o2], ACTIVE);
    if a.1.Err? then a else ArmsRuleSpec(a, arms)
  }

  /**
   * The arms rule of a poked 3-cell, after a returning step a: more than one ACTIVE arm
   * raises, exactly one with some UNSET arm blanks the UNSET ones.
   */
  function ArmsRuleSpec(a: Step, arms: seq<int>): (s: Step)
    requires a.1.Ok? && forall k | 0 <= k < |arms| :: 0 <= arms[k] < |a.0|
    ensures |s.0| == |a.0|
  {
    var countActive := CountAt(a.0, arms, ACTIVE);
    if countActive > 1 then (a.0, Err(InvalidBoard))
    else if countActive == 1 && CountAt(a.0, arms, UNSET) > 0 then Join(a, FillStep(a.0, arms, BLANK))
    else a
  }

  /** The arms rule keeps a sound step sound; it raises on two ACTIVE arms and otherwise, with one, leaves none UNSET. */
  lemma ArmsRuleEffect(bs: seq<BorderStatus>, a: Step, arms: seq<int>)
    requires a.1.Ok? && Sound(bs, a) && forall k | 0 <= k < |arms| :: 0 <= arms[k] < |a.0|
    ensures Sound(bs, ArmsRuleSpec(a, arms))
    ensures ArmsRuleSpec(a, arms).1.Ok? ==> Grows(a.0, ArmsRuleSpec(a, arms).0)
    ensures CountAt(a.0, arms, ACTIVE) > 1 ==> ArmsRuleSpec(a, arms).1 == Err(InvalidBoard)
    ensures CountAt(a.0, arms, ACTIVE) == 1 && ArmsRuleSpec(a, arms).1.Ok? ==> CountAt(ArmsRuleSpec(a, arms).0, arms, UNSET) == 0
  {
    FillStepSound(a.0, arms, BLANK);
    JoinSound(bs, a, FillStep(a.0, arms, BLANK));
    if CountAt(a.0, arms, ACTIVE) == 1 && CountAt(a.0, arms, UNSET) > 0 {
      FillCountAt(a.0, arms, arms, BLANK);
    }
  }

  /**
   * The general rules when nothing else moved: a BLANK border at the poked corner makes
   * the other one ACTIVE; failing that, a single UNSET arm among the other three corners
   * becomes ACTIVE when those arms hold an even number of ACTIVE borders, else BLANK.
   */
  function FallbackSpec(board: Board, bs: seq<BorderStatus>, row: int, col: int, dxn: DiagonalDirection): (s: Step)
    requires OnBoard(board, bs) && IsValidCellIdx(board.rows, board.cols, row, col)
    ensures |s.0| == |bs|
  {
    var (rows, cols) := (board.rows, board.cols);
    CornersValid(rows, cols, row, col);
    var (c1, c2) := CornerBorderIndices(cols, row, col, dxn);
    var a := LoneSpec(bs, c1, c2, BLANK, ACTIVE);
    if a.1 != Ok(false) then a
    else
      OtherArmsOfInRange(rows, cols, row, col, dxn, AllDiagonal);
      OtherArmsRuleSpec(a.0, OtherArms(rows, cols, row, col, dxn))
  }

  /**
   * The rule for the arms of the other three corners: a single UNSET one becomes ACTIVE when
   * they hold an even number of ACTIVE borders, else BLANK.
   */
  function OtherArmsRuleSpec(bs: seq<BorderStatus>, other: seq<int>): (s: Step)
    requires forall k | 0 <= k < |other| :: 0 <= other[k] < |bs|
    ensures |s.0| == |bs|
  {
    if CountAt(bs, other, UNSET) == 1 then
      FillStep(bs, other, if CountAt(bs, other, ACTIVE) % 2 == 0 then ACTIVE else BLANK)
    else NoMove(bs)
  }

  /**
   * handleCellPoke: an ACTIVE border at the poked corner blanks the other one and ends the
   * call with a move; otherwise the clue's rule, and when that finds nothing, the general
   * rules.
   */
  function HandlePokeSpec(board: Board, bs: seq<BorderStatus>, row: int, col: int, dxn: DiagonalDirection): (s: Step)
    requires OnBoard(board, bs) && IsValidCellIdx(board.rows, board.cols, row, col)
    ensures |s.0| == |bs|
    decreases PokeMeasure(board.rows, row, dxn), 2
  {
    CornersValid(board.rows, board.cols, row, col);
    var (c1, c2) := CornerBorderIndices(board.cols, row, col, dxn);
    var first := LoneSpec(bs, c1, c2, ACTIVE, BLANK);
    if first.1 != Ok(false) then first
    else
      var clue := ClueSpec(board, first.0, row, col, dxn);
      if clue.1 != Ok(false) then clue
      else FallbackSpec(board, clue.0, row, col, dxn)
  }

  /**
   * The clue's rule for a poked cell: a 1-cell blanks the opposite corner; a 2-cell
   * activates the lone border left at the opposite corner and passes the poke on through
   * it; a 3-cell follows ThreeSpec.
   */
  function ClueSpec(board: Board, bs: seq<BorderStatus>, row: int, col: int, dxn: DiagonalDirection): (s: Step)
    requires OnBoard(board, bs) && IsValidCellIdx(board.rows, board.cols, row, col)
    ensures |s.0| == |bs|
    decreases PokeMeasure(board.rows, row, dxn), 1
  {
    CornersValid(board.rows, board.cols, row, col);
    var (o1, o2) := CornerBorderIndices(board.cols, row, col, dxn.Opposite());
    match board.cells[row][col]
    case Some(1) => SetListSpec(bs, [o1, o2], BLANK)
    case Some(2) =>
      var a := LoneSpec(bs, o1, o2, BLANK, ACTIVE);
      if a.1.Err? then a
      else
        OppositeFlipsSides(dxn);
        Join(a, InitiatePokeSpec(board, a.0, row, col, dxn.Opposite()))
    case Some(3) => ThreeSpec(board, bs, row, col, dxn)
    case _ => NoMove(bs)
  }

  /**
   * initiatePoke: the diagonal neighbour towards dxn is poked at its corner facing the
   * origin; off the grid, the first arm at that corner that setBorder turns ACTIVE ends
   * the call (more than one arm there would fail the source's assertion).
   */
  function InitiatePokeSpec(board: Board, bs: seq<BorderStatus>, origRow: int, origCol: int, dxn: DiagonalDirection): (s: Step)
    requires OnBoard(board, bs) && IsValidCellIdx(board.rows, board.cols, origRow, origCol)
    ensures |s.0| == |bs|
    decreases PokeMeasure(board.rows, origRow, dxn.Opposite()), 0
  {
    match CellIdxAtAdjCorner(board.rows, board.cols, origRow, origCol, dxn)
    case Some((targetRow, targetCol)) =>
      OppositeFlipsSides(dxn);
      HandlePokeSpec(board, bs, targetRow, targetCol, dxn.Opposite())
    case None =>
      ArmsInRange(board.rows, board.cols, origRow, origCol, dxn);
      var arms := Arms(board.rows, board.cols, origRow, origCol, dxn);
      if |arms| >= 2 then (bs, Err(AssertionError))
      else FirstSetSpec(bs, arms, ACTIVE)
  }

  /** A poke never writes anything but UNSET borders, and reports a move exactly when it made one. */
  lemma {:induction false} HandlePokeSound(board: Board, bs: seq<BorderStatus>, row: int, col: int, dxn: DiagonalDirection)
    requires OnBoard(board, bs) && IsValidCellIdx(board.rows, board.cols, row, col)
    ensures Sound(bs, HandlePokeSpec(board, bs, row, col, dxn))
    decreases PokeMeasure(board.rows, row, dxn), 2
  {
    CornersValid(board.rows, board.cols, row, col);
    var (c1, c2) := CornerBorderIndices(board.cols, row, col, dxn);
    LoneSound(bs, c1, c2, ACTIVE, BLANK);
    var first := LoneSpec(bs, c1, c2, ACTIVE, BLANK);
    if first.1 == Ok(false) {
      ClueSound(board, first.0, row, col, dxn);
      var clue := ClueSpec(board, first.0, row, col, dxn);
      if clue.1 == Ok(false) {
        FallbackSound(board, clue.0, row, col, dxn);
      }
    }
  }

  lemma {:induction false} ClueSound(board: Board, bs: seq<BorderStatus>, row: int, col: int, dxn: DiagonalDirection)
    requires OnBoard(board, bs) && IsValidCellIdx(board.rows, board.cols, row, col)
    ensures Sound(bs, ClueSpec(board, bs, row, col, dxn))
    decreases PokeMeasure(board.rows, row, dxn), 1
  {
    CornersValid(board.rows, board.cols, row, col);
    var (o1, o2) := CornerBorderIndices(board.cols, row, col, dxn.Opposite());
    match board.cells[row][col]
    case Some(1) => SetListSound(bs, [o1, o2], BLANK);
    case Some(2) =>
      LoneSound(bs, o1, o2, BLANK, ACTIVE);
      var a := LoneSpec(bs, o1, o2, BLANK, ACTIVE);
      if a.1.Ok? {
        OppositeFlipsSides(dxn);
        InitiatePokeSound(board, a.0, row, col, dxn.Opposite());
        JoinSound(bs, a, InitiatePokeSpec(board, a.0, row, col, dxn.Opposite()));
      }
    case Some(3) => ThreeSound(board, bs, row, col, dxn);
    case _ =>
  }

  lemma {:induction false} InitiatePokeSound(board: Board, bs: seq<BorderStatus>, origRow: int, origCol: int, dxn: DiagonalDirection)
    requires OnBoard(board, bs) && IsValidCellIdx(board.rows, board.cols, origRow, origCol)
    ensures Sound(bs, InitiatePokeSpec(board, bs, origRow, origCol, dxn))
    decreases PokeMeasure(board.rows, origRow, dxn.Opposite()), 0
  {
    match CellIdxAtAdjCorner(board.rows, board.cols, origRow, origCol, dxn)
    case Some((targetRow, targetCol)) =>
      OppositeFlipsSides(dxn);
      HandlePokeSound(board, bs, targetRow, targetCol, dxn.Opposite());
    case None =>
      ArmsBounds(board.rows, board.cols, origRow, origCol, dxn);
      ArmsInRange(board.rows, board.cols, origRow, origCol, dxn);
      FirstSetSound(bs, Arms(board.rows, board.cols, origRow, origCol, dxn), ACTIVE);
  }

  lemma ThreeSound(board: Board, bs: seq<BorderStatus>, row: int, col: int, dxn: DiagonalDirection)
    requires OnBoard(board, bs) && IsValidCellIdx(board.rows, board.cols, row, col)
    ensures Sound(bs, ThreeSpec(board, bs, row, col, dxn))
  {
    var (rows, cols) := (board.rows, board.cols);
    CornersValid(rows, cols, row, col);
    ArmsInRange(rows, cols, row, col, dxn);
    var (o1, o2) := CornerBorderIndices(cols, row, col, dxn.Opposite());
    ThreeRuleSound(bs, o1, o2, Arms(rows, cols, row, col, dxn));
  }

  lemma ThreeRuleSound(bs: seq<BorderStatus>, o1: int, o2: int, arms: seq<int>)
    requires 0 <= o1 < |bs| && 0 <= o2 < |bs| && forall k | 0 <= k < |arms| :: 0 <= arms[k] < |bs|
    ensures Sound(bs, ThreeRuleSpec(bs, o1, o2, arms))
  {
    SetListSound(bs, [o1, o2], ACTIVE);
    var a := SetListSpec(bs, [o1, o2], ACTIVE);
    if a.1.Ok? {
      ArmsRuleEffect(bs, a, arms);
    }
  }

  lemma FallbackSound(board: Board, bs: seq<BorderStatus>, row: int, col: int, dxn: DiagonalDirection)
    requires OnBoard(board, bs) && IsValidCellIdx(board.rows, board.cols, row, col)
    ensures Sound(bs, FallbackSpec(board, bs, row, col, dxn))
  {
    CornersValid(board.rows, board.cols, row, col);
    var (c1, c2) := CornerBorderIndices(board.cols, row, col, dxn);
    LoneSound(bs, c1, c2, BLANK, ACTIVE);
    OtherArmsOfInRange(board.rows, board.cols, row, col, dxn, AllDiagonal);
    var other := OtherArms(board.rows, board.cols, row, col, dxn);
    FillStepSound(bs, other, ACTIVE);
    FillStepSound(bs, other, BLANK);
  }

  /** The lone-border pattern on the board. */
  method SetLone(board: Board, b1: int, b2: int, trigger: BorderStatus, st: BorderStatus) returns (r: Result<bool>)
    requires 0 <= b1 < board.borders.Length && 0 <= b2 < board.borders.Length
    modifies board.borders
    ensures (board.borders[..], r) == LoneSpec(old(board.borders[..]), b1, b2, trigger, st)
  {
    if board.borders[b1] == trigger {
      r := SetBorder.SetBorder(board, b2, st);
    } else if board.borders[b2] == trigger {
      r := SetBorder.SetBorder(board, b1, st);
    } else {
      r := Ok(false);
    }
  }

  /** The loop of initiatePoke over the arms at the grid edge. */
  method SetFirst(board: Board, idxs: seq<int>, st: BorderStatus) returns (r: Result<bool>)
    requires forall k | 0 <= k < |idxs| :: 0 <= idxs[k] < board.borders.Length
    modifies board.borders
    ensures (board.borders[..], r) == FirstSetSpec(old(board.borders[..]), idxs, st)
  {
    for n := 0 to |idxs|
      invariant FirstSetSpec(old(board.borders[..]), idxs, st) == FirstSetSpec(board.borders[..], idxs[n..], st)
    {
      assert idxs[n..][1..] == idxs[n + 1..];
      r := SetBorder.SetBorder(board, idxs[n], st);
      if r != Ok(false) {
        return;
      }
    }
    r := Ok(false);
  }

  /** The arms of every corner but dxn, collected corner by corner. */
  method CollectOtherArms(board: Board, row: int, col: int, dxn: DiagonalDirection) returns (other: seq<int>)
    requires board.cols >= 1
    ensures other == OtherArms(board.rows, board.cols, row, col, dxn)
  {
    other := [];
    for i := 0 to 4
      invariant other == OtherArmsOf(board.rows, board.cols, row, col, dxn, AllDiagonal[..i])
    {
      assert AllDiagonal[..i + 1][..i] == AllDiagonal[..i];
      var otherDxn := AllDiagonal[i];
      if otherDxn != dxn {
        other := other + Arms(board.rows, board.cols, row, col, otherDxn);
      }
    }
    assert AllDiagonal[..4] == AllDiagonal;
  }

  /** The 3-cell branch of handleCellPoke. */
  method PokeThree(board: Board, row: int, col: int, dxn: DiagonalDirection) returns (r: Result<bool>)
    requires board.WellFormed() && IsValidCellIdx(board.rows, board.cols, row, col)
    modifies board.borders
    ensures (board.borders[..], r) == ThreeSpec(board, old(board.borders[..]), row, col, dxn)
  {
    CornersValid(board.rows, board.cols, row, col);
    var (o1, o2) := CornerBorderIndices(board.cols, row, col, dxn.Opposite());
    r := SetEach(board, [o1, o2], ACTIVE);
    if r.Err? {
      return;
    }
    ArmsInRange(board.rows, board.cols, row, col, dxn);
    var arms := Arms(board.rows, board.cols, row, col, dxn);
    var countUnset, countActive, _ := GetStatusCount(board, arms);
    if countActive > 1 {
      return Err(InvalidBoard);
    }
    if countActive == 1 && countUnset > 0 {
      var found := FillUnset(board, arms, BLANK);
      r := Ok(r.value || found);
    }
  }

  /** The general rules at the end of handleCellPoke. */
  method PokeFallback(board: Board, row: int, col: int, dxn: DiagonalDirection) returns (r: Result<bool>)
    requires board.WellFormed() && IsValidCellIdx(board.rows, board.cols, row, col)
    modifies board.borders
    ensures (board.borders[..], r) == FallbackSpec(board, old(board.borders[..]), row, col, dxn)
  {
    CornersValid(board.rows, board.cols, row, col);
    var (c1, c2) := CornerBorderIndices(board.cols, row, col, dxn);
    r := SetLone(board, c1, c2, BLANK, ACTIVE);
    if r != Ok(false) {
      return;
    }
    OtherArmsOfInRange(board.rows, board.cols, row, col, dxn, AllDiagonal);
    var otherArms := CollectOtherArms(board, row, col, dxn);
    var countUnset, countActive, _ := GetStatusCount(board, otherArms);
    if countUnset == 1 {
      var newStatus := if countActive % 2 == 0 then ACTIVE else BLANK;
      var found := FillUnset(board, otherArms, newStatus);
      r := Ok(found);
    }
  }

  /** handleCellPoke on the board. */
  method HandleCellPoke(board: Board, row: int, col: int, dxn: DiagonalDirection) returns (r: Result<bool>)
    requires board.WellFormed() && IsValidCellIdx(board.rows, board.cols, row, col)
    modifies board.borders
    ensures (board.borders[..], r) == HandlePokeSpec(board, old(board.borders[..]), row, col, dxn)
    decreases PokeMeasure(board.rows, row, dxn), 2
  {
    CornersValid(board.rows, board.cols, row, col);
    var (c1, c2) := CornerBorderIndices(board.cols, row, col, dxn);
    r := SetLone(board, c1, c2, ACTIVE, BLANK);
    if r != Ok(false) {
      return;
    }
    r := PokeClue(board, row, col, dxn);
    if r != Ok(false) {
      return;
    }
    r := PokeFallback(board, row, col, dxn);
  }

  /** The clue branches of handleCellPoke. */
  method PokeClue(board: Board, row: int, col: int, dxn: DiagonalDirection) returns (r: Result<bool>)
    requires board.WellFormed() && IsValidCellIdx(board.rows, board.cols, row, col)
    modifies board.borders
    ensures (board.borders[..], r) == ClueSpec(board, old(board.borders[..]), row, col, dxn)
    decreases PokeMeasure(board.rows, row, dxn), 1
  {
    CornersValid(board.rows, board.cols, row, col);
    var (o1, o2) := CornerBorderIndices(board.cols, row, col, dxn.Opposite());
    var reqNum := board.cells[row][col];
    if reqNum == Some(1) {
      r := SetEach(board, [o1, o2], BLANK);
    } else if reqNum == Some(2) {
      r := SetLone(board, o1, o2, BLANK, ACTIVE);
      if r.Err? {
        return;
      }
      OppositeFlipsSides(dxn);
      var next := InitiatePoke(board, row, col, dxn.Opposite());
      r := if next.Err? then next else Ok(r.value || next.value);
    } else if reqNum == Some(3) {
      r := PokeThree(board, row, col, dxn);
    } else {
      r := Ok(false);
    }
  }

  /** initiatePoke on the board. */
  method InitiatePoke(board: Board, origRow: int, origCol: int, dxn: DiagonalDirection) returns (r: Result<bool>)
    requires board.WellFormed() && IsValidCellIdx(board.rows, board.cols, origRow, origCol)
    modifies board.borders
    ensures (board.borders[..], r) == InitiatePokeSpec(board, old(board.borders[..]), origRow, origCol, dxn)
    decreases PokeMeasure(board.rows, origRow, dxn.Opposite()), 0
  {
    var target := CellIdxAtAdjCorner(board.rows, board.cols, origRow, origCol, dxn);
    if target.Some? {
      OppositeFlipsSides(dxn);
      r := HandleCellPoke(board, target.value.0, target.value.1, dxn.Opposite());
    } else {
      ArmsInRange(board.rows, board.cols, origRow, origCol, dxn);
      var arms := Arms(board.rows, board.cols, origRow, origCol, dxn);
      if |arms| >= 2 {
        return Err(AssertionError);
      }
      r := SetFirst(board, arms, ACTIVE);
    }
  }

  /**
   * Filling a set J that covers the listed borders leaves none of them UNSET and adds the
   * UNSET ones to the count of the fill status.
   */
  lemma {:induction false} FillCountAt(bs: seq<BorderStatus>, idxs: seq<int>, J: seq<int>, st: BorderStatus)
    requires forall k | 0 <= k < |idxs| :: 0 <= idxs[k] < |bs| && idxs[k] in J
    requires st != UNSET
    ensures CountAt(Fill(bs, J, st), idxs, UNSET) == 0
    ensures CountAt(Fill(bs, J, st), idxs, ACTIVE) == CountAt(bs, idxs, ACTIVE) + (if st == ACTIVE then CountAt(bs, idxs, UNSET) else 0)
  {
    if idxs != [] {
      FillCountAt(bs, idxs[..|idxs| - 1], J, st);
    }
  }

  /**
   * An ACTIVE border at the poked corner: the other border of that corner is blanked and the
   * call ends there, with a move when it was UNSET and InvalidBoard when it was ACTIVE too.
   */
  lemma PokeAtActiveCorner(board: Board, bs: seq<BorderStatus>, row: int, col: int, dxn: DiagonalDirection)
    requires OnBoard(board, bs) && IsValidCellIdx(board.rows, board.cols, row, col)
    ensures var (c1, c2) := CornerBorderIndices(board.cols, row, col, dxn);
            0 <= c1 < |bs| && 0 <= c2 < |bs| && c1 != c2
            && (bs[c1] == ACTIVE && bs[c2] == UNSET ==> HandlePokeSpec(board, bs, row, col, dxn) == (bs[c2 := BLANK], Ok(true)))
            && (bs[c2] == ACTIVE && bs[c1] == UNSET ==> HandlePokeSpec(board, bs, row, col, dxn) == (bs[c1 := BLANK], Ok(true)))
            && (bs[c1] == ACTIVE && bs[c2] == ACTIVE ==> HandlePokeSpec(board, bs, row, col, dxn).1 == Err(InvalidBoard))
  {
    CornersValid(board.rows, board.cols, row, col);
    CellBordersValid(board.rows, board.cols, row, col);
  }

  /**
   * With no ACTIVE border at the poked corner the first rule finds nothing, so the call is
   * the clue's rule followed, when that finds nothing either, by the general rules: an
   * exception in the clue's rule ends the call, and its writes stay in place.
   */
  lemma AfterClue(board: Board, bs: seq<BorderStatus>, row: int, col: int, dxn: DiagonalDirection)
    requires OnBoard(board, bs) && IsValidCellIdx(board.rows, board.cols, row, col)
    requires var (c1, c2) := CornerBorderIndices(board.cols, row, col, dxn);
             0 <= c1 < |bs| && 0 <= c2 < |bs| && bs[c1] != ACTIVE && bs[c2] != ACTIVE
    ensures var clue := ClueSpec(board, bs, row, col, dxn);
            var s := HandlePokeSpec(board, bs, row, col, dxn);
            (clue.1.Err? ==> s == clue) && (s.1.Ok? ==> clue.1.Ok? && Grows(clue.0, s.0))
  {
    CornersValid(board.rows, board.cols, row, col);
    var clue := ClueSpec(board, bs, row, col, dxn);
    if clue.1 == Ok(false) {
      FallbackSound(board, clue.0, row, col, dxn);
    }
  }

  /**
   * A poked 1-cell with no ACTIVE border at the poked corner: its one loop border is at that
   * corner, so the opposite corner ends BLANK; an ACTIVE border there makes the board invalid.
   */
  lemma Poked1Cell(board: Board, bs: seq<BorderStatus>, row: int, col: int, dxn: DiagonalDirection)
    requires OnBoard(board, bs) && IsValidCellIdx(board.rows, board.cols, row, col)
    requires board.cells[row][col] == Some(1)
    requires var (c1, c2) := CornerBorderIndices(board.cols, row, col, dxn);
             0 <= c1 < |bs| && 0 <= c2 < |bs| && bs[c1] != ACTIVE && bs[c2] != ACTIVE
    ensures var (o1, o2) := CornerBorderIndices(board.cols, row, col, dxn.Opposite());
            var s := HandlePokeSpec(board, bs, row, col, dxn);
            0 <= o1 < |bs| && 0 <= o2 < |bs|
            && (bs[o1] == ACTIVE || bs[o2] == ACTIVE ==> s.1 == Err(InvalidBoard))
            && (s.1.Ok? ==> s.0[o1] == BLANK && s.0[o2] == BLANK)
  {
    CornersValid(board.rows, board.cols, row, col);
    var (o1, o2) := CornerBorderIndices(board.cols, row, col, dxn.Opposite());
    SetListSound(bs, [o1, o2], BLANK);
    AfterClue(board, bs, row, col, dxn);
  }

  /**
   * A poked 2-cell with no ACTIVE border at the poked corner: a BLANK border at the opposite
   * corner makes the other one ACTIVE, and the poke always travels on to the diagonal
   * neighbour through the opposite corner: its failure fails the call, and its writes stay.
   */
  lemma Poked2Cell(board: Board, bs: seq<BorderStatus>, row: int, col: int, dxn: DiagonalDirection)
    requires OnBoard(board, bs) && IsValidCellIdx(board.rows, board.cols, row, col)
    requires board.cells[row][col] == Some(2)
    requires var (c1, c2) := CornerBorderIndices(board.cols, row, col, dxn);
             0 <= c1 < |bs| && 0 <= c2 < |bs| && bs[c1] != ACTIVE && bs[c2] != ACTIVE
    ensures var (o1, o2) := CornerBorderIndices(board.cols, row, col, dxn.Opposite());
            var s := HandlePokeSpec(board, bs, row, col, dxn);
            0 <= o1 < |bs| && 0 <= o2 < |bs|
            && (bs[o1] == BLANK && s.1.Ok? ==> s.0[o2] == ACTIVE)
            && (bs[o2] == BLANK && s.1.Ok? ==> s.0[o1] == ACTIVE)
            && var a := LoneSpec(bs, o1, o2, BLANK, ACTIVE);
               a.1.Ok? ==>
                 var next := InitiatePokeSpec(board, a.0, row, col, dxn.Opposite());
                 (next.1.Err? ==> s.1 == next.1) && (s.1.Ok? ==> Grows(next.0, s.0))
  {
    CornersValid(board.rows, board.cols, row, col);
    var (o1, o2) := CornerBorderIndices(board.cols, row, col, dxn.Opposite());
    AfterClue(board, bs, row, col, dxn);
    Lone2Effect(board, bs, row, col, dxn, o1, o2);
  }

  /** The 2-cell clue rule on its own: the lone border, then the propagated poke. */
  lemma Lone2Effect(board: Board, bs: seq<BorderStatus>, row: int, col: int, dxn: DiagonalDirection, o1: int, o2: int)
    requires OnBoard(board, bs) && IsValidCellIdx(board.rows, board.cols, row, col)
    requires board.cells[row][col] == Some(2)
    requires (o1, o2) == CornerBorderIndices(board.cols, row, col, dxn.Opposite())
    ensures var clue := ClueSpec(board, bs, row, col, dxn);
            0 <= o1 < |bs| && 0 <= o2 < |bs|
            && (bs[o1] == BLANK && clue.1.Ok? ==> clue.0[o2] == ACTIVE)
            && (bs[o2] == BLANK && clue.1.Ok? ==> clue.0[o1] == ACTIVE)
            && var a := LoneSpec(bs, o1, o2, BLANK, ACTIVE);
               a.1.Ok? ==>
                 var next := InitiatePokeSpec(board, a.0, row, col, dxn.Opposite());
                 (next.1.Err? ==> clue.1 == next.1) && (clue.1.Ok? ==> next.0 == clue.0)
  {
    CornersValid(board.rows, board.cols, row, col);
    var a := LoneSpec(bs, o1, o2, BLANK, ACTIVE);
    SetSpecSound(bs, o1, ACTIVE);
    SetSpecSound(bs, o2, ACTIVE);
    if a.1.Ok? {
      OppositeFlipsSides(dxn);
      InitiatePokeSound(board, a.0, row, col, dxn.Opposite());
    }
  }

  /** The corner borders of a cell are among its four sides. */
  lemma CornerIsSide(cols: int, row: int, col: int, dxn: DiagonalDirection)
    ensures CornerBorderIndices(cols, row, col, dxn).0 in CellBorderSeq(cols, row, col)
    ensures CornerBorderIndices(cols, row, col, dxn).1 in CellBorderSeq(cols, row, col)
  {
    assert CellBorderSeq(cols, row, col)[CardinalValue(if dxn.IsUpper() then TOP else BOT)]
           == CornerBorderIndices(cols, row, col, dxn).0;
    assert CellBorderSeq(cols, row, col)[CardinalValue(if dxn.IsLeft() then LEFT else RIGHT)]
           == CornerBorderIndices(cols, row, col, dxn).1;
  }

  /**
   * The 3-cell clue rule on its own: the opposite corner ends ACTIVE, two ACTIVE arms at the
   * poked corner raise, and one ACTIVE arm leaves no UNSET arm there.
   */
  lemma ThreeEffect(board: Board, bs: seq<BorderStatus>, row: int, col: int, dxn: DiagonalDirection)
    requires OnBoard(board, bs) && IsValidCellIdx(board.rows, board.cols, row, col)
    ensures var (o1, o2) := CornerBorderIndices(board.cols, row, col, dxn.Opposite());
            var arms := Arms(board.rows, board.cols, row, col, dxn);
            var s := ThreeSpec(board, bs, row, col, dxn);
            0 <= o1 < |bs| && 0 <= o2 < |bs|
            && (forall k | 0 <= k < |arms| :: 0 <= arms[k] < |bs|)
            && (s.1.Ok? ==> s.0[o1] == ACTIVE && s.0[o2] == ACTIVE)
            && (CountAt(bs, arms, ACTIVE) > 1 ==> s.1 == Err(InvalidBoard))
            && (CountAt(bs, arms, ACTIVE) == 1 && s.1.Ok? ==> CountAt(s.0, arms, UNSET) == 0)
  {
    var (rows, cols) := (board.rows, board.cols);
    CornersValid(rows, cols, row, col);
    ArmsInRange(rows, cols, row, col, dxn);
    ArmsBounds(rows, cols, row, col, dxn);
    CornerIsSide(cols, row, col, dxn.Opposite());
    var (o1, o2) := CornerBorderIndices(cols, row, col, dxn.Opposite());
    ThreeRuleEffect(bs, o1, o2, Arms(rows, cols, row, col, dxn));
  }

  /** The 3-cell rule on arms that miss o1 and o2. */
  lemma ThreeRuleEffect(bs: seq<BorderStatus>, o1: int, o2: int, arms: seq<int>)
    requires 0 <= o1 < |bs| && 0 <= o2 < |bs| && forall k | 0 <= k < |arms| :: 0 <= arms[k] < |bs|
    requires o1 !in arms && o2 !in arms
    ensures var s := ThreeRuleSpec(bs, o1, o2, arms);
            (s.1.Ok? ==> s.0[o1] == ACTIVE && s.0[o2] == ACTIVE)
            && (CountAt(bs, arms, ACTIVE) > 1 ==> s.1 == Err(InvalidBoard))
            && (CountAt(bs, arms, ACTIVE) == 1 && s.1.Ok? ==> CountAt(s.0, arms, UNSET) == 0)
  {
    SetListSound(bs, [o1, o2], ACTIVE);
    var a := SetListSpec(bs, [o1, o2], ACTIVE);
    if a.1.Ok? {
      forall k | 0 <= k < |arms| ensures a.0[arms[k]] == bs[arms[k]] {
        assert arms[k] in arms;
      }
      CountAtSame(a.0, bs, arms, ACTIVE);
      ArmsRuleEffect(bs, a, arms);
    }
  }

  /**
   * A poked 3-cell with no ACTIVE border at the poked corner: both borders of the opposite
   * corner end ACTIVE; more than one ACTIVE arm at the poked corner makes the board invalid,
   * and exactly one leaves no UNSET arm there.
   */
  lemma Poked3Cell(board: Board, bs: seq<BorderStatus>, row: int, col: int, dxn: DiagonalDirection)
    requires OnBoard(board, bs) && IsValidCellIdx(board.rows, board.cols, row, col)
    requires board.cells[row][col] == Some(3)
    requires var (c1, c2) := CornerBorderIndices(board.cols, row, col, dxn);
             0 <= c1 < |bs| && 0 <= c2 < |bs| && bs[c1] != ACTIVE && bs[c2] != ACTIVE
    ensures var (o1, o2) := CornerBorderIndices(board.cols, row, col, dxn.Opposite());
            var arms := Arms(board.rows, board.cols, row, col, dxn);
            var s := HandlePokeSpec(board, bs, row, col, dxn);
            0 <= o1 < |bs| && 0 <= o2 < |bs|
            && (forall k | 0 <= k < |arms| :: 0 <= arms[k] < |bs|)
            && (s.1.Ok? ==> s.0[o1] == ACTIVE && s.0[o2] == ACTIVE)
            && (CountAt(bs, arms, ACTIVE) > 1 ==> s.1 == Err(InvalidBoard))
            && (CountAt(bs, arms, ACTIVE) == 1 && s.1.Ok? ==> forall k | 0 <= k < |arms| :: s.0[arms[k]] != UNSET)
  {
    ThreeEffect(board, bs, row, col, dxn);
    AfterClue(board, bs, row, col, dxn);
    CornersValid(board.rows, board.cols, row, col);
    ArmsInRange(board.rows, board.cols, row, col, dxn);
    var (o1, o2) := CornerBorderIndices(board.cols, row, col, dxn.Opposite());
    var clue := ClueSpec(board, bs, row, col, dxn);
    assert clue == ThreeSpec(board, bs, row, col, dxn);
    ThreeThenRest(bs, clue, HandlePokeSpec(board, bs, row, col, dxn), o1, o2, Arms(board.rows, board.cols, row, col, dxn));
  }

  /** What the 3-cell rule leaves in place survives the rest of the call. */
  lemma ThreeThenRest(bs: seq<BorderStatus>, clue: Step, s: Step, o1: int, o2: int, arms: seq<int>)
    requires |clue.0| == |bs| && 0 <= o1 < |bs| && 0 <= o2 < |bs|
    requires forall k | 0 <= k < |arms| :: 0 <= arms[k] < |bs|
    requires (clue.1.Err? ==> s == clue) && (s.1.Ok? ==> clue.1.Ok? && Grows(clue.0, s.0))
    requires clue.1.Ok? ==> clue.0[o1] == ACTIVE && clue.0[o2] == ACTIVE
    requires CountAt(bs, arms, ACTIVE) > 1 ==> clue.1 == Err(InvalidBoard)
    requires CountAt(bs, arms, ACTIVE) == 1 && clue.1.Ok? ==> CountAt(clue.0, arms, UNSET) == 0
    ensures s.1.Ok? ==> s.0[o1] == ACTIVE && s.0[o2] == ACTIVE
    ensures CountAt(bs, arms, ACTIVE) > 1 ==> s.1 == Err(InvalidBoard)
    ensures CountAt(bs, arms, ACTIVE) == 1 && s.1.Ok? ==> forall k | 0 <= k < |arms| :: s.0[arms[k]] != UNSET
  {
    if CountAt(bs, arms, ACTIVE) == 1 && s.1.Ok? {
      CountAtZero(clue.0, arms, UNSET);
    }
  }

  /**
   * The general rule for the other three corners: when it fires, none of their arms is left
   * UNSET and an odd number of them is ACTIVE, so that with the one border entering at the
   * poked corner the loop crosses the cell's corners an even number of times.
   */
  lemma FallbackParity(board: Board, bs: seq<BorderStatus>, row: int, col: int, dxn: DiagonalDirection)
    requires OnBoard(board, bs) && IsValidCellIdx(board.rows, board.cols, row, col)
    requires var (c1, c2) := CornerBorderIndices(board.cols, row, col, dxn);
             0 <= c1 < |bs| && 0 <= c2 < |bs| && bs[c1] != BLANK && bs[c2] != BLANK
    ensures var other := OtherArms(board.rows, board.cols, row, col, dxn);
            var s := FallbackSpec(board, bs, row, col, dxn);
            (forall k | 0 <= k < |other| :: 0 <= other[k] < |bs|)
            && (CountAt(bs, other, UNSET) == 1 ==>
                  s.1 == Ok(true) && CountAt(s.0, other, UNSET) == 0 && CountAt(s.0, other, ACTIVE) % 2 == 1)
            && (CountAt(bs, other, UNSET) != 1 ==> s == (bs, Ok(false)))
  {
    var (rows, cols) := (board.rows, board.cols);
    CornersValid(rows, cols, row, col);
    OtherArmsOfInRange(rows, cols, row, col, dxn, AllDiagonal);
    var (c1, c2) := CornerBorderIndices(cols, row, col, dxn);
    assert LoneSpec(bs, c1, c2, BLANK, ACTIVE) == (bs, Ok(false));
    OtherArmsParity(bs, OtherArms(rows, cols, row, col, dxn));
  }

  /** The other-arms rule on any list of borders. */
  lemma OtherArmsParity(bs: seq<BorderStatus>, other: seq<int>)
    requires forall k | 0 <= k < |other| :: 0 <= other[k] < |bs|
    ensures var s := OtherArmsRuleSpec(bs, other);
            (CountAt(bs, other, UNSET) == 1 ==>
               s.1 == Ok(true) && CountAt(s.0, other, UNSET) == 0 && CountAt(s.0, other, ACTIVE) % 2 == 1)
            && (CountAt(bs, other, UNSET) != 1 ==> s == (bs, Ok(false)))
  {
    var n := CountAt(bs, other, ACTIVE);
    if CountAt(bs, other, UNSET) == 1 {
      var st := if n % 2 == 0 then ACTIVE else BLANK;
      FillCountAt(bs, other, other, st);
      CountAtZero(bs, other, UNSET);
      Parity(n, CountAt(Fill(bs, other, st), other, ACTIVE), st == ACTIVE);
    }
  }

  /** Adding one to an even count, and nothing to an odd one, gives an odd count. */
  lemma Parity(n: int, m: int, even: bool)
    requires even <==> n % 2 == 0
    requires m == n + (if even then 1 else 0)
    ensures m % 2 == 1
  {
  }

  /**
   * initiatePoke at the grid edge: the corner has at most one arm, so the assertion holds;
   * on a return that arm is ACTIVE, and a BLANK arm makes the board invalid.
   */
  lemma InitiateAtEdge(board: Board, bs: seq<BorderStatus>, origRow: int, origCol: int, dxn: DiagonalDirection)
    requires OnBoard(board, bs) && IsValidCellIdx(board.rows, board.cols, origRow, origCol)
    requires CellIdxAtAdjCorner(board.rows, board.cols, origRow, origCol, dxn).None?
    ensures var arms := Arms(board.rows, board.cols, origRow, origCol, dxn);
            var s := InitiatePokeSpec(board, bs, origRow, origCol, dxn);
            |arms| <= 1 && s.1 != Err(AssertionError)
            && (forall k | 0 <= k < |arms| :: 0 <= arms[k] < |bs|
                  && (s.1.Ok? ==> s.0[arms[k]] == ACTIVE)
                  && (bs[arms[k]] == BLANK ==> s.1 == Err(InvalidBoard)))
  {
    ArmsBounds(board.rows, board.cols, origRow, origCol, dxn);
    ArmsInRange(board.rows, board.cols, origRow, origCol, dxn);
    var arms := Arms(board.rows, board.cols, origRow, origCol, dxn);
    assert InitiatePokeSpec(board, bs, origRow, origCol, dxn) == FirstSetSpec(bs, arms, ACTIVE);
    if |arms| == 1 {
      assert arms[1..] == [];
      var a := SetSpec(bs, arms[0], ACTIVE);
      assert a.1 == Ok(false) ==> FirstSetSpec(bs, arms, ACTIVE) == NoMove(bs);
    }
  }
}
