/**
 * Continuous UNSET borders: at a corner of a clued cell whose two borders are UNSET and
 * whose arms are all BLANK, the loop can only use both borders or neither, so the pair is
 * settled together according to the clue.
 */
module ContUnset {
  import opened Outcomes
  import opened Enums
  import opened BoardTools
  import opened BoardModel
  import opened SetBorder
  import opened CellInfoModel
  import opened Poke

  /**
   * handleSmoothCorner, whose body is not part of this model: any rule on (borders, row, col,
   * corner) that only fills UNSET borders, reports a move exactly when it made one and raises
   * only InvalidBoard.
   */
  type SmoothRule = f: (seq<BorderStatus>, int, int, DiagonalDirection) -> Step
    | forall bs, row, col, dxn :: Sound(bs, f(bs, row, col, dxn))
    witness (bs: seq<BorderStatus>, row: int, col: int, dxn: DiagonalDirection) => (bs, Ok(false))

  /** A corner whose two borders are UNSET and whose arms are all BLANK. */
  predicate IsContUnsetCorner(board: Board, bs: seq<BorderStatus>, row: int, col: int, dxn: DiagonalDirection)
    requires OnBoard(board, bs) && IsValidCellIdx(board.rows, board.cols, row, col)
  {
    CornersValid(board.rows, board.cols, row, col);
    ArmsInRange(board.rows, board.cols, row, col, dxn);
    var (c1, c2) := CornerBorderIndices(board.cols, row, col, dxn);
    var arms := Arms(board.rows, board.cols, row, col, dxn);
    bs[c1] == UNSET && bs[c2] == UNSET && forall k | 0 <= k < |arms| :: bs[arms[k]] == BLANK
  }

  /** The flag of each corner among ds, in the order of ds. */
  function CornerFlagsOf(board: Board, bs: seq<BorderStatus>, row: int, col: int, ds: seq<DiagonalDirection>): (flags: seq<bool>)
    requires OnBoard(board, bs) && IsValidCellIdx(board.rows, board.cols, row, col)
    ensures |flags| == |ds|
    ensures forall j | 0 <= j < |ds| :: flags[j] == IsContUnsetCorner(board, bs, row, col, ds[j])
  {
    seq(|ds|, j requires 0 <= j < |ds| => IsContUnsetCorner(board, bs, row, col, ds[j]))
  }

  /** The number of true flags. */
  function CountTrue(flags: seq<bool>): (n: nat)
    ensures n <= |flags|
  {
    if flags == [] then 0
    else CountTrue(flags[..|flags| - 1]) + (if flags[|flags| - 1] then 1 else 0)
  }

  /** No flag is set exactly when the count is 0, and every flag is set exactly when it is the length. */
  lemma {:induction false} CountTrueExtremes(flags: seq<bool>)
    ensures CountTrue(flags) == 0 <==> forall j | 0 <= j < |flags| :: !flags[j]
    ensures CountTrue(flags) == |flags| <==> forall j | 0 <= j < |flags| :: flags[j]
  {
    if flags != [] {
      var n := |flags| - 1;
      CountTrueExtremes(flags[..n]);
      assert forall j | 0 <= j < n :: flags[..n][j] == flags[j];
    }
  }

  /** The settled status of a continuous pair at a 1-cell (BLANK) and a 3-cell (ACTIVE). */
  function OddClueStatus(clue: int): (st: BorderStatus)
    ensures st != UNSET
  {
    if clue == 1 then BLANK else ACTIVE
  }

  /** Both borders of the corner are borders of the board with status st. */
  ghost predicate CornerSettled(board: Board, bs: seq<BorderStatus>, row: int, col: int, dxn: DiagonalDirection, st: BorderStatus)
  {
    var (c1, c2) := CornerBorderIndices(board.cols, row, col, dxn);
    0 <= c1 < |bs| && 0 <= c2 < |bs| && bs[c1] == st && bs[c2] == st
  }

  /** A settled corner stays settled as the board grows. */
  lemma SettledGrows(board: Board, a: seq<BorderStatus>, b: seq<BorderStatus>, row: int, col: int, dxn: DiagonalDirection, st: BorderStatus)
    requires CornerSettled(board, a, row, col, dxn, st) && st != UNSET && Grows(a, b)
    ensures CornerSettled(board, b, row, col, dxn, st)
  {
  }

  /** Both borders of a corner get status st, the second only when the first one did. */
  lemma PairSetSound(board: Board, bs: seq<BorderStatus>, row: int, col: int, dxn: DiagonalDirection, st: BorderStatus)
    requires OnBoard(board, bs) && IsValidCellIdx(board.rows, board.cols, row, col) && st != UNSET
    ensures var (c1, c2) := CornerBorderIndices(board.cols, row, col, dxn);
            0 <= c1 < |bs| && 0 <= c2 < |bs|
            && var s := SetListSpec(bs, [c1, c2], st);
               Sound(bs, s) && (s.1.Err? ==> s.1 == Err(InvalidBoard))
               && (s.1.Ok? ==> CornerSettled(board, s.0, row, col, dxn, st))
  {
    CornersValid(board.rows, board.cols, row, col);
    var (c1, c2) := CornerBorderIndices(board.cols, row, col, dxn);
    SetListSound(bs, [c1, c2], st);
    assert [c1, c2][0] == c1 && [c1, c2][1] == c2;
  }

  /**
   * One flagged corner of a 1-cell (smooth it, poke the opposite corner, blank the pair) or
   * of a 3-cell (make the pair ACTIVE, smooth it, poke the opposite corner); a move is
   * reported whatever the calls returned.
   */
  function OddCornerSpec(board: Board, bs: seq<BorderStatus>, row: int, col: int, dxn: DiagonalDirection,
                         clue: int, smooth: SmoothRule): (s: Step)
    requires OnBoard(board, bs) && IsValidCellIdx(board.rows, board.cols, row, col)
    ensures |s.0| == |bs|
  {
    CornersValid(board.rows, board.cols, row, col);
    var (c1, c2) := CornerBorderIndices(board.cols, row, col, dxn);
    if clue == 1 then
      var a := smooth(bs, row, col, dxn);
      if a.1.Err? then a
      else
        var b := InitiatePokeSpec(board, a.0, row, col, dxn.Opposite());
        if b.1.Err? then b
        else
          var c := SetListSpec(b.0, [c1, c2], BLANK);
          if c.1.Err? then c else (c.0, Ok(true))
    else
      var a := SetListSpec(bs, [c1, c2], ACTIVE);
      if a.1.Err? then a
      else
        var b := smooth(a.0, row, col, dxn);
        if b.1.Err? then b
        else
          var c := InitiatePokeSpec(board, b.0, row, col, dxn.Opposite());
          if c.1.Err? then c else (c.0, Ok(true))
  }

  /** _process1Cell and _process3Cell: every flagged corner from index i on, in order. */
  function OddCellSpec(board: Board, bs: seq<BorderStatus>, row: int, col: int, flags: seq<bool>, i: int,
                       clue: int, smooth: SmoothRule): (s: Step)
    requires OnBoard(board, bs) && IsValidCellIdx(board.rows, board.cols, row, col)
    requires |flags| == 4 && 0 <= i <= 4
    ensures |s.0| == |bs|
    decreases 4 - i
  {
    if i == 4 then NoMove(bs)
    else if !flags[i] then OddCellSpec(board, bs, row, col, flags, i + 1, clue, smooth)
    else
      var a := OddCornerSpec(board, bs, row, col, AllDiagonal[i], clue, smooth);
      if a.1.Err? then a
      else Join(a, OddCellSpec(board, a.0, row, col, flags, i + 1, clue, smooth))
  }

  /**
   * _process2Cell from index i on: at the first flagged corner, smooth it and the opposite
   * corner; then two BLANK borders in the cell's snapshot make the pair ACTIVE and two
   * ACTIVE ones make it BLANK, which ends the call with a move; otherwise go on.
   */
  function TwoCellSpec(board: Board, bs: seq<BorderStatus>, row: int, col: int, flags: seq<bool>, i: int,
                       activeCount: int, blankCount: int, smooth: SmoothRule): (s: Step)
    requires OnBoard(board, bs) && IsValidCellIdx(board.rows, board.cols, row, col)
    requires |flags| == 4 && 0 <= i <= 4
    ensures |s.0| == |bs|
    decreases 4 - i
  {
    if i == 4 then NoMove(bs)
    else if !flags[i] then TwoCellSpec(board, bs, row, col, flags, i + 1, activeCount, blankCount, smooth)
    else
      var dxn := AllDiagonal[i];
      var a := smooth(bs, row, col, dxn);
      if a.1.Err? then a
      else
        var b := smooth(a.0, row, col, dxn.Opposite());
        if b.1.Err? then b
        else if blankCount > 1 || activeCount > 1 then
          CornersValid(board.rows, board.cols, row, col);
          var (c1, c2) := CornerBorderIndices(board.cols, row, col, dxn);
          var c := SetListSpec(b.0, [c1, c2], if blankCount > 1 then ACTIVE else BLANK);
          if c.1.Err? then c else (c.0, Ok(true))
        else TwoCellSpec(board, b.0, row, col, flags, i + 1, activeCount, blankCount, smooth)
  }

  /**
   * checkCellForContinuousUnsetBorders, given the cell's snapshot (clue and border counts):
   * nothing with fewer than two UNSET borders or no positive clue, or with no continuous
   * corner; InvalidBoard with four; otherwise the rule of the clue, and AssertionError for a
   * clue other than 1, 2 or 3.
   */
  function ContUnsetSpec(board: Board, bs: seq<BorderStatus>, row: int, col: int, reqNum: Option<int>,
                         unsetCount: int, activeCount: int, blankCount: int, smooth: SmoothRule): (s: Step)
    requires OnBoard(board, bs) && IsValidCellIdx(board.rows, board.cols, row, col)
    ensures |s.0| == |bs|
  {
    if unsetCount < 2 then NoMove(bs)
    else if reqNum.None? || reqNum.value == 0 then NoMove(bs)
    else
      var flags := CornerFlagsOf(board, bs, row, col, AllDiagonal);
      var count := CountTrue(flags);
      if count == 0 then NoMove(bs)
      else if count == 4 then (bs, Err(InvalidBoard))
      else if reqNum.value == 1 || reqNum.value == 3 then OddCellSpec(board, bs, row, col, flags, 0, reqNum.value, smooth)
      else if reqNum.value == 2 then TwoCellSpec(board, bs, row, col, flags, 0, activeCount, blankCount, smooth)
      else (bs, Err(AssertionError))
  }

  // ---------------------------------------------------------------------------------------
  // What the rules do
  // ---------------------------------------------------------------------------------------

  /** One flagged corner: on a return the pair has the clue's status and a move is reported. */
  lemma OddCornerEffect(board: Board, bs: seq<BorderStatus>, row: int, col: int, dxn: DiagonalDirection,
                        clue: int, smooth: SmoothRule)
    requires OnBoard(board, bs) && IsValidCellIdx(board.rows, board.cols, row, col)
    ensures var s := OddCornerSpec(board, bs, row, col, dxn, clue, smooth);
            Grows(bs, s.0) && (s.1.Err? ==> s.1 == Err(InvalidBoard))
            && (s.1.Ok? ==> s.1 == Ok(true) && CornerSettled(board, s.0, row, col, dxn, OddClueStatus(clue)))
  {
    if clue == 1 {
      BlankCornerEffect(board, bs, row, col, dxn, smooth);
    } else {
      ActiveCornerEffect(board, bs, row, col, dxn, clue, smooth);
    }
  }

  /** A 1-cell corner: smooth, poke, then blank the pair. */
  lemma BlankCornerEffect(board: Board, bs: seq<BorderStatus>, row: int, col: int, dxn: DiagonalDirection, smooth: SmoothRule)
    requires OnBoard(board, bs) && IsValidCellIdx(board.rows, board.cols, row, col)
    ensures var s := OddCornerSpec(board, bs, row, col, dxn, 1, smooth);
            Grows(bs, s.0) && (s.1.Err? ==> s.1 == Err(InvalidBoard))
            && (s.1.Ok? ==> s.1 == Ok(true) && CornerSettled(board, s.0, row, col, dxn, BLANK))
  {
    CornersValid(board.rows, board.cols, row, col);
    var a := smooth(bs, row, col, dxn);
    assert Sound(bs, a);
    if a.1.Ok? {
      InitiatePokeSound(board, a.0, row, col, dxn.Opposite());
      var b := InitiatePokeSpec(board, a.0, row, col, dxn.Opposite());
      if b.1.Ok? {
        PairSetSound(board, b.0, row, col, dxn, BLANK);
      }
    }
  }

  /** A 3-cell corner: make the pair ACTIVE, then smooth and poke, which keep it. */
  lemma ActiveCornerEffect(board: Board, bs: seq<BorderStatus>, row: int, col: int, dxn: DiagonalDirection,
                           clue: int, smooth: SmoothRule)
    requires OnBoard(board, bs) && IsValidCellIdx(board.rows, board.cols, row, col) && clue != 1
    ensures var s := OddCornerSpec(board, bs, row, col, dxn, clue, smooth);
            Grows(bs, s.0) && (s.1.Err? ==> s.1 == Err(InvalidBoard))
            && (s.1.Ok? ==> s.1 == Ok(true) && CornerSettled(board, s.0, row, col, dxn, ACTIVE))
  {
    CornersValid(board.rows, board.cols, row, col);
    PairSetSound(board, bs, row, col, dxn, ACTIVE);
    var (c1, c2) := CornerBorderIndices(board.cols, row, col, dxn);
    var a := SetListSpec(bs, [c1, c2], ACTIVE);
    if a.1.Ok? {
      var b := smooth(a.0, row, col, dxn);
      assert Sound(a.0, b);
      if b.1.Ok? {
        InitiatePokeSound(board, b.0, row, col, dxn.Opposite());
        var c := InitiatePokeSpec(board, b.0, row, col, dxn.Opposite());
        SettledGrows(board, a.0, b.0, row, col, dxn, ACTIVE);
        if c.1.Ok? {
          SettledGrows(board, b.0, c.0, row, col, dxn, ACTIVE);
        }
      }
    }
  }

  /**
   * The 1-cell and 3-cell rules from index i on: a move is reported exactly when some corner
   * from i on is flagged, and on a return every such corner's pair has the clue's status.
   */
  lemma {:induction false} OddCellEffect(board: Board, bs: seq<BorderStatus>, row: int, col: int, flags: seq<bool>, i: int,
                                         clue: int, smooth: SmoothRule)
    requires OnBoard(board, bs) && IsValidCellIdx(board.rows, board.cols, row, col)
    requires |flags| == 4 && 0 <= i <= 4
    ensures var s := OddCellSpec(board, bs, row, col, flags, i, clue, smooth);
            Grows(bs, s.0) && (s.1.Err? ==> s.1 == Err(InvalidBoard))
            && (s.1.Ok? ==> (s.1.value <==> exists j | i <= j < 4 :: flags[j]))
            && (s.1.Ok? ==> forall j | i <= j < 4 && flags[j] ::
                              CornerSettled(board, s.0, row, col, AllDiagonal[j], OddClueStatus(clue)))
    decreases 4 - i
  {
    if i < 4 {
      if !flags[i] {
        OddCellEffect(board, bs, row, col, flags, i + 1, clue, smooth);
      } else {
        OddCornerEffect(board, bs, row, col, AllDiagonal[i], clue, smooth);
        var a := OddCornerSpec(board, bs, row, col, AllDiagonal[i], clue, smooth);
        if a.1.Ok? {
          OddCellEffect(board, a.0, row, col, flags, i + 1, clue, smooth);
          var b := OddCellSpec(board, a.0, row, col, flags, i + 1, clue, smooth);
          if b.1.Ok? {
            SettledGrows(board, a.0, b.0, row, col, AllDiagonal[i], OddClueStatus(clue));
          }
        }
      }
    }
  }

  /**
   * The 2-cell rule from index i on: a move is reported exactly when some corner from i on is
   * flagged and the snapshot has more than one BLANK or more than one ACTIVE border; then a
   * flagged corner's pair is ACTIVE (BLANK borders) or BLANK (ACTIVE borders).
   */
  lemma {:induction false} TwoCellEffect(board: Board, bs: seq<BorderStatus>, row: int, col: int, flags: seq<bool>, i: int,
                                         activeCount: int, blankCount: int, smooth: SmoothRule)
    requires OnBoard(board, bs) && IsValidCellIdx(board.rows, board.cols, row, col)
    requires |flags| == 4 && 0 <= i <= 4
    ensures var s := TwoCellSpec(board, bs, row, col, flags, i, activeCount, blankCount, smooth);
            Grows(bs, s.0) && (s.1.Err? ==> s.1 == Err(InvalidBoard))
            && (s.1.Ok? ==> (s.1.value <==> (exists j | i <= j < 4 :: flags[j]) && (blankCount > 1 || activeCount > 1)))
            && (s.1 == Ok(true) ==>
                  exists j | i <= j < 4 :: (flags[j]
                    && CornerSettled(board, s.0, row, col, AllDiagonal[j], if blankCount > 1 then ACTIVE else BLANK)))
    decreases 4 - i
  {
    if i < 4 {
      if !flags[i] {
        TwoCellEffect(board, bs, row, col, flags, i + 1, activeCount, blankCount, smooth);
      } else {
        var dxn := AllDiagonal[i];
        var a := smooth(bs, row, col, dxn);
        assert Sound(bs, a);
        if a.1.Ok? {
          var b := smooth(a.0, row, col, dxn.Opposite());
          assert Sound(a.0, b);
          if b.1.Ok? {
            if blankCount > 1 || activeCount > 1 {
              PairSetSound(board, b.0, row, col, dxn, if blankCount > 1 then ACTIVE else BLANK);
            } else {
              TwoCellEffect(board, b.0, row, col, flags, i + 1, activeCount, blankCount, smooth);
            }
          }
        }
      }
    }
  }

  /** The flags name the continuous corners, and the count tells none and all apart. */
  lemma FlagsMeaning(board: Board, bs: seq<BorderStatus>, row: int, col: int)
    requires OnBoard(board, bs) && IsValidCellIdx(board.rows, board.cols, row, col)
    ensures var flags := CornerFlagsOf(board, bs, row, col, AllDiagonal);
            (forall j | 0 <= j < 4 :: flags[j] == IsContUnsetCorner(board, bs, row, col, AllDiagonal[j]))
            && (CountTrue(flags) == 0 <==> forall d :: !IsContUnsetCorner(board, bs, row, col, d))
            && (CountTrue(flags) == 4 <==> forall d :: IsContUnsetCorner(board, bs, row, col, d))
  {
    var flags := CornerFlagsOf(board, bs, row, col, AllDiagonal);
    CountTrueExtremes(flags);
    forall d ensures flags[DiagonalValue(d)] == IsContUnsetCorner(board, bs, row, col, d) {
    }
  }

  /**
   * The rule only fills UNSET borders, raises only InvalidBoard or AssertionError, and a
   * reported move changed the board; for a clue other than 2 a report of no move means the
   * board is unchanged.
   */
  lemma ContUnsetSound(board: Board, bs: seq<BorderStatus>, row: int, col: int, reqNum: Option<int>,
                       unsetCount: int, activeCount: int, blankCount: int, smooth: SmoothRule)
    requires OnBoard(board, bs) && IsValidCellIdx(board.rows, board.cols, row, col)
    ensures var s := ContUnsetSpec(board, bs, row, col, reqNum, unsetCount, activeCount, blankCount, smooth);
            Grows(bs, s.0)
            && (s.1.Err? ==> s.1 == Err(InvalidBoard) || s.1 == Err(AssertionError))
            && (s.1 == Ok(true) ==> s.0 != bs)
            && (reqNum != Some(2) && s.1 == Ok(false) ==> s.0 == bs)
  {
    var s := ContUnsetSpec(board, bs, row, col, reqNum, unsetCount, activeCount, blankCount, smooth);
    if unsetCount >= 2 && reqNum.Some? && reqNum.value != 0 {
      var flags := CornerFlagsOf(board, bs, row, col, AllDiagonal);
      var count := CountTrue(flags);
      CountTrueExtremes(flags);
      if 0 < count < 4 {
        var n := reqNum.value;
        if n == 1 || n == 3 {
          OddCellEffect(board, bs, row, col, flags, 0, n, smooth);
          if s.1.Ok? {
            var j :| 0 <= j < 4 && flags[j];
            Changed(board, bs, s.0, row, col, AllDiagonal[j], OddClueStatus(n));
          }
        } else if n == 2 {
          TwoCellEffect(board, bs, row, col, flags, 0, activeCount, blankCount, smooth);
          if s.1 == Ok(true) {
            var j :| 0 <= j < 4 && flags[j]
                     && CornerSettled(board, s.0, row, col, AllDiagonal[j], if blankCount > 1 then ACTIVE else BLANK);
            Changed(board, bs, s.0, row, col, AllDiagonal[j], if blankCount > 1 then ACTIVE else BLANK);
          }
        }
      }
    }
  }

  /** Settling a continuous corner changes the board. */
  lemma Changed(board: Board, bs: seq<BorderStatus>, t: seq<BorderStatus>, row: int, col: int, dxn: DiagonalDirection, st: BorderStatus)
    requires OnBoard(board, bs) && IsValidCellIdx(board.rows, board.cols, row, col)
    requires IsContUnsetCorner(board, bs, row, col, dxn) && CornerSettled(board, t, row, col, dxn, st) && st != UNSET
    ensures t != bs
  {
    CornersValid(board.rows, board.cols, row, col);
    var (c1, c2) := CornerBorderIndices(board.cols, row, col, dxn);
    assert t[c1] != bs[c1];
  }

  /**
   * A 1-cell or 3-cell: four continuous corners make the board invalid; otherwise, on a
   * return, a move is reported exactly when some corner is continuous, and every continuous
   * corner's pair ends BLANK on a 1-cell and ACTIVE on a 3-cell.
   */
  lemma ContUnsetOddCell(board: Board, bs: seq<BorderStatus>, row: int, col: int, clue: int,
                         unsetCount: int, activeCount: int, blankCount: int, smooth: SmoothRule)
    requires OnBoard(board, bs) && IsValidCellIdx(board.rows, board.cols, row, col)
    requires (clue == 1 || clue == 3) && unsetCount >= 2
    ensures var s := ContUnsetSpec(board, bs, row, col, Some(clue), unsetCount, activeCount, blankCount, smooth);
            ((forall d :: IsContUnsetCorner(board, bs, row, col, d)) ==> s == (bs, Err(InvalidBoard)))
            && (s.1.Ok? ==> (s.1.value <==> exists d :: IsContUnsetCorner(board, bs, row, col, d)))
            && (s.1.Ok? ==> forall d | IsContUnsetCorner(board, bs, row, col, d) ::
                              CornerSettled(board, s.0, row, col, d, if clue == 1 then BLANK else ACTIVE))
  {
    FlagsMeaning(board, bs, row, col);
    var flags := CornerFlagsOf(board, bs, row, col, AllDiagonal);
    OddCellEffect(board, bs, row, col, flags, 0, clue, smooth);
    forall d | IsContUnsetCorner(board, bs, row, col, d) ensures flags[DiagonalValue(d)] {
    }
    if 0 < CountTrue(flags) < 4 {
      assert ContUnsetSpec(board, bs, row, col, Some(clue), unsetCount, activeCount, blankCount, smooth)
             == OddCellSpec(board, bs, row, col, flags, 0, clue, smooth);
    }
  }

  /**
   * A 2-cell: four continuous corners make the board invalid; otherwise, on a return, a move
   * is reported exactly when some corner is continuous and the snapshot has more than one
   * BLANK or more than one ACTIVE border, and then a continuous corner's pair is ACTIVE
   * (BLANK borders) or BLANK (ACTIVE borders).
   */
  lemma ContUnsetTwoCell(board: Board, bs: seq<BorderStatus>, row: int, col: int,
                         unsetCount: int, activeCount: int, blankCount: int, smooth: SmoothRule)
    requires OnBoard(board, bs) && IsValidCellIdx(board.rows, board.cols, row, col) && unsetCount >= 2
    ensures var s := ContUnsetSpec(board, bs, row, col, Some(2), unsetCount, activeCount, blankCount, smooth);
            ((forall d :: IsContUnsetCorner(board, bs, row, col, d)) ==> s == (bs, Err(InvalidBoard)))
            && (s.1.Ok? ==> (s.1.value <==> (exists d :: IsContUnsetCorner(board, bs, row, col, d))
                                               && (blankCount > 1 || activeCount > 1)))
            && (s.1 == Ok(true) ==>
                  exists d :: (IsContUnsetCorner(board, bs, row, col, d)
                    && CornerSettled(board, s.0, row, col, d, if blankCount > 1 then ACTIVE else BLANK)))
  {
    FlagsMeaning(board, bs, row, col);
    var flags := CornerFlagsOf(board, bs, row, col, AllDiagonal);
    TwoCellEffect(board, bs, row, col, flags, 0, activeCount, blankCount, smooth);
    forall d | IsContUnsetCorner(board, bs, row, col, d) ensures flags[DiagonalValue(d)] {
    }
    var s := ContUnsetSpec(board, bs, row, col, Some(2), unsetCount, activeCount, blankCount, smooth);
    var st := if blankCount > 1 then ACTIVE else BLANK;
    if 0 < CountTrue(flags) < 4 {
      assert s == TwoCellSpec(board, bs, row, col, flags, 0, activeCount, blankCount, smooth);
      if s.1 == Ok(true) {
        var j :| 0 <= j < 4 && flags[j] && CornerSettled(board, s.0, row, col, AllDiagonal[j], st);
        assert IsContUnsetCorner(board, bs, row, col, AllDiagonal[j]);
      }
    }
  }

  /**
   * The closing AssertionError: raised exactly for a clue other than 0 to 3 on a cell with at
   * least two UNSET borders and between one and three continuous corners.
   */
  lemma ContUnsetAssertion(board: Board, bs: seq<BorderStatus>, row: int, col: int, reqNum: Option<int>,
                           unsetCount: int, activeCount: int, blankCount: int, smooth: SmoothRule)
    requires OnBoard(board, bs) && IsValidCellIdx(board.rows, board.cols, row, col)
    ensures ContUnsetSpec(board, bs, row, col, reqNum, unsetCount, activeCount, blankCount, smooth).1 == Err(AssertionError)
            <==> unsetCount >= 2 && reqNum.Some? && !(0 <= reqNum.value <= 3)
                 && (exists d :: IsContUnsetCorner(board, bs, row, col, d))
                 && !(forall d :: IsContUnsetCorner(board, bs, row, col, d))
  {
    FlagsMeaning(board, bs, row, col);
    var flags := CornerFlagsOf(board, bs, row, col, AllDiagonal);
    var s := ContUnsetSpec(board, bs, row, col, reqNum, unsetCount, activeCount, blankCount, smooth);
    if unsetCount >= 2 && reqNum.Some? && reqNum.value != 0 && 0 < CountTrue(flags) < 4 {
      var n := reqNum.value;
      if n == 1 || n == 3 {
        OddCellEffect(board, bs, row, col, flags, 0, n, smooth);
        assert s == OddCellSpec(board, bs, row, col, flags, 0, n, smooth);
      } else if n == 2 {
        TwoCellEffect(board, bs, row, col, flags, 0, activeCount, blankCount, smooth);
        assert s == TwoCellSpec(board, bs, row, col, flags, 0, activeCount, blankCount, smooth);
      }
    }
  }

  // ---------------------------------------------------------------------------------------
  // The rules on the board
  // ---------------------------------------------------------------------------------------

  /** A call of handleSmoothCorner on the board. */
  method ApplySmooth(board: Board, row: int, col: int, dxn: DiagonalDirection, smooth: SmoothRule) returns (r: Result<bool>)
    modifies board.borders
    ensures (board.borders[..], r) == smooth(old(board.borders[..]), row, col, dxn)
  {
    var s := smooth(board.borders[..], row, col, dxn);
    assert Sound(board.borders[..], s);
    forall i | 0 <= i < board.borders.Length {
      board.borders[i] := s.0[i];
    }
    assert board.borders[..] == s.0;
    r := s.1;
  }

  /** _getCornersStatus: the flag of each corner in declaration order, and how many are set. */
  method GetCornersStatus(board: Board, row: int, col: int) returns (flags: seq<bool>, count: nat)
    requires board.WellFormed() && IsValidCellIdx(board.rows, board.cols, row, col)
    ensures flags == CornerFlagsOf(board, board.borders[..], row, col, AllDiagonal)
    ensures count == CountTrue(flags)
  {
    flags, count := CornerFlagsIn(board, row, col, AllDiagonal);
  }

  /** The loop of _getCornersStatus over the corners ds. */
  method CornerFlagsIn(board: Board, row: int, col: int, ds: seq<DiagonalDirection>) returns (flags: seq<bool>, count: nat)
    requires board.WellFormed() && IsValidCellIdx(board.rows, board.cols, row, col)
    ensures flags == CornerFlagsOf(board, board.borders[..], row, col, ds)
    ensures count == CountTrue(flags)
  {
    flags, count := [], 0;
    for i := 0 to |ds|
      invariant flags == CornerFlagsOf(board, board.borders[..], row, col, ds[..i])
      invariant count == CountTrue(flags)
    {
      flags, count := NextCornerFlag(board, row, col, ds, i, flags, count);
    }
    assert ds[..|ds|] == ds;
  }

  /** One pass of the loop of _getCornersStatus: the flag of corner ds[i] is appended and counted. */
  method NextCornerFlag(board: Board, row: int, col: int, ds: seq<DiagonalDirection>, i: int, flags: seq<bool>, count: nat)
    returns (flags': seq<bool>, count': nat)
    requires board.WellFormed() && IsValidCellIdx(board.rows, board.cols, row, col) && 0 <= i < |ds|
    requires flags == CornerFlagsOf(board, board.borders[..], row, col, ds[..i])
    requires count == CountTrue(flags)
    ensures flags' == CornerFlagsOf(board, board.borders[..], row, col, ds[..i + 1])
    ensures count' == CountTrue(flags')
  {
    var flag := CornerFlag(board, row, col, ds[i]);
    CornerFlagsStep(board, board.borders[..], row, col, ds, i);
    CountTrueStep(flags, flag);
    flags' := flags + [flag];
    count' := if flag then count + 1 else count;
  }

  lemma CornerFlagsStep(board: Board, bs: seq<BorderStatus>, row: int, col: int, ds: seq<DiagonalDirection>, i: int)
    requires OnBoard(board, bs) && IsValidCellIdx(board.rows, board.cols, row, col) && 0 <= i < |ds|
    ensures CornerFlagsOf(board, bs, row, col, ds[..i + 1])
            == CornerFlagsOf(board, bs, row, col, ds[..i]) + [IsContUnsetCorner(board, bs, row, col, ds[i])]
  {
  }

  lemma CountTrueStep(flags: seq<bool>, b: bool)
    ensures CountTrue(flags + [b]) == CountTrue(flags) + (if b then 1 else 0)
  {
    assert (flags + [b])[..|flags|] == flags;
  }

  /** The flag of one corner, as _getCornersStatus reads it. */
  method CornerFlag(board: Board, row: int, col: int, dxn: DiagonalDirection) returns (flag: bool)
    requires board.WellFormed() && IsValidCellIdx(board.rows, board.cols, row, col)
    ensures flag == IsContUnsetCorner(board, board.borders[..], row, col, dxn)
  {
    CornersValid(board.rows, board.cols, row, col);
    var (c1, c2) := CornerBorderIndices(board.cols, row, col, dxn);
    ArmsInRange(board.rows, board.cols, row, col, dxn);
    var arms := Arms(board.rows, board.cols, row, col, dxn);
    ghost var bs := board.borders[..];
    flag := false;
    if board.borders[c1] == UNSET && board.borders[c2] == UNSET {
      flag := forall k | 0 <= k < |arms| :: board.borders[arms[k]] == BLANK;
      assert flag == forall k | 0 <= k < |arms| :: bs[arms[k]] == BLANK;
    }
  }

  /** One flagged corner of a 1-cell or a 3-cell. */
  method OddCorner(board: Board, row: int, col: int, dxn: DiagonalDirection, clue: int, smooth: SmoothRule) returns (r: Result<bool>)
    requires board.WellFormed() && IsValidCellIdx(board.rows, board.cols, row, col)
    modifies board.borders
    ensures (board.borders[..], r) == OddCornerSpec(board, old(board.borders[..]), row, col, dxn, clue, smooth)
  {
    CornersValid(board.rows, board.cols, row, col);
    var (c1, c2) := CornerBorderIndices(board.cols, row, col, dxn);
    if clue == 1 {
      r := ApplySmooth(board, row, col, dxn, smooth);
      if r.Err? {
        return;
      }
      r := InitiatePoke(board, row, col, dxn.Opposite());
      if r.Err? {
        return;
      }
      r := SetEach(board, [c1, c2], BLANK);
    } else {
      r := SetEach(board, [c1, c2], ACTIVE);
      if r.Err? {
        return;
      }
      r := ApplySmooth(board, row, col, dxn, smooth);
      if r.Err? {
        return;
      }
      r := InitiatePoke(board, row, col, dxn.Opposite());
    }
    if r.Ok? {
      r := Ok(true);
    }
  }

  /** _process1Cell (clue 1) and _process3Cell (clue 3). */
  method ProcessOddCell(board: Board, row: int, col: int, flags: seq<bool>, clue: int, smooth: SmoothRule) returns (r: Result<bool>)
    requires board.WellFormed() && IsValidCellIdx(board.rows, board.cols, row, col) && |flags| == 4
    modifies board.borders
    ensures (board.borders[..], r) == OddCellSpec(board, old(board.borders[..]), row, col, flags, 0, clue, smooth)
  {
    ghost var start := board.borders[..];
    var found := false;
    for i := 0 to 4
      invariant OddCellSpec(board, start, row, col, flags, 0, clue, smooth)
                == Join((board.borders[..], Ok(found)), OddCellSpec(board, board.borders[..], row, col, flags, i, clue, smooth))
    {
      if flags[i] {
        r := OddCorner(board, row, col, AllDiagonal[i], clue, smooth);
        if r.Err? {
          return;
        }
        found := true;
      }
    }
    return Ok(found);
  }

  /** _process2Cell, with the cell snapshot's ACTIVE and BLANK counts. */
  method Process2Cell(board: Board, row: int, col: int, flags: seq<bool>, activeCount: int, blankCount: int,
                      smooth: SmoothRule) returns (r: Result<bool>)
    requires board.WellFormed() && IsValidCellIdx(board.rows, board.cols, row, col) && |flags| == 4
    modifies board.borders
    ensures (board.borders[..], r) == TwoCellSpec(board, old(board.borders[..]), row, col, flags, 0, activeCount, blankCount, smooth)
  {
    CornersValid(board.rows, board.cols, row, col);
    ghost var start := board.borders[..];
    for i := 0 to 4
      invariant TwoCellSpec(board, start, row, col, flags, 0, activeCount, blankCount, smooth)
                == TwoCellSpec(board, board.borders[..], row, col, flags, i, activeCount, blankCount, smooth)
    {
      if flags[i] {
        var dxn := AllDiagonal[i];
        r := ApplySmooth(board, row, col, dxn, smooth);
        if r.Err? {
          return;
        }
        r := ApplySmooth(board, row, col, dxn.Opposite(), smooth);
        if r.Err? {
          return;
        }
        var (c1, c2) := CornerBorderIndices(board.cols, row, col, dxn);
        if blankCount > 1 {
          r := SetEach(board, [c1, c2], ACTIVE);
          if r.Ok? {
            r := Ok(true);
          }
          return;
        } else if activeCount > 1 {
          r := SetEach(board, [c1, c2], BLANK);
          if r.Ok? {
            r := Ok(true);
          }
          return;
        }
      }
    }
    return Ok(false);
  }

  /** checkCellForContinuousUnsetBorders on the board, with the cell's snapshot. */
  method CheckCellForContinuousUnsetBorders(board: Board, info: CellInfo, smooth: SmoothRule) returns (r: Result<bool>)
    requires board.WellFormed() && IsValidCellIdx(board.rows, board.cols, info.row, info.col)
    modifies board.borders
    ensures (board.borders[..], r) == ContUnsetSpec(board, old(board.borders[..]), info.row, info.col, info.reqNum,
                                                    info.bdrUnsetCount, info.bdrActiveCount, info.bdrBlankCount, smooth)
  {
    if info.bdrUnsetCount < 2 {
      return Ok(false);
    }
    if info.reqNum.None? || info.reqNum.value == 0 {
      return Ok(false);
    }
    var row, col := info.row, info.col;
    var flags, count := GetCornersStatus(board, row, col);
    if count == 0 {
      return Ok(false);
    }
    if count == 4 {
      return Err(InvalidBoard);
    }
    var reqNum := info.reqNum.value;
    if reqNum == 1 || reqNum == 3 {
      r := ProcessOddCell(board, row, col, flags, reqNum, smooth);
    } else if reqNum == 2 {
      r := Process2Cell(board, row, col, flags, info.bdrActiveCount, info.bdrBlankCount, smooth);
    } else {
      r := Err(AssertionError);
    }
  }
}
