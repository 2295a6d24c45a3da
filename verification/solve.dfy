/**
 * The main loop of the solver (Solver._solve) and the check of a finished board
 * (Solver.simpleValidation).
 */
module Solve {
  import opened Outcomes
  import opened Enums
  import opened BoardTools
  import opened BoardModel
  import opened CellInfoModel
  import opened SolverTools
  import opened SetBorder
  import opened ContUnset
  import opened Rules
  import CellGroup
  import LoopRule

  /**
   * solveUsingCornerEntryInfo: any whole-board rule that only fills UNSET borders, reports a
   * move exactly when it made one and raises only InvalidBoard.
   */
  type BoardRule = f: seq<BorderStatus> -> Step
    | forall bs :: Sound(bs, f(bs))
    witness (bs: seq<BorderStatus>) => (bs, Ok(false))

  /** A call of solveUsingCornerEntryInfo on the board. */
  method ApplyBoardRule(board: Board, f: BoardRule) returns (r: Result<bool>)
    modifies board.borders
    ensures (board.borders[..], r) == f(old(board.borders[..]))
  {
    var s := f(board.borders[..]);
    assert Sound(board.borders[..], s);
    forall i | 0 <= i < board.borders.Length {
      board.borders[i] := s.0[i];
    }
    assert board.borders[..] == s.0;
    r := s.1;
  }

  // ---------------------------------------------------------------------------------------
  // _solve
  // ---------------------------------------------------------------------------------------

  /** Filling borders never adds an UNSET border, and a fill that changes something removes one. */
  lemma {:induction false} GrowsCount(a: seq<BorderStatus>, b: seq<BorderStatus>)
    requires Grows(a, b)
    ensures CountOf(b, UNSET) <= CountOf(a, UNSET)
    ensures a != b ==> CountOf(b, UNSET) < CountOf(a, UNSET)
  {
    if a != [] {
      var n := |a| - 1;
      assert Grows(a[..n], b[..n]);
      GrowsCount(a[..n], b[..n]);
      assert a == a[..n] + [a[n]] && b == b[..n] + [b[n]];
    }
  }

  /**
   * What every rule called by a pass promises: it only fills UNSET borders, raises only
   * InvalidBoard, and when it reports a move it has left fewer UNSET borders.
   */
  ghost predicate Progress(bs0: seq<BorderStatus>, bs1: seq<BorderStatus>, r: Result<bool>)
  {
    && Grows(bs0, bs1)
    && CountOf(bs1, UNSET) <= CountOf(bs0, UNSET)
    && (r.Err? ==> r.error == InvalidBoard)
    && (r == Ok(true) ==> CountOf(bs1, UNSET) < CountOf(bs0, UNSET))
  }

  /** A step that fills borders only and reports a move only when it made one makes progress. */
  lemma ReliableProgress(bs: seq<BorderStatus>, s: Step)
    requires Reliable(bs, s)
    ensures Progress(bs, s.0, s.1)
  {
    GrowsCount(bs, s.0);
  }

  /** Two steps in a row that each make progress make progress, reporting a move if either did. */
  lemma ProgressJoin(bs0: seq<BorderStatus>, a: Step, b: Step)
    requires a.1.Ok? && Progress(bs0, a.0, a.1) && Progress(a.0, b.0, b.1)
    ensures Progress(bs0, Join(a, b).0, Join(a, b).1)
  {
    GrowsTrans(bs0, a.0, b.0);
  }

  /** The cells all lie on the board. */
  ghost predicate OnGrid(board: Board, cells: seq<Cell>)
  {
    forall k | 0 <= k < |cells| :: IsValidCellIdx(board.rows, board.cols, cells[k].0, cells[k].1)
  }

  /**
   * The rules a pass calls: the prioritized cell list, and the parameters that stand for
   * checkOuterCellPoking, isCellPokingAtDir, handleSmoothCorner, getAdjCellGroups and
   * solveUsingCornerEntryInfo.
   */
  datatype PassRules = PassRules(prioCells: seq<Cell>, outerPoking: CellRule, pokingAt: PokingRule,
                                 smooth: SmoothRule, adjRule: CellGroup.AdjGroupsRule, cornerRule: BoardRule)

  /**
   * What a run of _solve works with besides the borders and the cell groups, none of which a
   * run changes: the board's clues, the rules, whether the board is a clone and its pokes.
   */
  datatype Setting = Setting(board: Board, rules: PassRules, isClone: bool, pokes: set<(int, int, DiagonalDirection)>)

  /**
   * What updateCellGroups did in a pass: the groups it left, the cells it reached, and whether
   * it returned (finished) or raised InvalidBoard.
   */
  datatype Fill = Fill(finished: bool, groups: CellGroup.Groups, reached: set<Cell>)

  /** One pass of _solve: the flood fill it made, and the borders and result it ended with. */
  datatype PassRecord = PassRecord(fill: Fill, step: Step)

  ghost predicate Fits(st: Setting, bs: seq<BorderStatus>)
  {
    OnBoard(st.board, bs) && OnGrid(st.board, st.rules.prioCells)
  }

  /** The solveClues part of a pass. */
  ghost function CluesPart(st: Setting, bs: seq<BorderStatus>): Step
    requires Fits(st, bs)
  {
    SolveCluesSpec(st.board, bs, st.rules.prioCells, {}, st.isClone, st.pokes, st.rules.outerPoking, st.rules.pokingAt, st.rules.smooth)
  }

  /**
   * The flood fill of checkCellGroupClues, from the groups `before` on the borders bs: no known
   * group is changed, every reached cell gets a group, and when the fill finishes, every edge
   * cell whose outer side is set is reached and no set border leads from a reached cell to an
   * unreached one.
   */
  ghost predicate FillFits(board: Board, bs: seq<BorderStatus>, before: CellGroup.Groups, f: Fill)
  {
    && CellGroup.Settles(board.rows, board.cols, before, f.groups, {}, f.reached)
    && (f.finished ==> CellGroup.Closed(board, bs, f.reached, f.reached)
                       && forall p, d | CellGroup.EdgeSeed(board, bs, p, d) :: p in f.reached)
  }

  /** The checkCellGroupClues part of a pass after the flood fill f: its clue rules, or the InvalidBoard of the fill. */
  ghost function GroupsPart(st: Setting, bs: seq<BorderStatus>, f: Fill): Step
    requires Fits(st, bs) && IsGrid(f.groups, st.board.rows, st.board.cols)
  {
    if f.finished then CellGroup.CluesSpec(st.board, bs, f.groups, st.rules.prioCells, st.rules.adjRule, st.rules.smooth)
    else (bs, Err(InvalidBoard))
  }

  /** The solveUsingCornerEntryInfo part of a pass, skipped on a clone. */
  ghost function CornerPart(st: Setting, bs: seq<BorderStatus>): Step
  {
    if st.isClone then NoMove(bs) else st.rules.cornerRule(bs)
  }

  /**
   * One pass of the loop of _solve on the borders bs, with the flood fill f: solveClues,
   * checkCellGroupClues, removeLoopMakingMove and the corner rule in turn. The first
   * InvalidBoard ends the pass with the borders it left; otherwise the pass reports whether
   * any of the four found a move.
   */
  ghost function PassSpec(st: Setting, bs: seq<BorderStatus>, f: Fill): Step
    requires Fits(st, bs) && IsGrid(f.groups, st.board.rows, st.board.cols)
  {
    var a := CluesPart(st, bs);
    if a.1.Err? then a
    else
      var b := GroupsPart(st, a.0, f);
      if b.1.Err? then b
      else
        var c := LoopRule.RemoveLoopSpec(st.board.rows, st.board.cols, b.0);
        if c.1.Err? then c
        else
          var d := CornerPart(st, c.0);
          if d.1.Err? then d
          else (d.0, Ok(a.1.value || b.1.value || c.1.value || d.1.value))
  }

  /**
   * Pass p was one pass of _solve from the borders bs and the groups `before`: its flood fill
   * ran on the borders solveClues left (unless solveClues raised, when the groups are kept),
   * and its borders and result are those of PassSpec.
   */
  ghost predicate PassOutcome(st: Setting, bs: seq<BorderStatus>, before: CellGroup.Groups, p: PassRecord)
  {
    && Fits(st, bs) && IsGrid(before, st.board.rows, st.board.cols)
    && (if CluesPart(st, bs).1.Err? then p.fill.groups == before else FillFits(st.board, CluesPart(st, bs).0, before, p.fill))
    && IsGrid(p.fill.groups, st.board.rows, st.board.cols)
    && p.step == PassSpec(st, bs, p.fill)
  }

  /** Every pass makes progress: the four rules only fill UNSET borders and report a move only after making one. */
  lemma PassProgress(st: Setting, bs: seq<BorderStatus>, before: CellGroup.Groups, p: PassRecord)
    requires PassOutcome(st, bs, before, p)
    ensures Progress(bs, p.step.0, p.step.1)
  {
    hide SolveCluesSpec, CellGroup.CluesSpec, LoopRule.RemoveLoopSpec, FillFits;
    var a := CluesPart(st, bs);
    SolveCluesSound(st.board, bs, st.rules.prioCells, {}, st.isClone, st.pokes, st.rules.outerPoking, st.rules.pokingAt, st.rules.smooth);
    ReliableProgress(bs, a);
    if a.1.Ok? {
      var b := GroupsPart(st, a.0, p.fill);
      if p.fill.finished {
        CellGroup.CluesSound(st.board, a.0, p.fill.groups, st.rules.prioCells, st.rules.adjRule, st.rules.smooth);
        ReliableProgress(a.0, b);
      }
      if b.1.Ok? {
        ProgressJoin(bs, a, b);
        var ab := Join(a, b);
        var c := LoopRule.RemoveLoopSpec(st.board.rows, st.board.cols, b.0);
        LoopRule.RemoveLoopSound(st.board.rows, st.board.cols, b.0);
        ReliableProgress(b.0, c);
        if c.1.Ok? {
          ProgressJoin(bs, ab, c);
          var abc := Join(ab, c);
          var d := CornerPart(st, c.0);
          ReliableProgress(c.0, d);
          ProgressJoin(bs, abc, d);
        } else {
          GrowsTrans(bs, ab.0, c.0);
          GrowsCount(ab.0, c.0);
        }
      } else {
        GrowsTrans(bs, a.0, b.0);
        GrowsCount(a.0, b.0);
      }
    }
  }

  /** The solveClues call of a pass. */
  method CluesStep(board: Board, rules: PassRules) returns (r: Result<bool>)
    requires board.WellFormed() && OnGrid(board, rules.prioCells)
    modifies board.borders
    ensures (board.borders[..], r) == CluesPart(Setting(board, rules, board.isClone, board.pokes), old(board.borders[..]))
  {
    r := SolveClues(board, rules.prioCells, rules.outerPoking, rules.pokingAt, rules.smooth);
  }

  /**
   * The checkCellGroupClues call of a pass: the flood fill, then, when it finished, the clue
   * rules on the groups it left; when it raised, the borders are unchanged.
   */
  method GroupsStep(board: Board, rules: PassRules) returns (r: Result<bool>, ghost fill: Fill)
    requires board.WellFormed() && OnGrid(board, rules.prioCells)
    modifies board`cellGroups, board.borders
    ensures board.WellFormed() && board.cellGroups == fill.groups
    ensures FillFits(board, old(board.borders[..]), old(board.cellGroups), fill)
    ensures (board.borders[..], r) == GroupsPart(Setting(board, rules, board.isClone, board.pokes), old(board.borders[..]), fill)
  {
    ghost var filled, reached;
    r, filled, reached := CellGroup.CheckCellGroupClues(board, rules.prioCells, rules.adjRule, rules.smooth);
    fill := Fill(filled.Ok?, board.cellGroups, reached);
  }

  /** The removeLoopMakingMove call of a pass. */
  method LoopStep(board: Board) returns (r: Result<bool>)
    requires board.WellFormed()
    modifies board.borders
    ensures (board.borders[..], r) == LoopRule.RemoveLoopSpec(board.rows, board.cols, old(board.borders[..]))
  {
    r := LoopRule.RemoveLoopMakingMove(board);
  }

  /** The solveUsingCornerEntryInfo call of a pass, on a board that is not a clone. */
  method CornerStep(board: Board, rules: PassRules) returns (r: Result<bool>)
    requires !board.isClone
    modifies board.borders
    ensures (board.borders[..], r) == CornerPart(Setting(board, rules, board.isClone, board.pokes), old(board.borders[..]))
  {
    r := ApplyBoardRule(board, rules.cornerRule);
  }

  /**
   * One pass of the loop of _solve: solveClues, checkCellGroupClues, removeLoopMakingMove and,
   * on a board that is not a clone, solveUsingCornerEntryInfo, each called in turn. The first
   * InvalidBoard ends the pass; otherwise the pass reports whether any of them found a move.
   */
  method Pass(board: Board, rules: PassRules) returns (r: Result<bool>, ghost fill: Fill)
    requires board.WellFormed() && OnGrid(board, rules.prioCells)
    modifies board`cellGroups, board.borders
    ensures board.WellFormed() && board.cellGroups == fill.groups
    ensures PassOutcome(Setting(board, rules, board.isClone, board.pokes), old(board.borders[..]), old(board.cellGroups),
                        PassRecord(fill, (board.borders[..], r)))
  {
    hide CluesPart, GroupsPart, FillFits, SolveCluesSpec, CellGroup.CluesSpec, LoopRule.RemoveLoopSpec;
    ghost var st := Setting(board, rules, board.isClone, board.pokes);
    ghost var bs0, g0 := board.borders[..], board.cellGroups;
    fill := Fill(true, board.cellGroups, {});
    var a := CluesStep(board, rules);
    ghost var sa := (board.borders[..], a);
    if a.Err? {
      assert PassSpec(st, bs0, fill) == sa;
      return a, fill;
    }
    var b;
    b, fill := GroupsStep(board, rules);
    ghost var sb := (board.borders[..], b);
    if b.Err? {
      assert PassSpec(st, bs0, fill) == sb;
      return b, fill;
    }
    var c := LoopStep(board);
    ghost var sc := (board.borders[..], c);
    assert sc == LoopRule.RemoveLoopSpec(board.rows, board.cols, sb.0);
    if c.Err? {
      assert PassSpec(st, bs0, fill) == sc;
      return c, fill;
    }
    var found := a.value || b.value || c.value;
    if !board.isClone {
      var d := CornerStep(board, rules);
      if d.Err? {
        assert PassSpec(st, bs0, fill) == (board.borders[..], d);
        return d, fill;
      }
      found := found || d.value;
    }
    assert PassSpec(st, bs0, fill) == (board.borders[..], Ok(found));
    return Ok(found), fill;
  }

  /** The borders after the passes of trace, starting from bs0. */
  ghost function After(bs0: seq<BorderStatus>, trace: seq<PassRecord>): seq<BorderStatus>
  {
    if trace == [] then bs0 else trace[|trace| - 1].step.0
  }

  /** The cell groups after the passes of trace, starting from g0. */
  ghost function GroupsAfter(g0: CellGroup.Groups, trace: seq<PassRecord>): CellGroup.Groups
  {
    if trace == [] then g0 else trace[|trace| - 1].fill.groups
  }

  /** Each pass of trace is a pass of _solve from the borders and groups the passes before it left. */
  ghost predicate Passes(st: Setting, g0: CellGroup.Groups, bs0: seq<BorderStatus>, trace: seq<PassRecord>)
    decreases |trace|
  {
    trace == [] ||
    var n := |trace| - 1;
    Passes(st, g0, bs0, trace[..n]) && PassOutcome(st, After(bs0, trace[..n]), GroupsAfter(g0, trace[..n]), trace[n])
  }

  /**
   * A run of _solve from the borders bs0 and groups g0: its passes in order. Every pass but
   * the last reported a move; the last reported none (the result is true) or raised
   * InvalidBoard (the result is false).
   */
  ghost predicate SolveRun(st: Setting, g0: CellGroup.Groups, bs0: seq<BorderStatus>, trace: seq<PassRecord>, isValid: bool)
  {
    && trace != []
    && Passes(st, g0, bs0, trace)
    && (forall k | 0 <= k < |trace| - 1 :: trace[k].step.1 == Ok(true))
    && trace[|trace| - 1].step.1 == (if isValid then Ok(false) else Err(InvalidBoard))
  }

  /** A run still going: every pass so far reported a move. */
  ghost predicate RunOn(st: Setting, g0: CellGroup.Groups, bs0: seq<BorderStatus>, trace: seq<PassRecord>)
  {
    Passes(st, g0, bs0, trace) && forall k | 0 <= k < |trace| :: trace[k].step.1 == Ok(true)
  }

  /** A running trace extended by one more pass, as the loop of _solve does. */
  lemma RunNext(st: Setting, g0: CellGroup.Groups, bs0: seq<BorderStatus>, trace: seq<PassRecord>, p: PassRecord)
    requires RunOn(st, g0, bs0, trace) && PassOutcome(st, After(bs0, trace), GroupsAfter(g0, trace), p)
    ensures After(bs0, trace + [p]) == p.step.0 && GroupsAfter(g0, trace + [p]) == p.fill.groups
    ensures p.step.1 == Ok(true) ==> RunOn(st, g0, bs0, trace + [p])
    ensures p.step.1 == Ok(false) ==> SolveRun(st, g0, bs0, trace + [p], true)
    ensures p.step.1.Err? ==> SolveRun(st, g0, bs0, trace + [p], false)
  {
    hide PassOutcome;
    var t := trace + [p];
    assert t[..|trace|] == trace;
    PassProgress(st, After(bs0, trace), GroupsAfter(g0, trace), p);
    forall k | 0 <= k < |trace|
      ensures t[k].step.1 == Ok(true)
    {
      assert t[k] == trace[k];
    }
  }

  /**
   * The borders a run leaves have grown from bs0, and every pass but the last removed an
   * UNSET border: a run makes at most one pass more than bs0 has UNSET borders.
   */
  lemma {:induction false} RunBound(st: Setting, g0: CellGroup.Groups, bs0: seq<BorderStatus>, trace: seq<PassRecord>)
    requires Passes(st, g0, bs0, trace)
    requires forall k | 0 <= k < |trace| - 1 :: trace[k].step.1 == Ok(true)
    ensures Grows(bs0, After(bs0, trace))
    ensures trace != [] ==> |trace| - 1 + CountOf(After(bs0, trace), UNSET) <= CountOf(bs0, UNSET)
    ensures trace != [] && trace[|trace| - 1].step.1 == Ok(true) ==> |trace| + CountOf(After(bs0, trace), UNSET) <= CountOf(bs0, UNSET)
  {
    hide PassOutcome;
    if trace != [] {
      var n := |trace| - 1;
      var prefix := trace[..n];
      forall k | 0 <= k < |prefix| - 1
        ensures prefix[k].step.1 == Ok(true)
      {
        assert prefix[k] == trace[k];
      }
      RunBound(st, g0, bs0, prefix);
      PassProgress(st, After(bs0, prefix), GroupsAfter(g0, prefix), trace[n]);
      GrowsTrans(bs0, After(bs0, prefix), trace[n].step.0);
      if n > 0 {
        assert prefix[n - 1] == trace[n - 1];
      }
    }
  }

  /** Before its first pass a run of _solve is still going. */
  lemma RunStart(st: Setting, g0: CellGroup.Groups, bs0: seq<BorderStatus>)
    ensures RunOn(st, g0, bs0, []) && After(bs0, []) == bs0 && GroupsAfter(g0, []) == g0
  {
  }

  lemma GrowsTrans(a: seq<BorderStatus>, b: seq<BorderStatus>, c: seq<BorderStatus>)
    requires Grows(a, b) && Grows(b, c)
    ensures Grows(a, c)
  {
  }

  /**
   * One turn of the loop of _solve: a pass, recorded on a run that was still going. The run
   * goes on after a move, with fewer UNSET borders, and ends otherwise.
   */
  method NextPass(board: Board, rules: PassRules, ghost st: Setting, ghost g0: CellGroup.Groups,
                  ghost bs0: seq<BorderStatus>, ghost trace: seq<PassRecord>)
    returns (r: Result<bool>, ghost next: seq<PassRecord>)
    requires board.WellFormed() && OnGrid(board, rules.prioCells)
    requires st == Setting(board, rules, board.isClone, board.pokes)
    requires board.borders[..] == After(bs0, trace) && board.cellGroups == GroupsAfter(g0, trace)
    requires RunOn(st, g0, bs0, trace)
    modifies board`cellGroups, board.borders
    ensures board.WellFormed()
    ensures board.borders[..] == After(bs0, next) && board.cellGroups == GroupsAfter(g0, next)
    ensures CountOf(board.borders[..], UNSET) <= CountOf(old(board.borders[..]), UNSET)
    ensures r == Ok(true) ==> RunOn(st, g0, bs0, next) && CountOf(board.borders[..], UNSET) < CountOf(old(board.borders[..]), UNSET)
    ensures r == Ok(false) ==> SolveRun(st, g0, bs0, next, true)
    ensures r.Err? ==> SolveRun(st, g0, bs0, next, false)
  {
    hide PassOutcome, Passes, RunOn, SolveRun;
    ghost var fill;
    r, fill := Pass(board, rules);
    ghost var p := PassRecord(fill, (board.borders[..], r));
    PassProgress(st, After(bs0, trace), GroupsAfter(g0, trace), p);
    RunNext(st, g0, bs0, trace, p);
    next := trace + [p];
  }

  /**
   * _solve: run passes until one finds no move. An InvalidBoard raised by any rule is caught
   * and gives false; otherwise the result is true. The loop ends because every pass that
   * reports a move leaves fewer UNSET borders.
   */
  method SolveLoop(board: Board, rules: PassRules) returns (isValid: bool, ghost trace: seq<PassRecord>)
    requires board.WellFormed() && OnGrid(board, rules.prioCells)
    modifies board`cellGroups, board.borders
    ensures board.WellFormed()
    ensures SolveRun(Setting(board, rules, board.isClone, board.pokes), old(board.cellGroups), old(board.borders[..]), trace, isValid)
    ensures board.borders[..] == After(old(board.borders[..]), trace)
    ensures board.cellGroups == GroupsAfter(old(board.cellGroups), trace)
  {
    hide PassOutcome, Passes, RunOn, SolveRun, After, GroupsAfter;
    ghost var st := Setting(board, rules, board.isClone, board.pokes);
    ghost var bs0, g0 := board.borders[..], board.cellGroups;
    trace := [];
    RunStart(st, g0, bs0);
    var moveFound := true;
    while moveFound
      invariant board.WellFormed()
      invariant board.borders[..] == After(bs0, trace) && board.cellGroups == GroupsAfter(g0, trace)
      invariant moveFound ==> RunOn(st, g0, bs0, trace)
      invariant !moveFound ==> SolveRun(st, g0, bs0, trace, true)
      decreases CountOf(board.borders[..], UNSET) + (if moveFound then 1 else 0)
    {
      var r;
      r, trace := NextPass(board, rules, st, g0, bs0, trace);
      if r.Err? {
        return false, trace;
      }
      moveFound := r.value;
    }
    return true, trace;
  }

  // ---------------------------------------------------------------------------------------
  // simpleValidation
  // ---------------------------------------------------------------------------------------

  /** A clue n that the sides cannot meet: more ACTIVE sides than n, or fewer ACTIVE and UNSET ones. */
  ghost predicate ClueBroken(bs: seq<BorderStatus>, sides: seq<int>, n: int)
  {
    && (forall k | 0 <= k < |sides| :: 0 <= sides[k] < |bs|)
    && var stats := Statuses(bs, sides);
       CountOf(stats, ACTIVE) > n || CountOf(stats, ACTIVE) + CountOf(stats, UNSET) < n
  }

  /** Cell x has a clue that its sides cannot meet. */
  ghost predicate ClueBrokenAt(board: Board, bs: seq<BorderStatus>, x: Cell)
  {
    && 0 <= x.0 < |board.cells| && 0 <= x.1 < |board.cells[x.0]| && board.cells[x.0][x.1].Some?
    && ClueBroken(bs, CellBorderSeq(board.cols, x.0, x.1), board.cells[x.0][x.1].value)
  }

  /** No clue cell of the board is broken. */
  ghost predicate CluesMet(board: Board, bs: seq<BorderStatus>)
  {
    var reqs := board.ReqCells();
    forall j | 0 <= j < |reqs| :: !ClueBrokenAt(board, bs, reqs[j])
  }

  /** No ACTIVE border has an endpoint that forbids it (the endpoint checks of processBorder). */
  ghost predicate EndsMet(rows: int, cols: int, bs: seq<BorderStatus>)
    requires cols >= 1 && |bs| == NumBorders(rows, cols)
  {
    forall i | 0 <= i < |bs| && bs[i] == ACTIVE :: !EndForbids(rows, cols, bs, i)
  }

  /** Every set closed under connection that meets the ACTIVE borders holds all of them. */
  ghost predicate OneComponent(links: int -> seq<int>, active: set<int>)
  {
    forall s, b | b in active && b in s && LoopRule.Closed(links, active, s) :: active <= s
  }

  /**
   * What simpleValidation decides: every clue can still be met and every ACTIVE border has fine
   * ends; then an unfinished board passes, and a finished one passes when its ACTIVE borders
   * are not empty and are all connected.
   */
  ghost predicate Validates(board: Board, bs: seq<BorderStatus>)
    requires OnBoard(board, bs)
  {
    var active := LoopRule.IndicesWith(bs, ACTIVE);
    && CluesMet(board, bs)
    && EndsMet(board.rows, board.cols, bs)
    && (UNSET in bs || (active != {} && OneComponent(LoopRule.Links(board.rows, board.cols), active)))
  }

  /** A subset as large as its superset is the superset. */
  lemma SubsetSameSize<T>(a: set<T>, b: set<T>)
    requires a <= b && |a| == |b|
    ensures a == b
  {
    if a != b {
      var x :| x in b && x !in a;
      assert a <= b - {x};
      assert |a| <= |b - {x}| by { SubsetSize(a, b - {x}); }
    }
  }

  /** A subset is no larger than its superset. */
  lemma SubsetSize<T>(a: set<T>, b: set<T>)
    requires a <= b
    ensures |a| <= |b|
  {
    assert b == a + (b - a);
  }

  /** The borders _addBorder has connected so far, the connection it follows and the ACTIVE borders. */
  class Flood {
    const links: int -> seq<int>
    const active: set<int>
    var connected: set<int>

    ghost predicate Valid()
      reads this
    {
      LoopRule.Symmetric(links, active)
    }

    constructor (links: int -> seq<int>, active: set<int>)
      requires LoopRule.Symmetric(links, active)
      ensures Valid() && connected == {} && this.links == links && this.active == active
    {
      this.links, this.active := links, active;
      connected := {};
    }

    /**
     * _addBorder: add idx and, depth first, every ACTIVE border reachable from it that is not
     * yet connected. The new borders are idx and ACTIVE ones, every ACTIVE border connected to
     * a new one is connected, and when idx is ACTIVE the new borders lie in its component.
     */
    method AddBorder(idx: int)
      requires Valid()
      modifies this
      ensures Valid() && old(connected) <= connected && idx in connected
      ensures idx in old(connected) ==> connected == old(connected)
      ensures connected - old(connected) <= active + {idx}
      ensures forall b, c | b in connected - old(connected) && c in links(b) && c in active :: c in connected
      ensures idx in active ==> LoopRule.Anchored(links, active, connected - old(connected), idx)
      decreases (active + {idx}) - connected, 0
    {
      if idx in connected {
        return;
      }
      ghost var start := connected;
      connected := connected + {idx};
      AddConnected(idx);
      if idx in active {
        ghost var n := connected - (start + {idx});
        LoopRule.AnchoredAdd(links, active, n, idx);
        assert connected - start == n + {idx};
      }
    }

    /**
     * What the loop of _addBorder has established after visiting the borders `seen` connected
     * to idx: the borders connected since start are ACTIVE or idx, their ACTIVE neighbours and
     * the ACTIVE borders of seen are connected, and they lie in the component of idx.
     */
    ghost predicate Spread(start: set<int>, idx: int, seen: seq<int>)
      reads this
    {
      && start <= connected
      && connected - start <= active + {idx}
      && (forall b, c | b in connected - start && c in links(b) && c in active :: c in connected)
      && (forall j | 0 <= j < |seen| && seen[j] in active :: seen[j] in connected)
      && (idx in active ==> LoopRule.Anchored(links, active, connected - start, idx))
    }

    /** The loop of _addBorder over the borders connected to idx, which is already connected. */
    method AddConnected(idx: int)
      requires Valid() && idx in connected
      modifies this
      ensures Valid() && old(connected) <= connected
      ensures connected - old(connected) <= active
      ensures forall b, c | b in connected - old(connected) + {idx} && c in links(b) && c in active :: c in connected
      ensures idx in active ==> LoopRule.Anchored(links, active, connected - old(connected), idx)
      decreases active - connected, 2
    {
      var conn := links(idx);
      ghost var start := connected;
      for k := 0 to |conn|
        invariant Valid() && Spread(start, idx, conn[..k])
        invariant connected - start <= active
      {
        assert conn[..k + 1] == conn[..k] + [conn[k]];
        Visit(idx, conn[k], start, conn[..k]);
      }
      assert conn[..|conn|] == conn;
    }

    /** One step of that loop: follow the border c when it is ACTIVE. */
    method Visit(idx: int, c: int, ghost start: set<int>, ghost seen: seq<int>)
      requires Valid() && idx in connected && c in links(idx)
      requires Spread(start, idx, seen) && connected - start <= active
      modifies this
      ensures Valid() && old(connected) <= connected
      ensures Spread(start, idx, seen + [c]) && connected - start <= active
      decreases active - connected, 1
    {
      ghost var before := connected;
      if c in active {
        AddBorder(c);
        if idx in active {
          LoopRule.AnchoredStep(links, active, connected - before, c, idx);
          LoopRule.AnchoredUnion(links, active, before - start, connected - before, idx);
          assert connected - start == (before - start) + (connected - before);
        }
      }
    }
  }

  /**
   * A flood from start settles the question of connection: when start is the ACTIVE border it
   * grew from (or there is no ACTIVE border), the flood is as large as the ACTIVE borders
   * exactly when they are not empty and form one component.
   */
  lemma FloodDecides(links: int -> seq<int>, active: set<int>, conn: set<int>, start: int)
    requires start in conn && conn <= active + {start}
    requires forall b, c | b in conn && c in links(b) && c in active :: c in conn
    requires active != {} ==> start in active && LoopRule.Anchored(links, active, conn, start)
    ensures (|conn| == |active|) == (active != {} && OneComponent(links, active))
  {
    if active == {} {
      assert conn == {start};
    } else {
      assert conn <= active;
      if OneComponent(links, active) {
        assert LoopRule.Closed(links, active, conn);
        assert conn == active;
      }
      if |conn| == |active| {
        SubsetSameSize(conn, active);
        forall s, b | b in active && b in s && LoopRule.Closed(links, active, s) ensures active <= s {
          assert if start in s then conn <= s else conn !! s;
          assert b in conn;
        }
        assert OneComponent(links, active);
      }
    }
  }

  /** The checks simpleValidation makes on one clue cell. */
  method CheckClue(board: Board, row: int, col: int) returns (ok: bool)
    requires board.WellFormed() && IsValidCellIdx(board.rows, board.cols, row, col)
    requires board.cells[row][col].Some?
    ensures ok == !ClueBrokenAt(board, board.borders[..], (row, col))
  {
    var info := CellInfo.Init(board, row, col);
    assert info.bdrStats == Statuses(board.borders[..], info.bdrIndices);
    var n := info.reqNum.value;
    if info.bdrActiveCount > n {
      return false;
    }
    if info.bdrActiveCount + info.bdrUnsetCount < n {
      return false;
    }
    return true;
  }

  /** The loop of simpleValidation over the clue cells: no clue is broken. */
  method CheckClues(board: Board) returns (ok: bool)
    requires board.WellFormed()
    ensures ok == CluesMet(board, board.borders[..])
  {
    var reqs := board.ReqCells();
    for j := 0 to |reqs|
      invariant forall i | 0 <= i < j :: !ClueBrokenAt(board, board.borders[..], reqs[i])
    {
      var (row, col) := reqs[j];
      assert reqs[j] in reqs;
      ok := CheckClue(board, row, col);
      if !ok {
        return;
      }
    }
    return true;
  }

  /**
   * What the loop of simpleValidation over the borders knows after the first i of them: seen
   * holds the ACTIVE ones, activeCount counts them, start is the last (0 before the first),
   * and isComplete says that none of them is UNSET.
   */
  ghost predicate Scanned(bs: seq<BorderStatus>, i: int, seen: set<int>, isComplete: bool, activeCount: int, start: int)
  {
    && 0 <= i <= |bs|
    && (forall j :: j in seen <==> 0 <= j < i && bs[j] == ACTIVE)
    && activeCount == |seen|
    && (seen == {} ==> start == 0)
    && (seen != {} ==> start in seen)
    && (isComplete <==> forall j | 0 <= j < i :: bs[j] != UNSET)
  }

  /** One more border of the loop, as each of its three statuses updates the variables. */
  lemma ScanNext(bs: seq<BorderStatus>, i: int, seen: set<int>, isComplete: bool, activeCount: int, start: int)
    requires Scanned(bs, i, seen, isComplete, activeCount, start) && i < |bs|
    ensures bs[i] == UNSET ==> Scanned(bs, i + 1, seen, false, activeCount, start)
    ensures bs[i] == ACTIVE ==> Scanned(bs, i + 1, seen + {i}, isComplete, activeCount + 1, i)
    ensures bs[i] == BLANK ==> Scanned(bs, i + 1, seen, isComplete, activeCount, start)
  {
    assert i !in seen;
  }

  /**
   * The loop of simpleValidation over the borders: whether both ends of every ACTIVE border are
   * fine and, when they are, whether no border is UNSET, how many borders are ACTIVE and the
   * last ACTIVE one (0 when there is none).
   */
  method ScanBorders(board: Board) returns (ok: bool, isComplete: bool, activeCount: int, start: int)
    requires board.WellFormed()
    ensures ok == EndsMet(board.rows, board.cols, board.borders[..])
    ensures ok ==> (isComplete <==> UNSET !in board.borders[..])
    ensures ok ==> activeCount == |LoopRule.IndicesWith(board.borders[..], ACTIVE)|
    ensures ok && LoopRule.IndicesWith(board.borders[..], ACTIVE) == {} ==> start == 0
    ensures ok && LoopRule.IndicesWith(board.borders[..], ACTIVE) != {} ==>
              start in LoopRule.IndicesWith(board.borders[..], ACTIVE)
  {
    ghost var bs := board.borders[..];
    isComplete, activeCount, start := true, 0, 0;
    ghost var seen: set<int> := {};
    for i := 0 to board.borders.Length
      invariant Scanned(bs, i, seen, isComplete, activeCount, start)
      invariant forall j | 0 <= j < i && bs[j] == ACTIVE :: !EndForbids(board.rows, board.cols, bs, j)
    {
      ScanNext(bs, i, seen, isComplete, activeCount, start);
      var bdrStat := board.borders[i];
      if bdrStat == UNSET {
        isComplete := false;
      } else if bdrStat == ACTIVE {
        activeCount := activeCount + 1;
        seen := seen + {i};
        start := i;
        // The same four endpoint checks as processBorder makes.
        var forbids := CheckEnds(board, i);
        if forbids {
          return false, isComplete, activeCount, start;
        }
      }
    }
    assert seen == LoopRule.IndicesWith(bs, ACTIVE);
    return true, isComplete, activeCount, start;
  }

  /**
   * simpleValidation: false when a clue cannot be met or an ACTIVE border has a bad end; true
   * on a board with UNSET borders left; on a finished board, true exactly when the flood of
   * _addBorder from the last ACTIVE border reaches as many borders as are ACTIVE.
   */
  method SimpleValidation(board: Board) returns (ok: bool)
    requires board.WellFormed()
    ensures ok == Validates(board, board.borders[..])
  {
    ok := CheckClues(board);
    if !ok {
      return;
    }
    var isComplete, activeCount, start;
    ok, isComplete, activeCount, start := ScanBorders(board);
    if !ok {
      return;
    }
    if !isComplete {
      return true;
    }
    ok := AllConnected(board, activeCount, start);
  }

  /** Connection is symmetric among the ACTIVE borders of a board. */
  lemma ActiveSymmetric(rows: int, cols: int, bs: seq<BorderStatus>)
    requires cols >= 1 && |bs| == NumBorders(rows, cols)
    ensures LoopRule.Symmetric(LoopRule.Links(rows, cols), LoopRule.IndicesWith(bs, ACTIVE))
  {
    LoopRule.LinksSymmetric(rows, cols, LoopRule.IndicesWith(bs, ACTIVE));
  }

  /**
   * The last part of simpleValidation on a finished board: flood from start with _addBorder and
   * compare the number of borders reached with the number of ACTIVE borders.
   */
  method AllConnected(board: Board, activeCount: int, start: int) returns (ok: bool)
    requires board.WellFormed()
    requires activeCount == |LoopRule.IndicesWith(board.borders[..], ACTIVE)|
    requires LoopRule.IndicesWith(board.borders[..], ACTIVE) == {} ==> start == 0
    requires LoopRule.IndicesWith(board.borders[..], ACTIVE) != {} ==> start in LoopRule.IndicesWith(board.borders[..], ACTIVE)
    ensures var active := LoopRule.IndicesWith(board.borders[..], ACTIVE);
            ok == (active != {} && OneComponent(LoopRule.Links(board.rows, board.cols), active))
  {
    var active := LoopRule.IndicesWith(board.borders[..], ACTIVE);
    var links := LoopRule.Links(board.rows, board.cols);
    ActiveSymmetric(board.rows, board.cols, board.borders[..]);
    var flood := new Flood(links, active);
    flood.AddBorder(start);
    assert flood.connected - {} == flood.connected;
    FloodDecides(links, active, flood.connected, start);
    ok := |flood.connected| == activeCount;
  }

  // ---------------------------------------------------------------------------------------
  // What passing the validation means on a finished board
  // ---------------------------------------------------------------------------------------

  /** Cell x has a clue and exactly that many of its sides are ACTIVE. */
  ghost predicate ClueMetAt(board: Board, bs: seq<BorderStatus>, x: Cell)
  {
    var sides := CellBorderSeq(board.cols, x.0, x.1);
    && 0 <= x.0 < |board.cells| && 0 <= x.1 < |board.cells[x.0]| && board.cells[x.0][x.1].Some?
    && (forall k | 0 <= k < |sides| :: 0 <= sides[k] < |bs|)
    && CountOf(Statuses(bs, sides), ACTIVE) == board.cells[x.0][x.1].value
  }

  /** Border i continues on exactly one ACTIVE border at each endpoint. */
  ghost predicate ContinuesBothWays(rows: int, cols: int, bs: seq<BorderStatus>, i: int)
    requires cols >= 1 && |bs| == NumBorders(rows, cols)
  {
    ConnectedOn(rows, cols, bs, i);
    var conn := ConnectedBorders(rows, cols, i);
    StatusCount(bs, conn.0).1 == 1 && StatusCount(bs, conn.1).1 == 1
  }

  /**
   * A solved board: no border is UNSET, every clue is met exactly, every ACTIVE border continues
   * on exactly one ACTIVE border at each endpoint, and the ACTIVE borders are one non-empty
   * connected piece: a single closed loop.
   */
  ghost predicate Solved(board: Board, bs: seq<BorderStatus>)
    requires OnBoard(board, bs)
  {
    var reqs := board.ReqCells();
    var active := LoopRule.IndicesWith(bs, ACTIVE);
    && UNSET !in bs
    && (forall j | 0 <= j < |reqs| :: ClueMetAt(board, bs, reqs[j]))
    && (forall i | 0 <= i < |bs| && bs[i] == ACTIVE :: ContinuesBothWays(board.rows, board.cols, bs, i))
    && active != {} && OneComponent(LoopRule.Links(board.rows, board.cols), active)
  }

  /** With no UNSET side, a clue can be met exactly when it is not broken. */
  lemma ClueSettled(board: Board, bs: seq<BorderStatus>, x: Cell)
    requires OnBoard(board, bs) && UNSET !in bs
    requires IsValidCellIdx(board.rows, board.cols, x.0, x.1) && board.cells[x.0][x.1].Some?
    ensures !ClueBrokenAt(board, bs, x) <==> ClueMetAt(board, bs, x)
  {
    CellBorderSeqValid(board.rows, board.cols, x.0, x.1);
    var stats := Statuses(bs, CellBorderSeq(board.cols, x.0, x.1));
    CountZero(stats, UNSET);
  }

  /** With no UNSET border, an ACTIVE border's endpoints forbid nothing exactly when each continues once. */
  lemma EndSettled(rows: int, cols: int, bs: seq<BorderStatus>, i: int)
    requires cols >= 1 && |bs| == NumBorders(rows, cols) && UNSET !in bs
    ensures !EndForbids(rows, cols, bs, i) <==> ContinuesBothWays(rows, cols, bs, i)
  {
    hide ConnectedBorders;
    ConnectedOn(rows, cols, bs, i);
    var conn := ConnectedBorders(rows, cols, i);
    StatusCountTotal(bs, conn.0);
    StatusCountTotal(bs, conn.1);
    CountAtZero(bs, conn.0, UNSET);
    CountAtZero(bs, conn.1, UNSET);
  }

  /**
   * On a board with no UNSET border, simpleValidation passes exactly when the board is solved:
   * the checks it makes are not only necessary but also sufficient for a single loop that
   * meets every clue.
   */
  lemma FinishedValidates(board: Board, bs: seq<BorderStatus>)
    requires OnBoard(board, bs) && UNSET !in bs
    ensures Validates(board, bs) <==> Solved(board, bs)
  {
    var reqs := board.ReqCells();
    forall j | 0 <= j < |reqs| ensures !ClueBrokenAt(board, bs, reqs[j]) <==> ClueMetAt(board, bs, reqs[j]) {
      assert reqs[j] in reqs;
      ClueSettled(board, bs, reqs[j]);
    }
    forall i | 0 <= i < |bs| && bs[i] == ACTIVE
      ensures !EndForbids(board.rows, board.cols, bs, i) <==> ContinuesBothWays(board.rows, board.cols, bs, i)
    {
      EndSettled(board.rows, board.cols, bs, i);
    }
  }
}
